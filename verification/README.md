# Authentication, token and URL-codec core of a small FastAPI service

This project models, in Dafny, the core that the service's unit tests pin
down:

- the **URL ⇄ filename codec** (`validate_and_sanitize_url`,
  `encode_url_to_filename`, `decode_filename_to_url`). A URL is validated,
  base64-encoded with the URL- and filename-safe alphabet of section 5 of
  RFC 4648, and stripped of the `=` padding of section 3.2. Decoding puts
  back the padding that the name's length modulo four calls for, then inverts
  the transform;
- the **link generator** (`generate_links`): the ordered hypermedia links of
  a stored resource;
- the **token manager** (`create_access_token`, `verify_refresh_token`): the
  claims an access token carries, and the identity a refresh token names;
- the **authenticator** (`authenticate_user`): the single configured
  administrative account;
- the **login/registration flow** (`register`, `login` route handlers): a
  short-circuiting sequence of lock check, then credential check, then token
  issue, over an abstract user service.

The implementation modules `app/utils/common.py` and
`app/routers/user_routes.py` are not part of this model. What is modelled is
the behaviour their unit tests fix (`tests/test_utils/test_common.py`,
`tests/test_api/test_users_api.py`). Where the tests do not fix a detail,
the model makes a choice, and "## Left out" names each one: the exact error
texts, the claims of the login token, the treatment of a refresh token
without a text `sub`, the deletion route, and the decoder's handling of
characters outside the alphabet.

Modules, one file each:

| file | module | models |
|---|---|---|
| failures.dfy | `Failures` | `None`/value, results, `HTTPException` and `ValueError` |
| config.dfy | `Config` | the settings record and the `{"username": ...}` identity |
| auth.dfy | `Auth` | `authenticate_user` |
| tokens.dfy | `Tokens` | `create_access_token`, `verify_refresh_token` |
| base64url.dfy | `Base64Url` | base64url encoding and decoding over bytes, `str.rstrip` |
| url_codec.dfy | `UrlCodec` | the URL validator wrapper and the filename codec |
| links.dfy | `Links` | `generate_links` |
| user_routes.dfy | `UserRoutes` | the `register` and `login` handlers |

Collaborators outside this core, or that do I/O, are parameters. This
covers the URL validator (`isUrl`), JWT signing and decoding (`sign`,
`decode`), the clock (`now`) and the user service's three answers
(`UserService`). Each handler returns its response together with the ordered
steps it took. This stands in for the tests' assertions on how often, and
with which arguments, the mocked collaborators were awaited.

## Model

| member | source | states |
|---|---|---|
| Auth.AuthenticateUser | tests/test_utils/test_common.py:33-43 | the admin identity is returned exactly when both the username and the password equal the configured admin pair, and `None` for every other pair |
| Tokens.AccessTokenClaims | tests/test_utils/test_common.py:46-54 | the signed claims are the caller's claims unchanged plus an `exp` claim at now + the given lifetime (or the configured default); nothing else is added |
| Tokens.AccessClaimsUnique | tests/test_utils/test_common.py:46-54 | those requirements determine the claim set: any claims meeting them are exactly the ones signed |
| Tokens.CreateAccessToken | tests/test_utils/test_common.py:46-54 | the token is the signature of the claim set that keeps the caller's claims and adds only `exp` at now + lifetime (given or default) |
| Tokens.IssuedTokenCarriesSubjectAndExpiry | tests/test_utils/test_common.py:46-54 | decoding an issued token gives back the caller's `sub` unchanged and an `exp` claim |
| Tokens.VerifyRefreshToken | tests/test_utils/test_common.py:74-89 | a token that decodes with a string `sub` s yields `{"username": s}`; any other token raises 401 "Invalid refresh token" |
| Tokens.IssuedTokenVerifies | tests/test_utils/test_common.py:74-83 | a freshly issued, valid token verifies to the subject it was issued for |
| UrlCodec.ValidateAndSanitizeUrl | tests/test_utils/test_common.py:57-71 | the URL is returned unchanged when the validator accepts it, and `None` exactly when it rejects it |
| UrlCodec.EncodeUrlToFilename | tests/test_utils/test_common.py:92-104 | a rejected URL raises ValueError "Provided URL is invalid" and yields no name; an accepted one yields ceil(4n/3) filename-safe characters with no `=`, a length never one more than a multiple of four |
| UrlCodec.RoundTrip | tests/test_utils/test_common.py:93-110 | decoding the filename of any accepted URL gives back that URL |
| UrlCodec.EncodeInjective | tests/test_utils/test_common.py:93-97 | distinct accepted URLs get distinct filenames |
| UrlCodec.DecodeFilenameToUrl | tests/test_utils/test_common.py:106-110 | a name whose length is one more than a multiple of four is rejected (Python agrees for names without `=`; see "## Left out"); a decoded URL is ASCII text (its inverse property is `UrlCodec.RoundTrip`) |
| UrlCodec.ExampleVector | tests/test_utils/test_common.py:93-110 | "https://example.com" encodes to "aHR0cHM6Ly9leGFtcGxlLmNvbQ", and that name decodes back to it |
| Base64Url.EncodeBody | tests/test_utils/test_common.py:93-97 | the unpadded encoding of n bytes has ceil(4n/3) characters, all from the RFC 4648 section 5 alphabet |
| Base64Url.RStrip | tests/test_utils/test_common.py:97 | stripping leaves the longest prefix not ending in the stripped character, and only that character is removed |
| Base64Url.StrippedEncodingIsBody | tests/test_utils/test_common.py:93-97 | stripping `=` from the padded encoding removes exactly the padding and nothing else |
| Base64Url.StdRoundTrip | tests/test_utils/test_common.py:106-110 | the padded decoder inverts the padded encoder on every byte sequence |
| Links.GenerateLinks | tests/test_utils/test_common.py:113-128 | list and create give exactly [view, delete] in that order, delete gives exactly [delete]; view points at the download URL, delete at the resource's deletion endpoint |
| Links.RelationsByAction | tests/test_utils/test_common.py:113-128 | every action gives exactly one delete link, placed last; a view link is present, and first, exactly when the action is not delete |
| UserRoutes.Register | tests/test_api/test_users_api.py:11-59 | the service is asked once with the request's fields; its user is returned unchanged, and no user means 400 "Username already exists" |
| UserRoutes.Login | tests/test_api/test_users_api.py:62-134 | locked: 400 "Account locked" after the lock query alone. Unlocked: the credential query follows, and a rejection is 401 "Incorrect username or password". Otherwise the response is the issued token with type "bearer" |
| UserRoutes.LoginFollowsProtocol | tests/test_api/test_users_api.py:74-134 | every login run keeps the step order (lock check once, first; credential check once, only after an unlocked answer; token only after accepted credentials), and a token is issued exactly on the successful runs |
| UserRoutes.LoginTokenNamesUser | tests/test_api/test_users_api.py:100-110 | the token of a successful login verifies to the user the service accepted |

## Left out

- Logging (`setup_logging`, the warning on a failed admin login, the error on a rejected URL): side-effecting diagnostics that do not change any result.
- JWT signing, signature checking and the clock check of `exp`: they belong to the `jose` library and `datetime`. They are the `sign` and `decode` parameters, and `now` is a parameter. The signing secret, the algorithm and the refresh-token lifetime therefore do not appear in `Settings`.
- The internals of `validators.url`: the validator is the `isUrl` parameter, as the tests mock it.
- UrlCodec.EncodeUrlToFilename: requires accepted URLs to be ASCII (a URL's bytes are then its character codes). UTF-8 encoding of accepted non-ASCII URLs is not modelled because no test exercises it; a rejected URL raises the error whatever its characters.
- UrlCodec.DecodeFilenameToUrl: decoded bytes of 128 or more are reported as a decoding error, not decoded as multi-byte UTF-8. Python's `urlsafe_b64decode` decodes `+` and `/` like `-` and `_`, and discards any other character outside the alphabet; this model rejects all of them. Padding before the last group is rejected too. A `=` that starts a group, such as a final group made only of `=` (`====`, or `aGlp=` once padded), is rejected where Python skips it, so the rejection of names whose length is one more than a multiple of four matches Python only for names without `=`. Leftover low-order bits are accepted, as in Python.
- UrlCodec.ValidateAndSanitizeUrl: the tests do not fix any canonicalisation of an accepted URL, so an accepted URL is returned unchanged, as the tests observe.
- UrlCodec.EncodeUrlToFilename: the error message is "Provided URL is invalid"; the tests only check that the raised message contains this text.
- UserRoutes.Register: the 400 detail is modelled as exactly "Username already exists"; the tests only check that the detail contains this text.
- UserRoutes.Login: the 400 detail is modelled as exactly "Account locked" and the 401 detail as exactly "Incorrect username or password"; the tests only check that each detail contains this text.
- Tokens.VerifyRefreshToken: the 401 detail is modelled as exactly "Invalid refresh token"; the tests only check that the detail contains this text.
- Links.GenerateLinks: only the three verbs the tests use (list, create, delete) are modelled; the tests do not fix what other action strings produce. The HTTP method and media-type fields of a link are not modelled. The deletion endpoint is modelled as the API base, "/", and the resource name, because the tests do not fix the exact route segment; `Links.DeleteHref` itself promises only the base as prefix and the name as suffix.
- Tokens.VerifyRefreshToken: a payload without a string `sub` is treated like an undecodable token (401 "Invalid refresh token"); the tests do not cover that case.
- UserRoutes.Login: the issued token's claims are `{"sub": username}` with the configured default lifetime. The tests replace token creation with a stub, so they do not fix the claims.
- The database session, `async`/`await`, Pydantic schemas and FastAPI's exception machinery: the session is passed through untouched, so it is not modelled. Schemas are plain datatypes, and exceptions are the `Exception` datatype.
- Password hashing, lockout counters and persistence inside the user service: external collaborators, reduced to the service's answers.
