/** Process-wide configuration, read once at startup, and the minimal identity
    record (`{"username": ...}`) that authentication and refresh-token
    verification hand back. */
module Config {

  /** The settings the modelled handlers read. The signing secret and
      algorithm live inside the signing and decoding functions that the token
      operations take as parameters, so they do not appear here. */
  datatype Settings = Settings(
    accessTokenExpireMinutes: nat,
    adminUser: string,
    adminPassword: string)

  /** The dictionary `{"username": username}`. */
  datatype Identity = Identity(username: string)

  const SecondsPerMinute: nat := 60
}
