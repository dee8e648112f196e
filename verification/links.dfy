/** The link generator `generate_links`: the hypermedia links attached to a
    stored resource, chosen by the action that produced the response. */
module Links {

  /** The resource-lifecycle verbs the generator is called with. */
  datatype Action = List | Create | Delete

  /** A hypermedia link: a relation and the URL it points at. */
  datatype Link = Link(rel: string, href: string)

  const ViewRel: string := "view"
  const DeleteRel: string := "delete"

  /** The deletion endpoint of a resource under the API base URL. */
  function DeleteHref(apiBase: string, resourceName: string): (href: string)
    ensures |apiBase| + |resourceName| < |href|
    ensures href[..|apiBase|] == apiBase
    ensures href[|href| - |resourceName|..] == resourceName
  {
    apiBase + "/" + resourceName
  }

  /** Listing and creating yield a "view" link to the download URL followed by
      a "delete" link to the resource's deletion endpoint; deleting yields the
      "delete" link alone. */
  function GenerateLinks(action: Action, resourceName: string, apiBase: string, downloadUrl: string): (links: seq<Link>)
    ensures action != Delete ==> |links| == 2 && links[0].rel == ViewRel && links[1].rel == DeleteRel
    ensures action == Delete ==> |links| == 1 && links[0].rel == DeleteRel
    ensures forall i | 0 <= i < |links| && links[i].rel == ViewRel :: links[i].href == downloadUrl
    ensures forall i | 0 <= i < |links| && links[i].rel == DeleteRel :: links[i].href == DeleteHref(apiBase, resourceName)
  {
    var delete := Link(DeleteRel, DeleteHref(apiBase, resourceName));
    if action == Delete then [delete] else [Link(ViewRel, downloadUrl), delete]
  }

  /** The relations of a link list, in order. */
  function Relations(links: seq<Link>): seq<string> {
    seq(|links|, i requires 0 <= i < |links| => links[i].rel)
  }

  /** Every action yields exactly one "delete" link, it comes last, and a
      "view" link is present exactly when the action is not a deletion, in
      which case it comes first. */
  lemma RelationsByAction(action: Action, resourceName: string, apiBase: string, downloadUrl: string)
    ensures
      var rels := Relations(GenerateLinks(action, resourceName, apiBase, downloadUrl));
      && multiset(rels)[DeleteRel] == 1
      && rels[|rels| - 1] == DeleteRel
      && (ViewRel in rels <==> action != Delete)
      && (action != Delete ==> rels[0] == ViewRel)
  {
    var rels := Relations(GenerateLinks(action, resourceName, apiBase, downloadUrl));
    if action == Delete {
      assert rels == [DeleteRel];
    } else {
      assert rels == [ViewRel, DeleteRel];
    }
  }
}
