/** The stored discovered edges and the BGBl index (internal/store/discovery.go). One bucket is one
    map; a transaction is one step. */
module Store {
  import opened Domain
  import Citation
  import Linked
  import Text

  datatype BGBlIndexEntry = BGBlIndexEntry(teil: int, year: int, number: string, giiSlug: string, lawID: string)

  type Edges = map<string, DiscoveredEdge>

  function EdgeKey(key: string -> string, e: DiscoveredEdge): string { Linked.LinkKey(key, e.parentLawID, e.giiSlug) }

  /** Every edge is filed under its own parent and slug. */
  ghost predicate Filed(key: string -> string, edges: Edges) {
    forall k :: k in edges ==> k == EdgeKey(key, edges[k])
  }

  function Without(edges: Edges, slug: string): Edges {
    map k | k in edges && edges[k].giiSlug != slug :: edges[k]
  }

  class Store {
    const key: string -> string
    var edges: Edges
    var index: map<string, BGBlIndexEntry>

    ghost predicate Valid()
      reads this
    {
      && Filed(key, edges)
      && forall k :: k in index ==> k == Citation.IssueID(index[k].teil, index[k].year, index[k].number)
    }

    constructor (normalize: string -> string)
      ensures Valid() && key == normalize && edges == map[] && index == map[]
    {
      key := normalize;
      edges := map[];
      index := map[];
    }

    method UpsertBGBlIndex(e: BGBlIndexEntry)
      requires Valid()
      modifies `index
      ensures Valid() && index == old(index)[Citation.IssueID(e.teil, e.year, e.number) := e]
    {
      index := index[Citation.IssueID(e.teil, e.year, e.number) := e];
    }

    /** The entry for exactly this citation, if there is one. */
    method LookupBGBlIndex(teil: int, year: int, number: string) returns (found: Option<BGBlIndexEntry>)
      requires Valid()
      ensures found.Some? ==> found.value in index.Values && (found.value.teil, found.value.year, found.value.number) == (teil, year, number)
      ensures found.None? ==> forall e :: e in index.Values ==> (e.teil, e.year, e.number) != (teil, year, number)
    {
      var k := Citation.IssueID(teil, year, number);
      if k in index {
        var e := index[k];
        Citation.IssueIDInjective(teil, year, number, e.teil, e.year, e.number);
        return Some(e);
      }
      found := None;
    }

    method UpsertDiscoveredLink(e: DiscoveredEdge)
      requires Valid()
      modifies `edges
      ensures Valid() && edges == old(edges)[EdgeKey(key, e) := e]
    {
      edges := edges[EdgeKey(key, e) := e];
    }

    /** Collects the keys of the slug, then deletes them. */
    method DeleteDiscoveredBySlug(slug: string)
      requires Valid()
      modifies `edges
      ensures Valid()
      ensures edges == if Text.TrimSpace(slug) == "" then old(edges) else Without(old(edges), Text.TrimSpace(slug))
    {
      var s := Text.TrimSpace(slug);
      if s == "" { return; }
      var toDelete := KeysOfSlug(edges, s);
      edges := edges - toDelete;
    }

    /** Exactly the edges of the parent, one each. */
    method DiscoveredForParent(parent: string) returns (out: seq<DiscoveredEdge>)
      requires Valid()
      ensures forall e :: e in out <==> e in edges.Values && key(e.parentLawID) == key(parent)
      ensures Text.Distinct(out)
    {
      out := EdgesOf(key, edges, parent);
    }
  }

  method KeysOfSlug(edges: Edges, slug: string) returns (found: set<string>)
    ensures found == set k | k in edges && edges[k].giiSlug == slug
    ensures edges - found == Without(edges, slug)
  {
    var todo := edges.Keys;
    found := {};
    while todo != {}
      invariant todo <= edges.Keys
      invariant found == set k | k in edges && k !in todo && edges[k].giiSlug == slug
      decreases |todo|
    {
      var k :| k in todo;
      todo := todo - {k};
      if edges[k].giiSlug == slug { found := found + {k}; }
    }
  }

  ghost predicate Visited(key: string -> string, edges: Edges, todo: set<string>, e: DiscoveredEdge) {
    EdgeKey(key, e) in edges && EdgeKey(key, e) !in todo && edges[EdgeKey(key, e)] == e
  }

  method EdgesOf(key: string -> string, edges: Edges, parent: string) returns (out: seq<DiscoveredEdge>)
    requires Filed(key, edges)
    ensures forall e :: e in out <==> e in edges.Values && key(e.parentLawID) == key(parent)
    ensures Text.Distinct(out)
  {
    out := [];
    var todo := edges.Keys;
    while todo != {}
      invariant todo <= edges.Keys && Text.Distinct(out)
      invariant forall e :: e in out <==> Visited(key, edges, todo, e) && key(e.parentLawID) == key(parent)
      decreases |todo|
    {
      var k :| k in todo;
      ghost var before := todo;
      todo := todo - {k};
      forall e ensures Visited(key, edges, todo, e) <==> Visited(key, edges, before, e) || e == edges[k] {
      }
      if key(edges[k].parentLawID) == key(parent) { out := out + [edges[k]]; }
    }
    forall e ensures Visited(key, edges, {}, e) <==> e in edges.Values {
      if e in edges.Values { var k :| k in edges && edges[k] == e; }
    }
  }
}
