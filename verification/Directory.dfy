/** The directory's rows and edges, and the adjacency indexes every graph walk starts from.

    An edge that lacks an end is not usable and no walk follows it. Walks go down or up, so a
    question about neighbours names the direction. `Neighbours` answers it from the list of edges and
    `BuildIndex` for all rows at once, in the order of the edges; `Arrows` is the graph
    that both are about.
  */
module Directory {

  type Id = string

  ghost predicate Extends<K, V>(m': map<K, V>, m: map<K, V>)
  {
    forall x :: x in m ==> x in m' && m'[x] == m[x]
  }

  datatype Option<+T> = None | Some(value: T)

  datatype Edge = Edge(id: Id, parentId: Id, childId: Id, relation: string, source: string) {
    /** An edge with a blank end is skipped by every walk. */
    predicate Usable() { parentId != "" && childId != "" }
  }

  datatype Direction = ToChildren | ToParents

  function Tail(e: Edge, d: Direction): Id { if d.ToChildren? then e.parentId else e.childId }

  function Head(e: Edge, d: Direction): Id { if d.ToChildren? then e.childId else e.parentId }

  /** The neighbours of `id` along the first `n` edges, in edge order. */
  function NeighboursUpTo(edges: seq<Edge>, d: Direction, id: Id, n: nat): seq<Id>
    requires n <= |edges|
  {
    if n == 0 then []
    else
      var e := edges[n - 1];
      var before := NeighboursUpTo(edges, d, id, n - 1);
      if e.Usable() && Tail(e, d) == id then before + [Head(e, d)] else before
  }

  function Neighbours(edges: seq<Edge>, d: Direction, id: Id): seq<Id>
  {
    NeighboursUpTo(edges, d, id, |edges|)
  }

  /** The edges as arrows of a graph. */
  ghost function Arrows(edges: seq<Edge>, d: Direction): set<(Id, Id)>
  {
    set e | e in edges && e.Usable() :: (Tail(e, d), Head(e, d))
  }

  lemma {:induction false} NeighboursUpToAre(edges: seq<Edge>, d: Direction, id: Id, n: nat, x: Id)
    requires n <= |edges|
    ensures x in NeighboursUpTo(edges, d, id, n)
       <==> exists k :: 0 <= k < n && edges[k].Usable() && Tail(edges[k], d) == id && Head(edges[k], d) == x
    decreases n
  {
    if n > 0 {
      NeighboursUpToAre(edges, d, id, n - 1, x);
    }
  }

  lemma NeighboursAre(edges: seq<Edge>, d: Direction, id: Id)
    ensures forall x :: x in Neighbours(edges, d, id) <==> (id, x) in Arrows(edges, d)
  {
    forall x
      ensures x in Neighbours(edges, d, id) <==> (id, x) in Arrows(edges, d)
    {
      NeighboursUpToAre(edges, d, id, |edges|, x);
      if (id, x) in Arrows(edges, d) {
        var e :| e in edges && e.Usable() && (Tail(e, d), Head(e, d)) == (id, x);
        var k :| 0 <= k < |edges| && edges[k] == e;
      }
    }
  }

  function Lookup(index: map<Id, seq<Id>>, id: Id): seq<Id>
  {
    if id in index then index[id] else []
  }

  /** `index` answers every adjacency question about `edges`, keeping edge order. */
  ghost predicate Indexes(index: map<Id, seq<Id>>, edges: seq<Edge>, d: Direction)
  {
    forall id :: Lookup(index, id) == Neighbours(edges, d, id)
  }

  lemma IndexedArrows(index: map<Id, seq<Id>>, edges: seq<Edge>, d: Direction, id: Id)
    requires Indexes(index, edges, d)
    ensures forall x :: x in Lookup(index, id) <==> (id, x) in Arrows(edges, d)
  {
    NeighboursAre(edges, d, id);
  }

  /** One pass over the edges builds the whole adjacency index. */
  method BuildIndex(edges: seq<Edge>, d: Direction) returns (index: map<Id, seq<Id>>)
    ensures Indexes(index, edges, d)
  {
    index := map[];
    for n := 0 to |edges|
      invariant forall id :: Lookup(index, id) == NeighboursUpTo(edges, d, id, n)
    {
      var e := edges[n];
      if !e.Usable() { continue; }
      var at := Tail(e, d);
      index := index[at := Lookup(index, at) + [Head(e, d)]];
    }
  }

  // ----- lists -----

  function FirstFrom<T>(s: seq<T>, f: T -> bool, n: nat): (r: Option<T>)
    requires n <= |s|
    ensures r.Some? ==> r.value in s && f(r.value)
    ensures r.None? ==> forall k :: n <= k < |s| ==> !f(s[k])
    decreases |s| - n
  {
    if n == |s| then None else if f(s[n]) then Some(s[n]) else FirstFrom(s, f, n + 1)
  }

  /** The first entry that satisfies `f`. */
  function First<T>(s: seq<T>, f: T -> bool): Option<T>
  {
    FirstFrom(s, f, 0)
  }

  lemma {:induction false} FirstFromIsFirst<T>(s: seq<T>, f: T -> bool, n: nat) returns (k: nat)
    requires n <= |s| && FirstFrom(s, f, n).Some?
    ensures n <= k < |s| && s[k] == FirstFrom(s, f, n).value && forall j :: n <= j < k ==> !f(s[j])
    decreases |s| - n
  {
    k := n;
    if !f(s[n]) {
      k := FirstFromIsFirst(s, f, n + 1);
    }
  }

  /** The entries that satisfy `f`. */
  function Keeping<T(!new)>(s: seq<T>, f: T -> bool): (r: seq<T>)
    ensures forall x :: x in r <==> x in s && f(x)
    ensures |r| <= |s|
  {
    if s == [] then []
    else
      var init, last := Keeping(s[..|s| - 1], f), s[|s| - 1];
      if f(last) then init + [last] else init
  }

  lemma {:induction false} KeepingAll<T(!new)>(s: seq<T>, f: T -> bool)
    requires forall k :: 0 <= k < |s| ==> f(s[k])
    ensures Keeping(s, f) == s
    decreases |s|
  {
    if s != [] {
      KeepingAll(s[..|s| - 1], f);
      assert s == s[..|s| - 1] + [s[|s| - 1]];
    }
  }

  lemma {:induction false} KeepingAgree<T(!new)>(s: seq<T>, f: T -> bool, g: T -> bool)
    requires forall x :: x in s ==> f(x) == g(x)
    ensures Keeping(s, f) == Keeping(s, g)
    decreases |s|
  {
    if s != [] {
      KeepingAgree(s[..|s| - 1], f, g);
    }
  }

  lemma KeepingLast<T(!new)>(s: seq<T>, f: T -> bool, x: T)
    ensures |Keeping(s + [x], f)| == |Keeping(s, f)| + if f(x) then 1 else 0
  {
    assert (s + [x])[..|s|] == s;
  }

  lemma {:induction false} KeepingUpdated<T(!new)>(s: seq<T>, f: T -> bool, k: nat, x: T)
    requires k < |s|
    ensures |Keeping(s[k := x], f)| == |Keeping(s, f)| - (if f(s[k]) then 1 else 0) + if f(x) then 1 else 0
    decreases |s|
  {
    var init, last := s[..|s| - 1], s[|s| - 1];
    KeepingLast(init, f, last);
    assert s == init + [last];
    if k == |init| {
      KeepingLast(init, f, x);
      assert s[k := x] == init + [x];
    } else {
      KeepingUpdated(init, f, k, x);
      KeepingLast(init[k := x], f, last);
      assert s[k := x] == init[k := x] + [last];
    }
  }

  /** `r` is `s` without the entries that fail `f`, the others in their order; `at` tells where they stood. */
  ghost predicate IsSelection<T(!new)>(s: seq<T>, f: T -> bool, r: seq<T>, at: seq<nat>)
  {
    && |at| == |r|
    && (forall a :: 0 <= a < |at| ==> at[a] < |s| && r[a] == s[at[a]])
    && (forall a, b :: 0 <= a < b < |at| ==> at[a] < at[b])
    && (forall k :: 0 <= k < |s| ==> (f(s[k]) <==> k in at))
  }

  lemma {:induction false} KeepingSelects<T(!new)>(s: seq<T>, f: T -> bool) returns (at: seq<nat>)
    ensures IsSelection(s, f, Keeping(s, f), at)
    decreases |s|
  {
    if s == [] { return []; }
    var n := |s| - 1;
    at := KeepingSelects(s[..n], f);
    SelectionGrows(s, f, Keeping(s[..n], f), at);
    if f(s[n]) {
      at := at + [n];
    }
  }

  lemma SelectionGrows<T(!new)>(s: seq<T>, f: T -> bool, r: seq<T>, at: seq<nat>)
    requires s != [] && IsSelection(s[..|s| - 1], f, r, at)
    ensures f(s[|s| - 1]) ==> IsSelection(s, f, r + [s[|s| - 1]], at + [|s| - 1])
    ensures !f(s[|s| - 1]) ==> IsSelection(s, f, r, at)
  {
    var n := |s| - 1;
    assert forall k :: 0 <= k < n ==> s[..n][k] == s[k];
    assert forall k: nat :: k in at ==> k < n;
    var at' := at + [n];
    assert forall k: nat :: k in at' <==> k in at || k == n;
  }

  datatype Resource = Resource(
    id: Id,
    kind: string,
    name: string,
    slug: string,
    tags: set<string>,
    environment: string,
    status: string,
    address: string,
    ip: string)

  /** The first row with the given id. */
  function Find(resources: seq<Resource>, id: Id): Option<Resource>
  {
    First(resources, (r: Resource) => r.id == id)
  }

  ghost function Ids(resources: seq<Resource>): set<Id>
  {
    set r | r in resources :: r.id
  }

  lemma FoundIffKnown(resources: seq<Resource>, id: Id)
    ensures Find(resources, id).Some? <==> id in Ids(resources)
  {
    if id in Ids(resources) {
      var r :| r in resources && r.id == id;
      var k :| 0 <= k < |resources| && resources[k] == r;
    }
  }
}
