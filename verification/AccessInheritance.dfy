/** Ownership propagates down the tree: the worklist that spreads direct grants over the graph, and the
    one that records where an inherited level came from.
  */
module AccessInheritance {
  import opened Graph
  import opened Directory

  ghost function Down(edges: seq<Edge>): set<(Id, Id)>
  {
    Arrows(edges, ToChildren)
  }

  /** A level waiting to be handed down from `id`; `root` is the directly granted row it is traced to. */
  datatype Item<L> = Item(id: Id, level: L, root: Id)

  /** A scale of access levels: unranked levels, and `none` for no level at all, rank 0. */
  datatype Scale<!L(!new)> = Scale(rank: L -> nat, none: L, top: nat) {

    ghost predicate Valid()
    {
      rank(none) == 0 && forall l :: rank(l) <= top
    }

    function Strongest(a: L, b: L): L
    {
      if rank(a) >= rank(b) then a else b
    }

    function At(m: map<Id, L>, id: Id): L
    {
      if id in m then m[id] else none
    }

    function RankAt(m: map<Id, L>, id: Id): nat
    {
      rank(At(m, id))
    }

    // ----- what propagation is supposed to compute -----

    /** `a` is directly granted and `id` is `a` or lies below it. */
    ghost predicate Grants(direct: map<Id, L>, r: set<(Id, Id)>, a: Id, id: Id)
    {
      a in direct && Reach(r, a, id)
    }

    ghost predicate AtMost(direct: map<Id, L>, r: set<(Id, Id)>, id: Id, k: nat)
    {
      forall a :: Grants(direct, r, a, id) ==> rank(direct[a]) <= k
    }

    /** `k` is the strongest rank granted directly to `id` or to anything above it. */
    ghost predicate IsBest(direct: map<Id, L>, r: set<(Id, Id)>, id: Id, k: nat)
    {
      && AtMost(direct, r, id, k)
      && (k > 0 ==> exists a :: Grants(direct, r, a, id) && rank(direct[a]) == k)
    }

    lemma BestIsUnique(direct: map<Id, L>, r: set<(Id, Id)>, id: Id, j: nat, k: nat)
      requires IsBest(direct, r, id, j) && IsBest(direct, r, id, k)
      ensures j == k
    {
    }

    /** `l` is, word for word, the level of a direct grant at or above `id`. */
    ghost predicate Granted(direct: map<Id, L>, r: set<(Id, Id)>, id: Id, l: L)
    {
      exists a :: Grants(direct, r, a, id) && direct[a] == l
    }

    // ----- the state of the worklist -----

    /** Nothing recorded was made up, and direct grants are never lowered. */
    ghost predicate SoundLevels(direct: map<Id, L>, r: set<(Id, Id)>, eff: map<Id, L>)
    {
      && (forall x {:trigger Granted(direct, r, x, eff[x])} :: x in eff ==> Granted(direct, r, x, eff[x]))
      && (forall x :: x in eff ==> x in direct || rank(eff[x]) > 0)
      && (forall a :: a in direct ==> a in eff && rank(direct[a]) <= rank(eff[a]))
    }

    ghost predicate SoundQueue(direct: map<Id, L>, r: set<(Id, Id)>, eff: map<Id, L>, queue: seq<Item<L>>)
    {
      forall i :: 0 <= i < |queue| ==> SoundItem(direct, r, eff, queue[i])
    }

    ghost predicate SoundItem(direct: map<Id, L>, r: set<(Id, Id)>, eff: map<Id, L>, q: Item<L>)
    {
      && q.id in eff && rank(q.level) <= rank(eff[q.id])
      && Granted(direct, r, q.id, q.level)
      && Grants(direct, r, q.root, q.id)
    }

    /** Every child of `x` already has at least `x`'s level. */
    ghost predicate HandedDown(r: set<(Id, Id)>, eff: map<Id, L>, x: Id)
    {
      forall c :: (x, c) in r ==> RankAt(eff, x) <= RankAt(eff, c)
    }

    ghost predicate Queued(eff: map<Id, L>, queue: seq<Item<L>>, x: Id)
    {
      exists i :: 0 <= i < |queue| && queue[i].id == x && rank(queue[i].level) == RankAt(eff, x)
    }

    /** Whatever has not been handed down yet is still queued at its present level; `busy` is exempt. */
    ghost predicate NothingForgotten(r: set<(Id, Id)>, eff: map<Id, L>, queue: seq<Item<L>>, busy: set<Id>)
    {
      forall x {:trigger Queued(eff, queue, x)} ::
        x in eff && x !in busy ==> Queued(eff, queue, x) || HandedDown(r, eff, x)
    }

    /** The ranks rows may still climb: this shrinks whenever a level is raised. */
    ghost function Headroom(r: set<(Id, Id)>, eff: map<Id, L>): set<(Id, nat)>
    {
      set a, k: nat | a in r && k <= top && RankAt(eff, a.1) < k :: (a.1, k)
    }

    lemma GrantedBelow(direct: map<Id, L>, r: set<(Id, Id)>, x: Id, c: Id, l: L)
      requires Granted(direct, r, x, l) && (x, c) in r
      ensures Granted(direct, r, c, l)
    {
      var a :| Grants(direct, r, a, x) && direct[a] == l;
      ReachSnoc(r, a, x, c);
      assert Grants(direct, r, a, c);
    }

    lemma HeadroomShrinks(r: set<(Id, Id)>, eff: map<Id, L>, x: Id, c: Id, l: L)
      requires Valid() && (x, c) in r && rank(l) > RankAt(eff, c)
      ensures Headroom(r, eff[c := l]) < Headroom(r, eff)
    {
      assert (x, c).1 == c;
      assert (c, rank(l)) in Headroom(r, eff) && (c, rank(l)) !in Headroom(r, eff[c := l]);
    }

    lemma ItemSurvives(direct: map<Id, L>, r: set<(Id, Id)>, eff: map<Id, L>, p: Item<L>, c: Id, l: L)
      requires SoundItem(direct, r, eff, p) && rank(l) >= RankAt(eff, c)
      ensures SoundItem(direct, r, eff[c := l], p)
    {
    }

    lemma NewItem(direct: map<Id, L>, r: set<(Id, Id)>, eff: map<Id, L>, q: Item<L>, c: Id, root: Id)
      requires SoundItem(direct, r, eff, q) && (q.id, c) in r
      requires root == q.root || (root == q.id && root in direct)
      ensures SoundItem(direct, r, eff[c := q.level], Item(c, q.level, root))
    {
      GrantedBelow(direct, r, q.id, c, q.level);
      ReachRefl(r, root);
      ReachSnoc(r, root, q.id, c);
    }

    lemma RaiseKeepsQueue(direct: map<Id, L>, r: set<(Id, Id)>, eff: map<Id, L>, queue: seq<Item<L>>, item: Item<L>)
      requires SoundQueue(direct, r, eff, queue) && rank(item.level) >= RankAt(eff, item.id)
      requires SoundItem(direct, r, eff[item.id := item.level], item)
      ensures SoundQueue(direct, r, eff[item.id := item.level], queue + [item])
    {
      var queue' := queue + [item];
      forall i | 0 <= i < |queue'|
        ensures SoundItem(direct, r, eff[item.id := item.level], queue'[i])
      {
        if i < |queue| {
          ItemSurvives(direct, r, eff, queue[i], item.id, item.level);
        }
      }
    }

    lemma RaiseKeepsLevels(direct: map<Id, L>, r: set<(Id, Id)>, eff: map<Id, L>, c: Id, l: L)
      requires SoundLevels(direct, r, eff) && Granted(direct, r, c, l) && rank(l) > RankAt(eff, c)
      ensures SoundLevels(direct, r, eff[c := l])
    {
      var eff' := eff[c := l];
      forall x | x in eff'
        ensures Granted(direct, r, x, eff'[x])
      {
        assert x != c ==> Granted(direct, r, x, eff[x]);
      }
    }

    lemma RaiseForgetsNothing(r: set<(Id, Id)>, eff: map<Id, L>, queue: seq<Item<L>>, busy: set<Id>, item: Item<L>)
      requires NothingForgotten(r, eff, queue, busy) && rank(item.level) > RankAt(eff, item.id)
      ensures NothingForgotten(r, eff[item.id := item.level], queue + [item], busy)
    {
      var eff', queue' := eff[item.id := item.level], queue + [item];
      forall x | x in eff' && x !in busy
        ensures Queued(eff', queue', x) || HandedDown(r, eff', x)
      {
        if x == item.id {
          assert queue'[|queue|] == item;
        } else if Queued(eff, queue, x) {
          var i :| 0 <= i < |queue| && queue[i].id == x && rank(queue[i].level) == RankAt(eff, x);
          assert queue'[i] == queue[i];
        } else {
          assert HandedDown(r, eff, x);
        }
      }
    }

    /** Taking the first item off the queue; its row is busy unless the item is stale. */
    lemma ShiftForgetsNothing(r: set<(Id, Id)>, eff: map<Id, L>, queue: seq<Item<L>>)
      requires queue != [] && NothingForgotten(r, eff, queue, {})
      ensures NothingForgotten(r, eff, queue[1..],
                               if RankAt(eff, queue[0].id) > rank(queue[0].level) then {} else {queue[0].id})
    {
      forall x | x in eff && (x != queue[0].id || RankAt(eff, x) > rank(queue[0].level))
        ensures Queued(eff, queue[1..], x) || HandedDown(r, eff, x)
      {
        if Queued(eff, queue, x) {
          var i :| 0 <= i < |queue| && queue[i].id == x && rank(queue[i].level) == RankAt(eff, x);
          assert queue[1..][i - 1] == queue[i];
        }
      }
    }

    /** With the queue empty, what is recorded is the strongest rank above, everywhere. */
    lemma EmptyQueueIsBest(direct: map<Id, L>, r: set<(Id, Id)>, eff: map<Id, L>)
      requires Valid() && SoundLevels(direct, r, eff) && NothingForgotten(r, eff, [], {})
      ensures forall id :: IsBest(direct, r, id, RankAt(eff, id))
    {
      forall id
        ensures IsBest(direct, r, id, RankAt(eff, id))
      {
        forall a | Grants(direct, r, a, id)
          ensures rank(direct[a]) <= RankAt(eff, id)
        {
          var n: nat :| Steps(r, n, a, id);
          RankGrows(r, eff, n, a, id);
        }
        if RankAt(eff, id) > 0 {
          assert Granted(direct, r, id, eff[id]);
        }
      }
    }

    lemma {:induction false} RankGrows(r: set<(Id, Id)>, eff: map<Id, L>, n: nat, a: Id, id: Id)
      requires Valid() && NothingForgotten(r, eff, [], {}) && a in eff && Steps(r, n, a, id)
      ensures RankAt(eff, a) <= RankAt(eff, id)
      decreases n
    {
      if n > 0 && RankAt(eff, a) > 0 {
        var z :| (a, z) in r && Steps(r, n - 1, z, id);
        assert !Queued(eff, [], a);
        RankGrows(r, eff, n - 1, z, id);
      }
    }

    // ----- the worklist as a whole -----

    ghost predicate State(direct: map<Id, L>, r: set<(Id, Id)>, eff: map<Id, L>, queue: seq<Item<L>>, busy: set<Id>)
    {
      && SoundLevels(direct, r, eff)
      && SoundQueue(direct, r, eff, queue)
      && NothingForgotten(r, eff, queue, busy)
    }

    lemma Raise(direct: map<Id, L>, r: set<(Id, Id)>, eff: map<Id, L>, queue: seq<Item<L>>, q: Item<L>, c: Id, root: Id)
      requires Valid() && State(direct, r, eff, queue, {q.id}) && SoundItem(direct, r, eff, q)
      requires (q.id, c) in r && rank(q.level) > RankAt(eff, c)
      requires root == q.root || (root == q.id && root in direct)
      ensures State(direct, r, eff[c := q.level], queue + [Item(c, q.level, root)], {q.id})
      ensures SoundItem(direct, r, eff[c := q.level], q)
      ensures Headroom(r, eff[c := q.level]) < Headroom(r, eff)
    {
      var item := Item(c, q.level, root);
      NewItem(direct, r, eff, q, c, root);
      RaiseKeepsQueue(direct, r, eff, queue, item);
      RaiseKeepsLevels(direct, r, eff, c, q.level);
      RaiseForgetsNothing(r, eff, queue, {q.id}, item);
      ItemSurvives(direct, r, eff, q, c, q.level);
      HeadroomShrinks(r, eff, q.id, c, q.level);
    }

    lemma Shift(direct: map<Id, L>, r: set<(Id, Id)>, eff: map<Id, L>, queue: seq<Item<L>>)
      requires queue != [] && State(direct, r, eff, queue, {})
      ensures SoundItem(direct, r, eff, queue[0])
      ensures State(direct, r, eff, queue[1..],
                    if RankAt(eff, queue[0].id) > rank(queue[0].level) then {} else {queue[0].id})
    {
      ShiftForgetsNothing(r, eff, queue);
    }

    /** Once all its children have at least its level, a busy row is handed down. */
    lemma Finish(direct: map<Id, L>, r: set<(Id, Id)>, eff: map<Id, L>, queue: seq<Item<L>>, id: Id, k: nat,
                 children: seq<Id>)
      requires State(direct, r, eff, queue, {id}) && RankAt(eff, id) <= k
      requires forall c :: (id, c) in r ==> c in children
      requires forall j :: 0 <= j < |children| ==> k <= RankAt(eff, children[j])
      ensures State(direct, r, eff, queue, {})
    {
      forall c | (id, c) in r
        ensures RankAt(eff, id) <= RankAt(eff, c)
      {
        var j :| 0 <= j < |children| && children[j] == c;
      }
    }

    /** Handing `q` down, after the first `n` of the rows below it. */
    ghost predicate Handing(direct: map<Id, L>, r: set<(Id, Id)>, eff0: map<Id, L>, queue0: seq<Item<L>>,
                            eff: map<Id, L>, queue: seq<Item<L>>, q: Item<L>, below: seq<Id>, n: nat)
    {
      && n <= |below|
      && State(direct, r, eff, queue, {q.id}) && SoundItem(direct, r, eff, q)
      && RankAt(eff, q.id) <= rank(q.level)
      && (forall j :: 0 <= j < n ==> rank(q.level) <= RankAt(eff, below[j]))
      && ((eff == eff0 && queue == queue0) || Headroom(r, eff) < Headroom(r, eff0))
    }

    lemma HandOne(direct: map<Id, L>, r: set<(Id, Id)>, eff0: map<Id, L>, queue0: seq<Item<L>>,
                  eff: map<Id, L>, queue: seq<Item<L>>, q: Item<L>, below: seq<Id>, n: nat, root: Id)
      requires Valid() && Handing(direct, r, eff0, queue0, eff, queue, q, below, n) && n < |below|
      requires (q.id, below[n]) in r
      requires root == q.root || (root == q.id && root in direct)
      ensures if rank(q.level) > RankAt(eff, below[n])
        then Handing(direct, r, eff0, queue0, eff[below[n] := q.level],
                     queue + [Item(below[n], q.level, root)], q, below, n + 1)
        else Handing(direct, r, eff0, queue0, eff, queue, q, below, n + 1)
    {
      if rank(q.level) > RankAt(eff, below[n]) {
        Raise(direct, r, eff, queue, q, below[n], root);
        var eff' := eff[below[n] := q.level];
        forall j | 0 <= j < n + 1
          ensures rank(q.level) <= RankAt(eff', below[j])
        {
          assert below[j] == below[n] || RankAt(eff', below[j]) == RankAt(eff, below[j]);
        }
      }
    }

    /** What `inherited` says about every row: the strongest rank granted at or above it, spelled as one
        of those grants, for exactly the rows that are granted directly or reached with a ranked level. */
    ghost predicate Propagated(direct: map<Id, L>, r: set<(Id, Id)>, inherited: map<Id, L>)
    {
      && (forall id :: IsBest(direct, r, id, RankAt(inherited, id)))
      && (forall id {:trigger Granted(direct, r, id, inherited[id])} ::
            id in inherited ==> Granted(direct, r, id, inherited[id]))
      && (forall id :: id in inherited <==> id in direct || RankAt(inherited, id) > 0)
    }

    /** Grants that reach only the rows they name, laid over the inherited ones. */
    function Overlay(inherited: map<Id, L>, nonInheriting: map<Id, L>): map<Id, L>
    {
      map id | id in inherited.Keys + nonInheriting.Keys ::
        if id in nonInheriting then Strongest(At(inherited, id), nonInheriting[id]) else inherited[id]
    }
  }

  /** `effectiveGrants`, for a map of direct grants read in any order. */
  method EffectiveGrants<L(!new)>(scale: Scale<L>, direct: map<Id, L>, edges: seq<Edge>, nonInheriting: map<Id, L>)
    returns (effective: map<Id, L>, ghost inherited: map<Id, L>)
    requires scale.Valid()
    ensures scale.Propagated(direct, Down(edges), inherited)
    ensures effective == scale.Overlay(inherited, nonInheriting)
    ensures forall id :: id !in nonInheriting ==>
      && scale.IsBest(direct, Down(edges), id, scale.RankAt(effective, id))
      && (id in effective <==> id in direct || scale.RankAt(effective, id) > 0)
    ensures forall id :: id in nonInheriting ==>
      && id in effective && scale.rank(effective[id]) >= scale.rank(nonInheriting[id])
      && scale.rank(effective[id]) in {scale.rank(nonInheriting[id]), scale.RankAt(inherited, id)}
      && (id in inherited ==> scale.rank(effective[id]) >= scale.rank(inherited[id]))
  {
    var children := BuildIndex(edges, ToChildren);
    var queue: seq<Item<L>>;
    effective, queue := Seed(scale, direct, Down(edges));
    while |queue| > 0
      invariant scale.State(direct, Down(edges), effective, queue, {})
      decreases scale.Headroom(Down(edges), effective), |queue|
    {
      var q := queue[0];
      scale.Shift(direct, Down(edges), effective, queue);
      queue := queue[1..];
      if scale.RankAt(effective, q.id) > scale.rank(q.level) { continue; }
      effective, queue := HandDown(scale, direct, edges, children, q, effective, queue);
    }
    scale.EmptyQueueIsBest(direct, Down(edges), effective);
    inherited := effective;
    effective := LayOver(scale, effective, nonInheriting);
    forall id | id !in nonInheriting
      ensures scale.IsBest(direct, Down(edges), id, scale.RankAt(effective, id))
      ensures id in effective <==> id in direct || scale.RankAt(effective, id) > 0
    {
      assert scale.RankAt(effective, id) == scale.RankAt(inherited, id);
    }
  }

  /** One item of the work queue: its level is handed to every child that has less. */
  method HandDown<L(!new)>(scale: Scale<L>, ghost direct: map<Id, L>, edges: seq<Edge>, children: map<Id, seq<Id>>,
                           q: Item<L>, effective0: map<Id, L>, queue0: seq<Item<L>>)
    returns (effective: map<Id, L>, queue: seq<Item<L>>)
    requires scale.Valid() && Indexes(children, edges, ToChildren)
    requires scale.State(direct, Down(edges), effective0, queue0, {q.id})
    requires scale.SoundItem(direct, Down(edges), effective0, q)
    requires scale.RankAt(effective0, q.id) <= scale.rank(q.level)
    ensures scale.State(direct, Down(edges), effective, queue, {})
    ensures (effective == effective0 && queue == queue0)
      || scale.Headroom(Down(edges), effective) < scale.Headroom(Down(edges), effective0)
  {
    effective, queue := effective0, queue0;
    IndexedArrows(children, edges, ToChildren, q.id);
    var below := Lookup(children, q.id);
    for n := 0 to |below|
      invariant scale.Handing(direct, Down(edges), effective0, queue0, effective, queue, q, below, n)
    {
      var child := below[n];
      assert (q.id, child) in Down(edges);
      scale.HandOne(direct, Down(edges), effective0, queue0, effective, queue, q, below, n, q.root);
      var current := scale.At(effective, child);
      var next := scale.Strongest(current, q.level);
      if scale.rank(next) > scale.rank(current) {
        effective := effective[child := next];
        queue := queue + [Item(child, next, q.root)];
      }
    }
    scale.Finish(direct, Down(edges), effective, queue, q.id, scale.rank(q.level), below);
  }

  method LayOver<L(!new)>(scale: Scale<L>, inherited: map<Id, L>, nonInheriting: map<Id, L>)
    returns (effective: map<Id, L>)
    ensures effective == scale.Overlay(inherited, nonInheriting)
  {
    effective := inherited;
    var rest := nonInheriting.Keys;
    while rest != {}
      invariant rest <= nonInheriting.Keys
      invariant effective == scale.Overlay(inherited, nonInheriting - rest)
      decreases rest
    {
      var id :| id in rest;
      effective := effective[id := scale.Strongest(scale.At(effective, id), nonInheriting[id])];
      rest := rest - {id};
    }
    assert nonInheriting - rest == nonInheriting;
  }

  ghost predicate HasItem<L>(queue: seq<Item<L>>, id: Id, l: L)
  {
    Item(id, l, id) in queue
  }

  /** Every direct grant starts out recorded and queued. */
  method Seed<L(!new)>(scale: Scale<L>, direct: map<Id, L>, ghost r: set<(Id, Id)>)
    returns (effective: map<Id, L>, queue: seq<Item<L>>)
    ensures effective == direct && scale.State(direct, r, effective, queue, {})
  {
    effective, queue := map[], [];
    var rest := direct.Keys;
    while rest != {}
      invariant rest <= direct.Keys && effective == direct - rest
      invariant forall i :: 0 <= i < |queue| ==>
        queue[i].id in effective && queue[i] == Item(queue[i].id, direct[queue[i].id], queue[i].id)
      invariant forall id :: id in effective ==> HasItem(queue, id, effective[id])
      decreases rest
    {
      var id :| id in rest;
      effective := effective[id := direct[id]];
      queue := queue + [Item(id, direct[id], id)];
      rest := rest - {id};
    }
    assert effective == direct;
    SeedIsSound(scale, direct, r, queue);
  }

  lemma SeedIsSound<L(!new)>(scale: Scale<L>, direct: map<Id, L>, r: set<(Id, Id)>, queue: seq<Item<L>>)
    requires forall i :: 0 <= i < |queue| ==>
      queue[i].id in direct && queue[i] == Item(queue[i].id, direct[queue[i].id], queue[i].id)
    requires forall id :: id in direct ==> HasItem(queue, id, direct[id])
    ensures scale.State(direct, r, direct, queue, {})
  {
    forall x | x in direct
      ensures scale.Granted(direct, r, x, direct[x]) && scale.Grants(direct, r, x, x) && scale.Queued(direct, queue, x)
    {
      ReachRefl(r, x);
      assert scale.Grants(direct, r, x, x);
      var i :| 0 <= i < |queue| && queue[i] == Item(x, direct[x], x);
    }
  }

  // ----- where an inherited level came from -----

  datatype Source<L> = Source(level: L, from: Id)

  ghost predicate Sourced<L(!new)>(scale: Scale<L>, direct: map<Id, L>, r: set<(Id, Id)>, level: map<Id, L>,
                                   source: map<Id, Source<L>>)
  {
    && source.Keys == level.Keys - direct.Keys
    && (forall id :: id in source ==> SourceOk(scale, direct, r, level, id, source[id]))
  }

  /** A source tells the level recorded for the row, and names a directly granted row above it. */
  ghost predicate SourceOk<L(!new)>(scale: Scale<L>, direct: map<Id, L>, r: set<(Id, Id)>, level: map<Id, L>,
                                    id: Id, src: Source<L>)
  {
    id in level && src.level == level[id] && scale.Grants(direct, r, src.from, id)
  }

  /** The source's level is the strongest granted at or above the row, and `from` is a directly granted row there. */
  ghost predicate Explains<L(!new)>(scale: Scale<L>, direct: map<Id, L>, r: set<(Id, Id)>, id: Id, src: Source<L>)
  {
    scale.Grants(direct, r, src.from, id) && scale.IsBest(direct, r, id, scale.rank(src.level))
  }

  /** `inheritanceSources`: exactly the rows that are granted nothing directly and inherit a ranked level. */
  method InheritanceSources<L(!new)>(scale: Scale<L>, direct: map<Id, L>, edges: seq<Edge>)
    returns (source: map<Id, Source<L>>, ghost level': map<Id, L>)
    requires scale.Valid()
    ensures scale.Propagated(direct, Down(edges), level')
    ensures Sourced(scale, direct, Down(edges), level', source)
    ensures forall id :: id in source ==> id !in direct && Explains(scale, direct, Down(edges), id, source[id])
    ensures forall id, k: nat :: id !in direct && k > 0 && scale.IsBest(direct, Down(edges), id, k) ==> id in source
  {
    var children := BuildIndex(edges, ToChildren);
    var level, queue := Seed(scale, direct, Down(edges));
    source := map[];
    while |queue| > 0
      invariant scale.State(direct, Down(edges), level, queue, {})
      invariant Sourced(scale, direct, Down(edges), level, source)
      decreases scale.Headroom(Down(edges), level), |queue|
    {
      var q := queue[0];
      scale.Shift(direct, Down(edges), level, queue);
      queue := queue[1..];
      if scale.RankAt(level, q.id) > scale.rank(q.level) { continue; }
      level, queue, source := TraceDown(scale, direct, edges, children, q, level, queue, source);
    }
    scale.EmptyQueueIsBest(direct, Down(edges), level);
    level' := level;
    SourcesAreExact(scale, direct, Down(edges), level', source);
  }

  lemma SourcesAreExact<L(!new)>(scale: Scale<L>, direct: map<Id, L>, r: set<(Id, Id)>, level: map<Id, L>,
                                 source: map<Id, Source<L>>)
    requires scale.Propagated(direct, r, level) && Sourced(scale, direct, r, level, source)
    ensures forall id :: id in source ==> id !in direct && Explains(scale, direct, r, id, source[id])
    ensures forall id, k: nat :: id !in direct && k > 0 && scale.IsBest(direct, r, id, k) ==> id in source
  {
    forall id | id in source
      ensures id !in direct && Explains(scale, direct, r, id, source[id])
    {
      assert SourceOk(scale, direct, r, level, id, source[id]);
      assert scale.RankAt(level, id) == scale.rank(source[id].level);
    }
    forall id, k: nat | id !in direct && k > 0 && scale.IsBest(direct, r, id, k)
      ensures id in source
    {
      scale.BestIsUnique(direct, r, id, k, scale.RankAt(level, id));
    }
  }

  method TraceDown<L(!new)>(scale: Scale<L>, direct: map<Id, L>, edges: seq<Edge>, children: map<Id, seq<Id>>,
                            q: Item<L>, level0: map<Id, L>, queue0: seq<Item<L>>, source0: map<Id, Source<L>>)
    returns (level: map<Id, L>, queue: seq<Item<L>>, source: map<Id, Source<L>>)
    requires scale.Valid() && Indexes(children, edges, ToChildren)
    requires scale.State(direct, Down(edges), level0, queue0, {q.id})
    requires scale.SoundItem(direct, Down(edges), level0, q) && scale.RankAt(level0, q.id) <= scale.rank(q.level)
    requires Sourced(scale, direct, Down(edges), level0, source0)
    ensures scale.State(direct, Down(edges), level, queue, {})
    ensures (level == level0 && queue == queue0)
      || scale.Headroom(Down(edges), level) < scale.Headroom(Down(edges), level0)
    ensures Sourced(scale, direct, Down(edges), level, source)
  {
    level, queue, source := level0, queue0, source0;
    IndexedArrows(children, edges, ToChildren, q.id);
    var below := Lookup(children, q.id);
    var root := if q.id in direct then q.id else q.root;
    for n := 0 to |below|
      invariant scale.Handing(direct, Down(edges), level0, queue0, level, queue, q, below, n)
      invariant Sourced(scale, direct, Down(edges), level, source)
    {
      var child := below[n];
      assert (q.id, child) in Down(edges);
      scale.HandOne(direct, Down(edges), level0, queue0, level, queue, q, below, n, root);
      var next := scale.Strongest(scale.At(level, child), q.level);
      if scale.rank(next) > scale.RankAt(level, child) {
        SourceStep(scale, direct, Down(edges), level, source, q, child);
        level := level[child := next];
        if child !in direct { source := source[child := Source(next, q.root)]; }
        queue := queue + [Item(child, next, root)];
      }
    }
    scale.Finish(direct, Down(edges), level, queue, q.id, scale.rank(q.level), below);
  }

  lemma SourceStep<L(!new)>(scale: Scale<L>, direct: map<Id, L>, r: set<(Id, Id)>, level: map<Id, L>,
                            source: map<Id, Source<L>>, q: Item<L>, child: Id)
    requires Sourced(scale, direct, r, level, source) && scale.SoundItem(direct, r, level, q) && (q.id, child) in r
    ensures Sourced(scale, direct, r, level[child := q.level],
                    if child in direct then source else source[child := Source(q.level, q.root)])
  {
    ReachSnoc(r, q.root, q.id, child);
    var level' := level[child := q.level];
    var source' := if child in direct then source else source[child := Source(q.level, q.root)];
    assert scale.Grants(direct, r, q.root, child);
    forall id | id in source'
      ensures SourceOk(scale, direct, r, level', id, source'[id])
    {
      if id != child || child in direct {
        assert SourceOk(scale, direct, r, level, id, source[id]);
      }
    }
  }

  // ----- properties of propagation -----

  /** A spread of ranks that respects direct grants and never drops from a row to one below it. */
  ghost predicate Spread<L(!new)>(scale: Scale<L>, direct: map<Id, L>, r: set<(Id, Id)>, f: Id -> nat)
  {
    && (forall a :: a in direct ==> scale.rank(direct[a]) <= f(a))
    && (forall x, c :: (x, c) in r ==> f(x) <= f(c))
  }

  lemma {:induction false} SpreadGrows<L(!new)>(scale: Scale<L>, direct: map<Id, L>, r: set<(Id, Id)>, f: Id -> nat,
                                                n: nat, x: Id, y: Id)
    requires Spread(scale, direct, r, f) && Steps(r, n, x, y)
    ensures f(x) <= f(y)
    decreases n
  {
    if n > 0 {
      var z :| (x, z) in r && Steps(r, n - 1, z, y);
      SpreadGrows(scale, direct, r, f, n - 1, z, y);
    }
  }

  lemma PropagationSpreads<L(!new)>(scale: Scale<L>, direct: map<Id, L>, r: set<(Id, Id)>, inherited: map<Id, L>)
    requires scale.Valid() && scale.Propagated(direct, r, inherited)
    ensures Spread(scale, direct, r, id => scale.RankAt(inherited, id))
  {
    forall a | a in direct
      ensures scale.rank(direct[a]) <= scale.RankAt(inherited, a)
    {
      ReachRefl(r, a);
      assert scale.IsBest(direct, r, a, scale.RankAt(inherited, a)) && scale.Grants(direct, r, a, a);
    }
    forall x, c | (x, c) in r
      ensures scale.RankAt(inherited, x) <= scale.RankAt(inherited, c)
    {
      BestNeverDrops(scale, direct, r, x, c, scale.RankAt(inherited, x), scale.RankAt(inherited, c));
    }
  }

  lemma BestNeverDrops<L(!new)>(scale: Scale<L>, direct: map<Id, L>, r: set<(Id, Id)>, x: Id, c: Id, j: nat, k: nat)
    requires (x, c) in r && scale.IsBest(direct, r, x, j) && scale.IsBest(direct, r, c, k)
    ensures j <= k
  {
    if j > 0 {
      var a :| scale.Grants(direct, r, a, x) && scale.rank(direct[a]) == j;
      ReachSnoc(r, a, x, c);
      assert scale.Grants(direct, r, a, c);
    }
  }

  /** Propagation is the least spread: it is one, and it is below every other. */
  lemma PropagationIsLeast<L(!new)>(scale: Scale<L>, direct: map<Id, L>, r: set<(Id, Id)>, inherited: map<Id, L>)
    requires scale.Valid() && scale.Propagated(direct, r, inherited)
    ensures Spread(scale, direct, r, id => scale.RankAt(inherited, id))
    ensures forall f: Id -> nat, id :: Spread(scale, direct, r, f) ==> scale.RankAt(inherited, id) <= f(id)
  {
    PropagationSpreads(scale, direct, r, inherited);
    forall f: Id -> nat, id | Spread(scale, direct, r, f)
      ensures scale.RankAt(inherited, id) <= f(id)
    {
      var k := scale.RankAt(inherited, id);
      assert scale.IsBest(direct, r, id, k);
      if k > 0 {
        var a :| scale.Grants(direct, r, a, id) && scale.rank(direct[a]) == k;
        var n: nat :| Steps(r, n, a, id);
        SpreadGrows(scale, direct, r, f, n, a, id);
      }
    }
  }

  /** The two worklists agree: the same rows, at the same ranks. */
  lemma PropagationIsUnique<L(!new)>(scale: Scale<L>, direct: map<Id, L>, r: set<(Id, Id)>, m: map<Id, L>,
                                     m': map<Id, L>)
    requires scale.Propagated(direct, r, m) && scale.Propagated(direct, r, m')
    ensures m.Keys == m'.Keys && forall id :: scale.RankAt(m, id) == scale.RankAt(m', id)
  {
    forall id
      ensures scale.RankAt(m, id) == scale.RankAt(m', id)
    {
      scale.BestIsUnique(direct, r, id, scale.RankAt(m, id), scale.RankAt(m', id));
    }
    assert forall id :: id in m <==> id in m';
  }
}
