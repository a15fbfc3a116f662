/** `_aggregate_hierarchy` of the geocoding service: the places are regrouped
    by parent, groups in the order their parent first appears and places in
    input order within a group.  The collapse of complete groups into their
    parent is not implemented by the code, so nothing is added or dropped. */
module Aggregation {
  import opened Wrappers
  import opened Places

  /** No value occurs twice. */
  ghost predicate Distinct<T>(s: seq<T>) {
    forall i, j :: 0 <= i < j < |s| ==> s[i] != s[j]
  }

  /** The keys of `by_parent` in insertion order: the distinct `parent_id`
      values, in order of first appearance. */
  function ParentOrder(places: seq<Row>): (ps: seq<Option<string>>)
    ensures Distinct(ps)
    ensures forall i :: 0 <= i < |places| ==> places[i].parentId in ps
  {
    if |places| == 0 then []
    else
      var ps := ParentOrder(places[..|places| - 1]);
      var p := places[|places| - 1].parentId;
      assert forall i :: 0 <= i < |places| - 1 ==> places[..|places| - 1][i] == places[i];
      if p in ps then ps else ps + [p]
  }

  /** `by_parent[p]`: the places with parent `p`, in input order. */
  function Group(places: seq<Row>, p: Option<string>): (g: seq<Row>)
    ensures forall x :: x in g ==> x.parentId == p
  {
    if |places| == 0 then []
    else Group(places[..|places| - 1], p) + (if places[|places| - 1].parentId == p then [places[|places| - 1]] else [])
  }

  /** The groups of the parents `ps`, one after another. */
  function ConcatGroups(places: seq<Row>, ps: seq<Option<string>>): seq<Row> {
    if |ps| == 0 then [] else ConcatGroups(places, ps[..|ps| - 1]) + Group(places, ps[|ps| - 1])
  }

  /** The regrouped list the aggregation returns when no place lacks an id. */
  function Grouped(places: seq<Row>): seq<Row> {
    ConcatGroups(places, ParentOrder(places))
  }

  /** Some place has no `id`, so building `place_lookup` raises. */
  predicate MissingId(places: seq<Row>) {
    exists i :: 0 <= i < |places| && places[i].id.None?
  }

  /** `_aggregate_hierarchy`: no places give none; a place without an `id`
      raises `KeyError('id')`; otherwise the places regrouped by parent. */
  function Aggregated(places: seq<Row>): (r: Try<seq<Row>>)
    ensures places == [] ==> r == Ok([])
    ensures places != [] ==> (r.Raised? <==> MissingId(places))
    ensures r.Raised? ==> r.message == KeyErrorText("id")
  {
    if places == [] then Ok([])
    else if MissingId(places) then Raised(KeyErrorText("id"))
    else Ok(Grouped(places))
  }

  // -------------------------------------------------------------------------
  // Nothing is added or dropped

  /** A parent that no place has has an empty group. */
  lemma {:induction false} GroupAbsent(places: seq<Row>, p: Option<string>)
    requires forall i :: 0 <= i < |places| ==> places[i].parentId != p
    ensures Group(places, p) == []
  {
    if |places| > 0 {
      GroupAbsent(places[..|places| - 1], p);
    }
  }

  /** With no places every group is empty. */
  lemma {:induction false} ConcatGroupsEmpty(ps: seq<Option<string>>)
    ensures ConcatGroups([], ps) == []
  {
    if |ps| > 0 {
      ConcatGroupsEmpty(ps[..|ps| - 1]);
    }
  }

  /** One more place lands in the group of its parent, once, when its parent
      is among the distinct parents `ps`. */
  lemma {:induction false} ConcatGroupsSnoc(places: seq<Row>, x: Row, ps: seq<Option<string>>)
    requires Distinct(ps)
    ensures multiset(ConcatGroups(places + [x], ps))
         == multiset(ConcatGroups(places, ps)) + (if x.parentId in ps then multiset{x} else multiset{})
  {
    if |ps| > 0 {
      var init := ps[..|ps| - 1];
      var q := ps[|ps| - 1];
      assert Distinct(init);
      assert q !in init;
      ConcatGroupsSnoc(places, x, init);
      var s' := places + [x];
      assert s'[..|s'| - 1] == places;
      var g := Group(places, q);
      var g' := Group(s', q);
      assert g' == g + (if x.parentId == q then [x] else []);
      assert ConcatGroups(s', ps) == ConcatGroups(s', init) + g';
      assert ConcatGroups(places, ps) == ConcatGroups(places, init) + g;
      if x.parentId == q {
        assert multiset(g') == multiset(g) + multiset{x};
        assert x.parentId !in init;
      } else {
        assert g' == g;
        assert x.parentId in ps <==> x.parentId in init;
      }
    }
  }

  /** Listing the groups of distinct parents that cover every place lists
      every place exactly once. */
  lemma {:induction false} ConcatGroupsPermutes(places: seq<Row>, ps: seq<Option<string>>)
    requires Distinct(ps)
    requires forall i :: 0 <= i < |places| ==> places[i].parentId in ps
    ensures multiset(ConcatGroups(places, ps)) == multiset(places)
  {
    if |places| == 0 {
      ConcatGroupsEmpty(ps);
    } else {
      var init := places[..|places| - 1];
      var x := places[|places| - 1];
      assert forall i :: 0 <= i < |init| ==> init[i] == places[i];
      ConcatGroupsPermutes(init, ps);
      assert init + [x] == places;
      ConcatGroupsSnoc(init, x, ps);
    }
  }

  /** The aggregation returns a permutation of its input. */
  lemma AggregatePermutes(places: seq<Row>)
    ensures multiset(Grouped(places)) == multiset(places)
  {
    ConcatGroupsPermutes(places, ParentOrder(places));
  }

  // -------------------------------------------------------------------------
  // Groups and their order

  /** Each parent of the order has at least one place. */
  lemma {:induction false} ParentHasGroup(places: seq<Row>, p: Option<string>)
    requires p in ParentOrder(places)
    ensures |Group(places, p)| > 0
  {
    var init := places[..|places| - 1];
    if p in ParentOrder(init) {
      ParentHasGroup(init, p);
    }
  }

  /** Regrouping distributes over concatenation. */
  lemma {:induction false} GroupAppend(a: seq<Row>, b: seq<Row>, p: Option<string>)
    ensures Group(a + b, p) == Group(a, p) + Group(b, p)
  {
    if |b| == 0 {
      assert a + b == a;
    } else {
      GroupAppend(a, b[..|b| - 1], p);
      assert (a + b)[..|a + b| - 1] == a + b[..|b| - 1];
    }
  }

  /** A list all of whose places have parent `q` is its own group for `q`
      and has an empty group for any other parent. */
  lemma GroupOfGroup(g: seq<Row>, q: Option<string>, p: Option<string>)
    requires forall x :: x in g ==> x.parentId == q
    ensures Group(g, p) == if p == q then g else []
  {
    assert forall i :: 0 <= i < |g| ==> g[i] in g;
    GroupOfRun(g, q, p);
  }

  lemma {:induction false} GroupOfRun(g: seq<Row>, q: Option<string>, p: Option<string>)
    requires forall i :: 0 <= i < |g| ==> g[i].parentId == q
    ensures Group(g, p) == if p == q then g else []
  {
    if |g| > 0 {
      var init := g[..|g| - 1];
      assert forall i :: 0 <= i < |init| ==> init[i].parentId == q by {
        assert forall i :: 0 <= i < |init| ==> init[i] == g[i];
      }
      GroupOfRun(init, q, p);
      if p == q {
        assert init + [g[|g| - 1]] == g;
      }
    }
  }

  /** In the concatenated groups of distinct parents, the group of `p` is the
      original group of `p` when `p` is listed, and empty otherwise. */
  lemma {:induction false} GroupOfConcat(places: seq<Row>, ps: seq<Option<string>>, p: Option<string>)
    requires Distinct(ps)
    ensures Group(ConcatGroups(places, ps), p) == if p in ps then Group(places, p) else []
  {
    if |ps| == 0 {
    } else {
      var init := ps[..|ps| - 1];
      var q := ps[|ps| - 1];
      assert Distinct(init);
      GroupOfConcat(places, init, p);
      GroupAppend(ConcatGroups(places, init), Group(places, q), p);
      GroupOfGroup(Group(places, q), q, p);
      assert p in ps <==> p in init || p == q;
    }
  }

  /** Appending a non-empty run of places with parent `q` adds `q` at the end
      of the parent order unless it is there already. */
  lemma {:induction false} ParentOrderAppendGroup(a: seq<Row>, g: seq<Row>, q: Option<string>)
    requires |g| > 0 && forall x :: x in g ==> x.parentId == q
    ensures ParentOrder(a + g) == if q in ParentOrder(a) then ParentOrder(a) else ParentOrder(a) + [q]
  {
    var n := |g|;
    assert (a + g)[..|a + g| - 1] == a + g[..n - 1];
    assert g[n - 1] in g;
    if n > 1 {
      assert forall x :: x in g[..n - 1] ==> x in g;
      ParentOrderAppendGroup(a, g[..n - 1], q);
    } else {
      assert a + g[..n - 1] == a;
    }
  }

  /** The parent order of the concatenated groups of distinct parents, each
      with a non-empty group, is those parents. */
  lemma {:induction false} ParentOrderOfConcat(places: seq<Row>, ps: seq<Option<string>>)
    requires Distinct(ps)
    requires forall p :: p in ps ==> |Group(places, p)| > 0
    ensures ParentOrder(ConcatGroups(places, ps)) == ps
  {
    if |ps| > 0 {
      var init := ps[..|ps| - 1];
      var q := ps[|ps| - 1];
      assert Distinct(init);
      assert forall p :: p in init ==> p in ps;
      ParentOrderOfConcat(places, init);
      assert q !in init;
      ParentOrderAppendGroup(ConcatGroups(places, init), Group(places, q), q);
      assert init + [q] == ps;
    }
  }

  /** After regrouping, the groups come in order of first appearance of
      their parent and each group holds exactly the places of that parent,
      in input order. */
  lemma GroupedStructure(places: seq<Row>)
    ensures ParentOrder(Grouped(places)) == ParentOrder(places)
    ensures forall p :: Group(Grouped(places), p) == Group(places, p)
  {
    var ps := ParentOrder(places);
    forall p | p in ps ensures |Group(places, p)| > 0 {
      ParentHasGroup(places, p);
    }
    ParentOrderOfConcat(places, ps);
    forall p ensures Group(Grouped(places), p) == Group(places, p) {
      GroupOfConcat(places, ps, p);
      if p !in ps {
        GroupAbsent(places, p);
      }
    }
  }

  /** Two lists with the same groups give the same concatenation. */
  lemma {:induction false} ConcatSameGroups(a: seq<Row>, b: seq<Row>, ps: seq<Option<string>>)
    requires forall p :: Group(a, p) == Group(b, p)
    ensures ConcatGroups(a, ps) == ConcatGroups(b, ps)
  {
    if |ps| > 0 {
      ConcatSameGroups(a, b, ps[..|ps| - 1]);
    }
  }

  /** Regrouping an already regrouped list changes nothing. */
  lemma GroupedIdempotent(places: seq<Row>)
    ensures Grouped(Grouped(places)) == Grouped(places)
  {
    GroupedStructure(places);
    ConcatSameGroups(Grouped(places), places, ParentOrder(places));
  }

  // -------------------------------------------------------------------------
  // The loops of the source

  /** The first loop of `_aggregate_hierarchy`: `by_parent` filled place by
      place, with its keys in insertion order. */
  method GroupByParent(places: seq<Row>) returns (order: seq<Option<string>>, byParent: map<Option<string>, seq<Row>>)
    ensures order == ParentOrder(places)
    ensures forall p :: p in byParent <==> p in order
    ensures forall p :: p in byParent ==> byParent[p] == Group(places, p)
  {
    order := [];
    byParent := map[];
    for i := 0 to |places|
      invariant order == ParentOrder(places[..i])
      invariant forall p :: p in byParent <==> p in order
      invariant forall p :: p in byParent ==> byParent[p] == Group(places[..i], p)
    {
      assert places[..i + 1][..i] == places[..i];
      var p := places[i].parentId;
      if p !in byParent {
        GroupAbsent(places[..i], p);
        order := order + [p];
        byParent := byParent[p := []];
      }
      byParent := byParent[p := byParent[p] + [places[i]]];
    }
    assert places[..|places|] == places;
  }

  /** The last loop of `_aggregate_hierarchy`: the groups of `order`, taken
      from `by_parent`, one after another. */
  method ExtendByGroups(places: seq<Row>, order: seq<Option<string>>, byParent: map<Option<string>, seq<Row>>)
    returns (aggregated: seq<Row>)
    requires forall p :: p in order ==> p in byParent && byParent[p] == Group(places, p)
    ensures aggregated == ConcatGroups(places, order)
  {
    aggregated := [];
    for j := 0 to |order|
      invariant aggregated == ConcatGroups(places, order[..j])
    {
      assert order[..j + 1][..j] == order[..j];
      assert order[j] in order;
      aggregated := aggregated + byParent[order[j]];
    }
    assert order[..|order|] == order;
  }

  /** Building `place_lookup` succeeds exactly when every place has an `id`. */
  method AllHaveIds(places: seq<Row>) returns (complete: bool)
    ensures complete <==> !MissingId(places)
  {
    for i := 0 to |places|
      invariant forall j :: 0 <= j < i ==> places[j].id.Some?
    {
      if places[i].id.None? {
        return false;
      }
    }
    return true;
  }

  /** `_aggregate_hierarchy`: fill `by_parent`, build `place_lookup` (which
      needs every `id`), then extend the result group by group. */
  method AggregateHierarchy(places: seq<Row>) returns (r: Try<seq<Row>>)
    ensures r == Aggregated(places)
  {
    if |places| == 0 {
      return Ok([]);
    }
    var order, byParent := GroupByParent(places);
    var complete := AllHaveIds(places);
    if !complete {
      return Raised(KeyErrorText("id"));
    }
    var aggregated := ExtendByGroups(places, order, byParent);
    return Ok(aggregated);
  }
}
