/** What a project's memory holds: a list of records that name each other by id. */
module MemoryHistory {
  import opened Outcomes
  import opened Digraph
  import opened Ordering
  import opened TopologicalOrder

  /** The part of a record that its deterministic id is computed from. `data` is the
      redacted and bounded payload as stable JSON. */
  datatype Body = Body(projectId: string, kind: string, data: string, supersedes: Option<string>, related: seq<string>)

  datatype Record = Record(recordId: string, body: Body, createdBy: Option<string>, createdAt: int, preserve: bool)

  /** Every id a record names: the one it supersedes, then the related ones. */
  function References(body: Body): seq<string> {
    (if body.supersedes.Some? then [body.supersedes.value] else []) + body.related
  }

  ghost predicate DistinctIds(h: seq<Record>) {
    forall i, j :: 0 <= i < j < |h| ==> h[i].recordId != h[j].recordId
  }

  /** Some record has this id. */
  predicate Named(h: seq<Record>, id: string) {
    exists i :: 0 <= i < |h| && h[i].recordId == id
  }

  /** Some record before the `i`th has this id. */
  ghost predicate NamedBefore(h: seq<Record>, i: nat, id: string) {
    exists j :: 0 <= j < i && j < |h| && h[j].recordId == id
  }

  /** Every record names only records that were there before it. */
  ghost predicate Grounded(h: seq<Record>) {
    forall i, ref :: 0 <= i < |h| && ref in References(h[i].body) ==> NamedBefore(h, i, ref)
  }

  /** A consistent history of one project. */
  ghost predicate Sound(h: seq<Record>, ids: Body -> string) {
    && DistinctIds(h)
    && Grounded(h)
    && forall i :: 0 <= i < |h| ==> h[i].recordId == ids(h[i].body)
  }

  lemma GroundedAppend(h: seq<Record>, r: Record)
    requires DistinctIds(h) && Grounded(h) && !Named(h, r.recordId)
    requires forall ref :: ref in References(r.body) ==> Named(h, ref)
    ensures DistinctIds(h + [r]) && Grounded(h + [r])
  {
    var longer := h + [r];
    forall i, ref | 0 <= i < |longer| && ref in References(longer[i].body) ensures NamedBefore(longer, i, ref) {
      if i < |h| {
        assert NamedBefore(h, i, ref);
        var j :| 0 <= j < i && j < |h| && h[j].recordId == ref;
        assert longer[j].recordId == ref;
      } else {
        assert Named(h, ref);
        var j :| 0 <= j < |h| && h[j].recordId == ref;
        assert longer[j].recordId == ref;
      }
    }
  }

  /** The position of the record with an id. */
  ghost function PositionOf(h: seq<Record>, id: string): (i: nat)
    requires Named(h, id)
    ensures i < |h| && h[i].recordId == id
  {
    var i :| 0 <= i < |h| && h[i].recordId == id;
    i
  }

  // ----- the references have no cycle -----

  /** Each record id with the ids it names. */
  ghost function ReferenceGraph(h: seq<Record>): Graph
    requires DistinctIds(h)
  {
    map i | 0 <= i < |h| :: h[i].recordId := References(h[i].body)
  }

  ghost function IdsOf(h: seq<Record>): (s: seq<string>)
    ensures |s| == |h| && forall i :: 0 <= i < |h| ==> s[i] == h[i].recordId
  {
    seq(|h|, i requires 0 <= i < |h| => h[i].recordId)
  }

  /** The order of appending is a dependency order, so the references have no cycle and
      all name records. */
  lemma ReferencesAcyclic(h: seq<Record>)
    requires DistinctIds(h) && Grounded(h)
    ensures !Cyclic(ReferenceGraph(h))
    ensures DependenciesKnown(ReferenceGraph(h))
  {
    var g, order := ReferenceGraph(h), IdsOf(h);
    forall i | 0 <= i < |order| ensures Satisfied(g, order[..i], order[i]) {
      assert g[order[i]] == References(h[i].body);
      forall d | d in g[order[i]] ensures d in order[..i] {
        assert NamedBefore(h, i, d);
        var j :| 0 <= j < i && j < |h| && h[j].recordId == d;
        assert order[..i][j] == d;
      }
    }
    forall n | n in g ensures n in order {
      var i :| 0 <= i < |h| && h[i].recordId == n;
      assert order[i] == n;
    }
    CompleteMeansAcyclic(g, order);
  }

  // ----- the chain of superseded records -----

  lemma EarlierPosition(h: seq<Record>, i: nat, id: string)
    requires DistinctIds(h) && i < |h| && NamedBefore(h, i, id)
    ensures Named(h, id) && PositionOf(h, id) < i
  {
    var j :| 0 <= j < i && j < |h| && h[j].recordId == id;
    assert Named(h, id);
  }

  /** The `i`th record, the record it supersedes, and so on. */
  ghost function Chain(h: seq<Record>, i: nat): (c: seq<string>)
    requires DistinctIds(h) && Grounded(h) && i < |h|
    ensures c != [] && c[0] == h[i].recordId
    decreases i
  {
    var supersedes := h[i].body.supersedes;
    if supersedes.None? then [h[i].recordId]
    else
      assert supersedes.value == References(h[i].body)[0];
      EarlierPosition(h, i, supersedes.value);
      [h[i].recordId] + Chain(h, PositionOf(h, supersedes.value))
  }

  /** The chain upwards from an id; empty when no record has the id. */
  ghost function ChainFrom(h: seq<Record>, id: string): seq<string>
    requires DistinctIds(h) && Grounded(h)
  {
    if Named(h, id) then Chain(h, PositionOf(h, id)) else []
  }

  lemma {:induction false} ChainDescends(h: seq<Record>, i: nat)
    requires DistinctIds(h) && Grounded(h) && i < |h|
    ensures Distinct(Chain(h, i))
    ensures forall id :: id in Chain(h, i) ==> Named(h, id) && PositionOf(h, id) <= i
    decreases i
  {
    var supersedes := h[i].body.supersedes;
    assert Named(h, h[i].recordId);
    if supersedes.Some? {
      assert supersedes.value == References(h[i].body)[0];
      EarlierPosition(h, i, supersedes.value);
      ChainDescends(h, PositionOf(h, supersedes.value));
    }
  }

  // ----- sorted(set(...)) -----

  function Unrepeated(names: seq<string>): (r: seq<string>)
    ensures Distinct(r)
    ensures forall n :: n in r <==> n in names
  {
    if names == [] then []
    else
      var rest, last := Unrepeated(names[..|names| - 1]), names[|names| - 1];
      assert names == names[..|names| - 1] + [last];
      if last in rest then rest else rest + [last]
  }

  /** `sorted(set(names))` */
  function SortedSet(names: seq<string>): seq<string> {
    SortBy(LexLess, Unrepeated(names))
  }

  /** Only which names there are matters, not their order or repetition. */
  lemma SortedSetIgnoresOrder(a: seq<string>, b: seq<string>)
    requires forall n :: n in a <==> n in b
    ensures SortedSet(a) == SortedSet(b)
    ensures forall n :: n in SortedSet(a) <==> n in a
  {
    var x, y := Unrepeated(a), Unrepeated(b);
    assert Elements(x) == Elements(y) by {
      forall n ensures n in Elements(x) <==> n in Elements(y) {
        assert n in x <==> n in y;
      }
    }
    SameElementsPermute(x, y);
    LexIsKeyOrder(Elements(x));
    LexIsKeyOrder(Elements(y));
    SortBySorted(LexLess, x);
    SortBySorted(LexLess, y);
    SortedUnique(SortedSet(a), SortedSet(b));
    MultisetElements(SortedSet(a), x);
  }
}
