/** Directed graphs over string vertex ids and the topological sort that orders them.
    The sort is Kahn's algorithm: repeatedly emit the first remaining vertex that no
    remaining vertex points to; if none is left to emit while vertices remain, the
    remaining vertices contain a cycle, and one is extracted as evidence. */
module Graph {
  import opened Wrappers
  import opened Seqs

  /** A directed edge `from -> to`: the tuple `[from, to]` handed to the sorter. */
  datatype Edge = Edge(from: string, to: string)

  /** The sort failed: `cycle` is a closed walk along the edges (first vertex == last). */
  datatype CycleError = CycleError(cycle: seq<string>)

  /** Every consecutive pair of `p` is joined by an edge of `es`. */
  predicate IsPath(es: seq<Edge>, p: seq<string>) {
    forall k :: 0 <= k < |p| - 1 ==> Edge(p[k], p[k + 1]) in es
  }

  /** A non-empty closed walk: it returns to the vertex it started from. A self-edge
      `v -> v` is the cycle `[v, v]`. */
  predicate IsCycle(es: seq<Edge>, c: seq<string>) {
    |c| >= 2 && c[0] == c[|c| - 1] && IsPath(es, c)
  }

  /** The endpoints of the edges, in order, `from` before `to`. */
  function Endpoints(es: seq<Edge>): (r: seq<string>)
    ensures forall e :: e in es ==> e.from in r && e.to in r
  {
    if es == [] then [] else [es[0].from, es[0].to] + Endpoints(es[1..])
  }

  /** No remaining vertex has an edge into `v`. */
  predicate Ready(v: string, rem: seq<string>, es: seq<Edge>) {
    forall e :: e in es && e.to == v ==> e.from !in rem
  }

  /** The position of the first vertex at or after `i` that is ready. */
  function FirstReady(rem: seq<string>, es: seq<Edge>, i: nat): (r: Option<nat>)
    requires i <= |rem|
    ensures r.Some? ==> i <= r.value < |rem| && Ready(rem[r.value], rem, es)
    ensures r.Some? ==> forall k :: i <= k < r.value ==> !Ready(rem[k], rem, es)
    ensures r.None? ==> forall k :: i <= k < |rem| ==> !Ready(rem[k], rem, es)
    decreases |rem| - i
  {
    if i == |rem| then None
    else if Ready(rem[i], rem, es) then Some(i)
    else FirstReady(rem, es, i + 1)
  }

  /** `rem` with the element at position `i` removed. */
  function Without(rem: seq<string>, i: nat): (r: seq<string>)
    requires i < |rem|
    ensures |r| == |rem| - 1
    ensures forall x :: x in rem <==> x == rem[i] || x in r
  {
    var r := rem[..i] + rem[i + 1..];
    assert forall x :: x in rem ==> x == rem[i] || x in r by {
      forall x | x in rem && x != rem[i]
        ensures x in r
      {
        var k := IndexOf(rem, x);
        if k < i { assert r[k] == x; } else { assert r[k - 1] == x; }
      }
    }
    r
  }

  /** A vertex of `rem` with an edge into `v`; one exists since `v` is not ready. */
  function PredIn(v: string, rem: seq<string>, es: seq<Edge>): (u: string)
    requires !Ready(v, rem, es)
    ensures u in rem && Edge(u, v) in es
  {
    if es[0].to == v && es[0].from in rem then es[0].from
    else
      assert !Ready(v, rem, es[1..]) by {
        var e :| e in es && e.to == v && e.from in rem;
        assert e != es[0];
      }
      PredIn(v, rem, es[1..])
  }

  /** No remaining vertex is ready: every one has an edge into it from a remaining vertex. */
  predicate Stuck(rem: seq<string>, es: seq<Edge>) {
    forall v :: v in rem ==> !Ready(v, rem, es)
  }

  /** Extends the path backwards, one predecessor at a time, until a vertex repeats;
      the repeated stretch is a cycle. `path` lists distinct vertices already walked. */
  function WalkBack(rem: seq<string>, es: seq<Edge>, path: seq<string>): (c: seq<string>)
    requires Stuck(rem, es)
    requires path != [] && NoDups(path) && IsPath(es, path)
    requires forall x :: x in path ==> x in rem
    ensures IsCycle(es, c)
    ensures forall x :: x in c ==> x in rem
    decreases |rem| - |path|
  {
    var u := PredIn(path[0], rem, es);
    if u in path then
      [u] + path[..IndexOf(path, u) + 1]
    else
      DistinctWithinIsShorter([u] + path, rem);
      WalkBack(rem, es, [u] + path)
  }

  /** Kahn's algorithm over the vertex list `rem`. Ties go to the earliest vertex of `rem`. */
  function Kahn(rem: seq<string>, es: seq<Edge>): (r: Result<seq<string>, CycleError>)
    ensures r.Success? ==> |r.value| == |rem|
    ensures r.Success? ==> forall x :: x in r.value <==> x in rem
    ensures r.Failure? ==> IsCycle(es, r.error.cycle)
    ensures r.Failure? ==> forall x :: x in r.error.cycle ==> x in rem
    decreases |rem|
  {
    if rem == [] then Success([])
    else
      match FirstReady(rem, es, 0)
      case None => Failure(CycleError(WalkBack(rem, es, [rem[0]])))
      case Some(i) =>
        match Kahn(Without(rem, i), es)
        case Success(rest) => Success([rem[i]] + rest)
        case Failure(err) => Failure(err)
  }

  /** Removing one position from a duplicate-free list removes exactly that element. */
  lemma {:induction false} WithoutDistinct(rem: seq<string>, i: nat)
    requires i < |rem| && NoDups(rem)
    ensures NoDups(Without(rem, i))
    ensures rem[i] !in Without(rem, i)
  {
    var r := Without(rem, i);
    assert r == rem[..i] + rem[i + 1..];
    forall a, b | 0 <= a < b < |r|
      ensures r[a] != r[b]
    {
      var a' := if a < i then a else a + 1;
      var b' := if b < i then b else b + 1;
      assert r[a] == rem[a'] && r[b] == rem[b'];
    }
  }

  /** On a duplicate-free vertex list a successful sort lists every vertex exactly once. */
  lemma {:induction false} KahnDistinct(rem: seq<string>, es: seq<Edge>)
    requires NoDups(rem)
    requires Kahn(rem, es).Success?
    ensures NoDups(Kahn(rem, es).value)
    ensures multiset(Kahn(rem, es).value) == multiset(rem)
    decreases |rem|
  {
    var out := Kahn(rem, es).value;
    if rem != [] {
      var i := FirstReady(rem, es, 0).value;
      var rest' := Without(rem, i);
      WithoutDistinct(rem, i);
      KahnDistinct(rest', es);
      var rest := Kahn(rest', es).value;
      assert out == [rem[i]] + rest;
      assert rem[i] !in rest;
    }
    DistinctSameElementsArePermutations(out, rem);
  }

  /** A successful sort puts the source of every edge between listed vertices before its target. */
  lemma {:induction false} KahnRespectsEdges(rem: seq<string>, es: seq<Edge>, e: Edge)
    requires Kahn(rem, es).Success?
    requires e in es && e.from in rem && e.to in rem
    ensures Before(Kahn(rem, es).value, e.from, e.to)
    decreases |rem|
  {
    var out := Kahn(rem, es).value;
    var i := FirstReady(rem, es, 0).value;
    var v := rem[i];
    var rest' := Without(rem, i);
    var rest := Kahn(rest', es).value;
    assert out == [v] + rest;
    assert e.to != v;
    if e.from == v {
      assert e.to in rest;
      assert IndexOf(out, v) == 0;
      assert IndexOf(out, e.to) == 1 + IndexOf(rest, e.to);
    } else {
      KahnRespectsEdges(rest', es, e);
      assert IndexOf(out, e.from) == 1 + IndexOf(rest, e.from);
      assert IndexOf(out, e.to) == 1 + IndexOf(rest, e.to);
    }
  }

  /** Along a path whose every edge is respected by `out`, positions strictly increase. */
  lemma {:induction false} PathClimbs(out: seq<string>, es: seq<Edge>, p: seq<string>)
    requires |p| >= 2 && IsPath(es, p)
    requires forall k :: 0 <= k < |p| ==> p[k] in out
    requires forall k :: 0 <= k < |p| - 1 ==> Before(out, p[k], p[k + 1])
    ensures IndexOf(out, p[0]) < IndexOf(out, p[|p| - 1])
    decreases |p|
  {
    assert Before(out, p[0], p[1]);
    if |p| > 2 {
      var tail := p[1..];
      assert forall k :: 0 <= k < |tail| - 1 ==> Edge(tail[k], tail[k + 1]) == Edge(p[k + 1], p[k + 2]);
      PathClimbs(out, es, tail);
    }
  }

  /** A cycle through listed vertices makes the sort fail: no order can respect it. */
  lemma {:induction false} KahnRejectsCycles(rem: seq<string>, es: seq<Edge>, c: seq<string>)
    requires IsCycle(es, c)
    requires forall x :: x in c ==> x in rem
    ensures Kahn(rem, es).Failure?
  {
    var r := Kahn(rem, es);
    if r.Success? {
      forall k | 0 <= k < |c| - 1
        ensures Before(r.value, c[k], c[k + 1])
      {
        KahnRespectsEdges(rem, es, Edge(c[k], c[k + 1]));
      }
      PathClimbs(r.value, es, c);
      assert false;
    }
  }
}
