/** Directed graphs stored as adjacency sets in both directions, and their
    topological sort. */
module Digraphs {
  import opened Graphs

  class Digraph {
    var incomingSets: seq<set<nat>>
    var outgoingSets: seq<set<nat>>

    /** The two directions mirror each other. */
    ghost predicate Valid()
      reads this
    {
      && |incomingSets| == |outgoingSets|
      && (forall u, x | 0 <= u < |outgoingSets| && x in outgoingSets[u] :: x < |outgoingSets|)
      && (forall v, x | 0 <= v < |incomingSets| && x in incomingSets[v] :: x < |incomingSets|)
      && (forall u: nat, v: nat | u < Size() && v < Size() :: v in outgoingSets[u] <==> u in incomingSets[v])
    }

    ghost function EdgeSet(): Edges
      requires Valid()
      reads this
    {
      set u: nat, v: nat | u < Size() && v < Size() && v in outgoingSets[u] :: (u, v)
    }

    constructor (n: nat)
      ensures Valid() && Size() == n && EdgeSet() == {}
    {
      incomingSets := seq(n, _ => {});
      outgoingSets := seq(n, _ => {});
    }

    constructor Copy(g: Digraph)
      ensures incomingSets == g.incomingSets && outgoingSets == g.outgoingSets
      ensures g.Valid() ==> Valid() && EdgeSet() == g.EdgeSet() && Size() == g.Size()
    {
      incomingSets, outgoingSets := g.incomingSets, g.outgoingSets;
    }

    function Size(): nat
      reads this
    {
      |incomingSets|
    }

    method Insert(src: nat, dst: nat)
      requires Valid() && src < Size() && dst < Size()
      modifies this
      ensures Valid() && Size() == old(Size()) && EdgeSet() == old(EdgeSet()) + {(src, dst)}
    {
      incomingSets := incomingSets[dst := incomingSets[dst] + {src}];
      outgoingSets := outgoingSets[src := outgoingSets[src] + {dst}];
    }

    method Erase(src: nat, dst: nat)
      requires Valid() && src < Size() && dst < Size()
      modifies this
      ensures Valid() && Size() == old(Size()) && EdgeSet() == old(EdgeSet()) - {(src, dst)}
    {
      incomingSets := incomingSets[dst := incomingSets[dst] - {src}];
      outgoingSets := outgoingSets[src := outgoingSets[src] - {dst}];
    }

    /** Whether no edge is left: the sum of the sizes of the incoming sets is zero. */
    method Empty() returns (empty: bool)
      requires Valid()
      ensures empty <==> EdgeSet() == {}
    {
      var edges := 0;
      for v := 0 to |incomingSets|
        invariant edges >= 0
        invariant edges == 0 <==> forall w | 0 <= w < v :: incomingSets[w] == {}
      {
        edges := edges + |incomingSets[v]|;
      }
      empty := edges == 0;
      forall e | e in EdgeSet() ensures incomingSets[e.1] != {} {
        assert e.0 in incomingSets[e.1];
      }
      if !empty {
        var v :| 0 <= v < |incomingSets| && incomingSets[v] != {};
        var u :| u in incomingSets[v];
        assert v in outgoingSets[u];
        assert (u, v) in EdgeSet();
      }
    }
  }

  /** A list of the elements of a set. */
  method ToVector(s: set<nat>) returns (v: seq<nat>)
    ensures forall x :: x in v <==> x in s
    ensures forall i, j | 0 <= i < j < |v| :: v[i] != v[j]
  {
    v := [];
    var rest := s;
    while rest != {}
      invariant rest <= s && forall x :: x in v <==> x in s - rest
      invariant forall i, j | 0 <= i < j < |v| :: v[i] != v[j]
      decreases rest
    {
      var x :| x in rest;
      assert x !in v;
      forall i | 0 <= i < |v| ensures v[i] != x {}
      v := v + [x];
      rest := rest - {x};
    }
  }

  ghost predicate Distinct(s: seq<nat>) {
    forall i, j | 0 <= i < j < |s| :: s[i] != s[j]
  }

  /** The list holds each node below n exactly once. */
  ghost predicate Permutation(s: seq<nat>, n: nat) {
    Distinct(s) && forall x: nat :: x in s <==> x < n
  }

  /** Every edge into a listed node comes from a node listed before it. */
  ghost predicate SourcesFirst(E: Edges, s: seq<nat>) {
    forall u, j | 0 <= j < |s| && (u, s[j]) in E :: u in s[..j]
  }

  /** No edge of the set leads to x. */
  ghost predicate Free(E: Edges, n: nat, x: nat) {
    forall u | u < n :: (u, x) !in E
  }

  /** While src is being emptied: the edges left are those out of nodes that are neither listed
      nor src, and those out of src to nodes not yet done; the nodes without an edge into them
      are those listed, src, and those waiting. */
  ghost predicate Emptying(E: Edges, n: nat, left: Edges, out: seq<nat>, src: nat, done: seq<nat>, q: seq<nat>) {
    && (forall e | e in E :: e.0 < n && e.1 < n)
    && left <= E && (forall e | e in E :: e in left <==> e.0 !in out && !(e.0 == src && e.1 in done))
    && Distinct(out + [src] + q)
    && (forall x | x in out + [src] + q :: x < n)
    && (forall x: nat | x < n :: x in out + [src] + q <==> Free(left, n, x))
    && SourcesFirst(E, out + [src])
  }

  /** Between the pops of the queue: the edges left are those out of nodes not yet listed, and
      the nodes without an edge into them are those listed or waiting. */
  ghost predicate Progress(E: Edges, n: nat, left: Edges, out: seq<nat>, q: seq<nat>) {
    && (forall e | e in E :: e.0 < n && e.1 < n)
    && left <= E && (forall e | e in E :: e in left <==> e.0 !in out)
    && Distinct(out + q)
    && (forall x | x in out + q :: x < n)
    && (forall x: nat | x < n :: x in out + q <==> Free(left, n, x))
    && SourcesFirst(E, out)
  }

  lemma {:induction false} Pop(E: Edges, n: nat, left: Edges, out: seq<nat>, q: seq<nat>)
    requires Progress(E, n, left, out, q) && q != []
    ensures Emptying(E, n, left, out, q[0], [], q[1..])
  {
    var src := q[0];
    assert out + [src] + q[1..] == out + q;
    assert src in out + q && Free(left, n, src);
    var out' := out + [src];
    forall u, j | 0 <= j < |out'| && (u, out'[j]) in E ensures u in out'[..j] {
      if j < |out| {
        assert out'[j] == out[j] && out'[..j] == out[..j];
      } else {
        assert (u, src) !in left && out'[..j] == out;
      }
    }
  }

  lemma {:induction false} EraseStep(E: Edges, n: nat, left: Edges, out: seq<nat>, src: nat, done: seq<nat>, q: seq<nat>, dst: nat)
    requires Emptying(E, n, left, out, src, done, q) && (src, dst) in left
    ensures var left' := left - {(src, dst)};
            Emptying(E, n, left', out, src, done + [dst], if Free(left', n, dst) then q + [dst] else q)
  {
    var left' := left - {(src, dst)};
    var q' := if Free(left', n, dst) then q + [dst] else q;
    assert !Free(left, n, dst);
    assert dst !in out + [src] + q;
    assert out + [src] + (q + [dst]) == out + [src] + q + [dst];
    forall x: nat | x < n ensures x in out + [src] + q' <==> Free(left', n, x) {
      if x != dst { assert forall u | u < n :: (u, x) in left <==> (u, x) in left'; }
    }
  }

  lemma {:induction false} Emptied(E: Edges, n: nat, left: Edges, out: seq<nat>, src: nat, done: seq<nat>, q: seq<nat>)
    requires Emptying(E, n, left, out, src, done, q)
    requires forall e | e in left :: e.0 != src
    ensures Progress(E, n, left, out + [src], q)
  {
    forall e | e in E ensures e in left <==> e.0 !in out + [src] {}
  }

  /** The list of nodes not yet listed shrinks with every pop. */
  lemma {:induction false} ListedOnce(out: seq<nat>, q: seq<nat>)
    requires Distinct(out + q)
    ensures Distinct(out) && (q != [] ==> q[0] !in out)
  {
    var all := out + q;
    assert forall i | 0 <= i < |out| :: out[i] == all[i];
    if q != [] { assert all[|out|] == q[0]; }
  }

  /** With an empty queue, no edge is left exactly when the graph is acyclic, and
      then every node is listed. */
  lemma {:induction false} Exhausted(E: Edges, n: nat, left: Edges, out: seq<nat>)
    requires Progress(E, n, left, out, [])
    ensures left == {} <==> Acyclic(E)
    ensures left == {} ==> Permutation(out, n)
  {
    assert out + [] == out;
    if left == {} {
      assert forall x: nat | x < n :: Free(left, n, x);
      ListingRanks(E, n, out);
    } else if Acyclic(E) {
      var V := set e | e in left :: e.1;
      var e :| e in left;
      assert e.1 in V;
      forall x | x in V ensures HasPredecessor(left, V, x) {
        var d :| d in left && d.1 == x;
        assert d.0 !in out && !Free(left, n, d.0);
        var u :| u < n && (u, d.0) in left;
        assert d.0 in V;
      }
      PredecessorsMakeACycle(left, V);
      var p :| Cycle(left, p);
      assert Cycle(E, p);
    }
  }

  lemma {:induction false} ListingRanks(E: Edges, n: nat, out: seq<nat>)
    requires (forall e | e in E :: e.0 in out && e.1 in out) && Distinct(out) && SourcesFirst(E, out)
    requires forall e | e in E :: e.0 < n && e.1 < n
    ensures Acyclic(E)
  {
    var rank := map x | x in out :: Position(out, x);
    forall e | e in E ensures rank[e.0] < rank[e.1] {
      var j := Position(out, e.1);
      assert (e.0, out[j]) in E;
      var i :| 0 <= i < j && out[..j][i] == e.0;
      assert Position(out, e.0) == i;
    }
    assert Ranks(E, rank);
    AcyclicIffRanked(E, set x | x in out);
  }

  ghost function Position(s: seq<nat>, x: nat): (i: nat)
    requires x in s
    ensures i < |s| && s[i] == x
  {
    var i :| 0 <= i < |s| && s[i] == x;
    i
  }

  /** Lists the nodes sources first, or finds that this cannot be done.  `nodes` is the
      shuffled list of all nodes; `dag` is the final assertion. */
  method RandomizedTopologicalSort(g: Digraph, nodes: seq<nat>) returns (out: seq<nat>, dag: bool)
    requires g.Valid() && Permutation(nodes, g.Size())
    ensures dag <==> Acyclic(g.EdgeSet())
    ensures dag ==> Permutation(out, g.Size())
    ensures SourcesFirst(g.EdgeSet(), out) && Distinct(out)
  {
    ghost var E, n := g.EdgeSet(), g.Size();
    var h := new Digraph.Copy(g);
    var q := Sources(h, nodes);
    out := [];
    ghost var rest := set x | x in nodes;
    while q != []
      invariant forall x :: x in rest <==> x in nodes && x !in out
      invariant h.Valid() && h.Size() == n && fresh(h) && Progress(E, n, h.EdgeSet(), out, q)
      decreases rest
    {
      var src := q[0];
      ListedOnce(out, q);
      assert src in out + q && src in nodes;
      Pop(E, n, h.EdgeSet(), out, q);
      q := EmptyOut(h, src, q[1..], E, out);
      out, rest := out + [src], rest - {src};
    }
    dag := h.Empty();
    Exhausted(E, n, h.EdgeSet(), out);
    ListedOnce(out, q);
  }

  /** The nodes without an incoming edge, in the given order. */
  method Sources(h: Digraph, nodes: seq<nat>) returns (q: seq<nat>)
    requires h.Valid() && Permutation(nodes, h.Size())
    ensures Progress(h.EdgeSet(), h.Size(), h.EdgeSet(), [], q)
  {
    q := [];
    for i := 0 to |nodes|
      invariant Distinct(q)
      invariant forall x :: x in q <==> x in nodes[..i] && x < h.Size() && h.incomingSets[x] == {}
    {
      assert nodes[i] in nodes;
      if h.incomingSets[nodes[i]] == {} { q := q + [nodes[i]]; }
    }
    forall x: nat | x < h.Size() ensures x in q <==> Free(h.EdgeSet(), h.Size(), x) {
      EdgesInto(h, x);
      assert nodes[..|nodes|] == nodes;
    }
    assert [] + q == q;
  }

  lemma {:induction false} EdgesInto(h: Digraph, x: nat)
    requires h.Valid() && x < h.Size()
    ensures h.incomingSets[x] == {} <==> Free(h.EdgeSet(), h.Size(), x)
  {
    if u :| u in h.incomingSets[x] {
      assert (u, x) in h.EdgeSet();
    }
  }

  /** Erases the edges out of src one by one and queues the nodes they leave without an incoming edge. */
  method EmptyOut(h: Digraph, src: nat, q: seq<nat>, ghost E: Edges, ghost out: seq<nat>) returns (q': seq<nat>)
    requires h.Valid() && Emptying(E, h.Size(), h.EdgeSet(), out, src, [], q)
    modifies h
    ensures h.Valid() && h.Size() == old(h.Size())
    ensures Progress(E, h.Size(), h.EdgeSet(), out + [src], q')
  {
    q' := q;
    assert src in out + [src] + q;
    var outgoing := ToVector(h.outgoingSets[src]);
    ghost var done: seq<nat> := [];
    for k := 0 to |outgoing|
      invariant h.Valid() && h.Size() == old(h.Size()) && done == outgoing[..k]
      invariant Emptying(E, h.Size(), h.EdgeSet(), out, src, done, q')
      invariant forall x: nat :: (src, x) in h.EdgeSet() <==> x in outgoing[k..]
    {
      var dst := outgoing[k];
      assert outgoing[k..] == [dst] + outgoing[k + 1..];
      assert dst !in outgoing[k + 1..];
      EraseStep(E, h.Size(), h.EdgeSet(), out, src, done, q', dst);
      h.Erase(src, dst);
      EdgesInto(h, dst);
      if h.incomingSets[dst] == {} { q' := q' + [dst]; }
      done := done + [dst];
    }
    Emptied(E, h.Size(), h.EdgeSet(), out, src, done, q');
  }
}
