/** Finite directed graphs on natural numbers: paths, cycles and rankings. */
module Graphs {
  type Edges = set<(nat, nat)>

  ghost predicate Path(E: Edges, p: seq<nat>) {
    p != [] && forall i | 0 <= i < |p| - 1 :: (p[i], p[i + 1]) in E
  }

  ghost predicate Cycle(E: Edges, p: seq<nat>) {
    Path(E, p) && |p| >= 2 && p[0] == p[|p| - 1]
  }

  ghost predicate Acyclic(E: Edges) {
    forall p :: !Cycle(E, p)
  }

  /** A list longer than the set its elements come from repeats one of them. */
  lemma {:induction false} Pigeonhole(s: seq<nat>, V: set<nat>) returns (i: nat, j: nat)
    requires |s| > |V| && forall k | 0 <= k < |s| :: s[k] in V
    ensures i < j < |s| && s[i] == s[j]
    decreases |s|
  {
    var n := |s| - 1;
    if k :| 0 <= k < n && s[k] == s[n] {
      i, j := k, n;
    } else {
      i, j := Pigeonhole(s[..n], V - {s[n]});
    }
  }

  ghost predicate HasPredecessor(E: Edges, V: set<nat>, x: nat) {
    exists u :: u in V && (u, x) in E
  }

  /** Where every node has a predecessor, a path of any length can be walked backwards. */
  lemma {:induction false} BackwardPath(E: Edges, V: set<nat>, v: nat, n: nat) returns (p: seq<nat>)
    requires v in V && forall x | x in V :: HasPredecessor(E, V, x)
    ensures Path(E, p) && |p| == n + 1 && forall k | 0 <= k < |p| :: p[k] in V
  {
    if n == 0 {
      p := [v];
    } else {
      p := BackwardPath(E, V, v, n - 1);
      assert HasPredecessor(E, V, p[0]);
      var w :| w in V && (w, p[0]) in E;
      PathBehind(E, w, p);
      p := [w] + p;
    }
  }

  lemma {:induction false} PathBehind(E: Edges, w: nat, p: seq<nat>)
    requires Path(E, p) && (w, p[0]) in E
    ensures Path(E, [w] + p)
  {
    var q := [w] + p;
    forall i | 0 <= i < |q| - 1 ensures (q[i], q[i + 1]) in E {
      if i > 0 { assert q[i] == p[i - 1] && q[i + 1] == p[i]; }
    }
  }

  lemma {:induction false} SubPath(E: Edges, p: seq<nat>, i: nat, j: nat)
    requires Path(E, p) && i <= j < |p|
    ensures Path(E, p[i..j + 1])
  {
    var q := p[i..j + 1];
    forall k | 0 <= k < |q| - 1 ensures (q[k], q[k + 1]) in E {
      assert q[k] == p[i + k] && q[k + 1] == p[i + k + 1];
    }
  }

  lemma {:induction false} PredecessorsMakeACycle(E: Edges, V: set<nat>)
    requires V != {} && forall x | x in V :: HasPredecessor(E, V, x)
    ensures !Acyclic(E)
  {
    var v :| v in V;
    var p := BackwardPath(E, V, v, |V|);
    var i, j := Pigeonhole(p, V);
    SubPath(E, p, i, j);
    assert Cycle(E, p[i..j + 1]);
  }

  /** A ranking that grows along every edge. */
  ghost predicate Ranks(E: Edges, rank: map<nat, nat>) {
    forall e | e in E :: e.0 in rank && e.1 in rank && rank[e.0] < rank[e.1]
  }

  lemma {:induction false} RankClimbs(E: Edges, rank: map<nat, nat>, p: seq<nat>)
    requires Ranks(E, rank) && Path(E, p) && |p| >= 2
    ensures p[0] in rank && p[|p| - 1] in rank && rank[p[0]] < rank[p[|p| - 1]]
    decreases |p|
  {
    assert (p[0], p[1]) in E;
    if |p| > 2 {
      SubPath(E, p, 1, |p| - 1);
      assert p[1..|p|] == p[1..];
      RankClimbs(E, rank, p[1..]);
    }
  }

  /** A finite graph is acyclic exactly when its nodes can be ranked. */
  lemma {:induction false} AcyclicIffRanked(E: Edges, V: set<nat>)
    requires forall e | e in E :: e.0 in V && e.1 in V
    ensures Acyclic(E) <==> exists rank :: Ranks(E, rank)
  {
    if rank :| Ranks(E, rank) {
      forall p ensures !Cycle(E, p) {
        if Path(E, p) && |p| >= 2 { RankClimbs(E, rank, p); }
      }
    }
    if Acyclic(E) {
      var rank := FindRanking(E, V);
    }
  }

  lemma {:induction false} FindRanking(E: Edges, V: set<nat>) returns (rank: map<nat, nat>)
    requires Acyclic(E) && forall e | e in E :: e.0 in V && e.1 in V
    ensures Ranks(E, rank) && rank.Keys == V
    decreases V
  {
    if V == {} {
      rank := map[];
    } else {
      var v :| v in V && forall u | u in V :: (u, v) !in E by {
        if forall x | x in V :: HasPredecessor(E, V, x) {
          PredecessorsMakeACycle(E, V);
        }
      }
      var E' := set e | e in E && e.0 != v;
      forall p ensures !Cycle(E', p) {
        if Cycle(E', p) { assert Cycle(E, p); }
      }
      var rest := FindRanking(E', V - {v});
      rank := (map u | u in V :: if u == v then 0 else rest[u] + 1);
    }
  }
}
