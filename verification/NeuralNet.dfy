/** Feed-forward nets of nodes and weighted connections: the longest path from the
    inputs, and propagation in place. */
module NeuralNet {
  import Graphs

  datatype NodeType = Input | Hidden | Output

  class Connection {
    const source: Node
    const dest: Node
    const weight: real

    constructor (source: Node, dest: Node, weight: real)
      ensures this.source == source && this.dest == dest && this.weight == weight
    {
      this.source, this.dest, this.weight := source, dest, weight;
    }
  }

  class Node {
    const nodetype: NodeType
    const tag: int
    var visited: bool
    var counter: int
    var activation: real
    var incoming: real
    var outConnections: seq<Connection>
    var inConnections: seq<Connection>

    constructor (nodetype: NodeType, tag: int)
      ensures this.nodetype == nodetype && this.tag == tag && !visited
      ensures activation == 0.0 && outConnections == [] && inConnections == []
    {
      this.nodetype, this.tag, visited := nodetype, tag, false;
      counter, activation, incoming := 0, 0.0, 0.0;
      outConnections, inConnections := [], [];
    }
  }

  // ---------------------------------------------------------------- the graph as a value

  /** The connections into and out of each node, and a ranking that grows along every one of them. */
  datatype Graph = Graph(ins: map<Node, seq<Connection>>, outs: map<Node, seq<Connection>>, rank: map<Node, nat>)

  /** The connection is listed at both ends and the ranking grows along it. */
  ghost predicate Linked(g: Graph, c: Connection) {
    && c.source in g.outs && c in g.outs[c.source] && c.source in g.rank
    && c.dest in g.ins && c in g.ins[c.dest] && c.dest in g.rank
    && g.rank[c.source] < g.rank[c.dest]
  }

  ghost predicate InsLinked(g: Graph, n: Node)
    requires n in g.ins
  {
    forall i | 0 <= i < |g.ins[n]| :: Linked(g, g.ins[n][i]) && g.ins[n][i].dest == n
  }

  ghost predicate OutsLinked(g: Graph, n: Node)
    requires n in g.outs
  {
    forall i | 0 <= i < |g.outs[n]| :: Linked(g, g.outs[n][i]) && g.outs[n][i].source == n
  }

  /** An acyclic graph: each connection is listed at both ends and climbs in the ranking. */
  ghost predicate WellRanked(g: Graph) {
    && g.ins.Keys == g.outs.Keys == g.rank.Keys
    && (forall n {:trigger InsLinked(g, n)} | n in g.ins :: InsLinked(g, n))
    && (forall n {:trigger OutsLinked(g, n)} | n in g.outs :: OutsLinked(g, n))
  }

  lemma {:induction false} InLink(g: Graph, n: Node, i: nat)
    requires WellRanked(g) && n in g.ins && i < |g.ins[n]|
    ensures Linked(g, g.ins[n][i]) && g.ins[n][i].dest == n
  {
    assert InsLinked(g, n);
  }

  lemma {:induction false} OutLink(g: Graph, n: Node, i: nat)
    requires WellRanked(g) && n in g.outs && i < |g.outs[n]|
    ensures Linked(g, g.outs[n][i]) && g.outs[n][i].source == n
  {
    assert OutsLinked(g, n);
  }

  /** Some path of k connections leads from an input to n. */
  ghost predicate Walk(g: Graph, n: Node, k: nat)
    decreases k
  {
    if k == 0 then n.nodetype == Input
    else n in g.ins && exists i :: 0 <= i < |g.ins[n]| && Walk(g, g.ins[n][i].source, k - 1)
  }

  /** No path from an input to n is longer than k. */
  ghost predicate Within(g: Graph, n: Node, k: nat) {
    forall j: nat | Walk(g, n, j) :: j <= k
  }

  /** Inputs have no connections into them, all other nodes have some. */
  ghost predicate FeedForward(g: Graph) {
    forall n | n in g.ins :: n.nodetype == Input <==> g.ins[n] == []
  }

  /** Inputs have no connections into them. */
  ghost predicate InputsFree(g: Graph) {
    forall n | n in g.ins && n.nodetype == Input :: g.ins[n] == []
  }

  /** A node with nothing to activate it that is not an input. */
  ghost predicate Orphan(g: Graph, n: Node) {
    n in g.ins && n.nodetype != Input && g.ins[n] == []
  }

  /** Some value takes k passes to reach n: from an input one for each connection on
      the way, from an orphan one more, in which the orphan itself is activated. */
  ghost predicate Arrives(g: Graph, n: Node, k: nat)
    decreases k
  {
    if k == 0 then n.nodetype == Input
    else
      || (k == 1 && Orphan(g, n))
      || (n in g.ins && exists i :: 0 <= i < |g.ins[n]| && Arrives(g, g.ins[n][i].source, k - 1))
  }

  /** Everything that reaches n has done so after k passes. */
  ghost predicate Timely(g: Graph, n: Node, k: nat) {
    forall j: nat | Arrives(g, n, j) :: j <= k
  }

  /** Something reaches every node. */
  lemma {:induction false} SomethingArrives(g: Graph, n: Node) returns (k: nat)
    requires WellRanked(g) && n in g.ins
    ensures Arrives(g, n, k)
    decreases g.rank[n]
  {
    if n.nodetype == Input {
      k := 0;
    } else if g.ins[n] == [] {
      k := 1;
    } else {
      InLink(g, n, 0);
      k := SomethingArrives(g, g.ins[n][0].source);
      k := k + 1;
    }
  }

  /** Without orphans values arrive along paths from inputs only. */
  lemma {:induction false} ArrivalsAreWalks(g: Graph, n: Node, k: nat)
    requires FeedForward(g) && Arrives(g, n, k)
    ensures Walk(g, n, k)
    decreases k
  {
    if k > 0 {
      var i :| n in g.ins && 0 <= i < |g.ins[n]| && Arrives(g, g.ins[n][i].source, k - 1);
      ArrivalsAreWalks(g, g.ins[n][i].source, k - 1);
    }
  }

  lemma {:induction false} SourceTimely(g: Graph, n: Node, i: nat, k: nat)
    requires WellRanked(g) && n in g.ins && i < |g.ins[n]| && Timely(g, n, k + 1)
    ensures Timely(g, g.ins[n][i].source, k)
  {
    forall j: nat | Arrives(g, g.ins[n][i].source, j) ensures j <= k {
      assert Arrives(g, n, j + 1);
    }
  }

  lemma {:induction false} TimelyAtOnceIsInput(g: Graph, n: Node)
    requires WellRanked(g) && n in g.ins && Timely(g, n, 0)
    ensures n.nodetype == Input
  {
    var k := SomethingArrives(g, n);
    assert k == 0;
  }

  // ---------------------------------------------------------------- feed-forward values

  /** The value of a node: given for inputs, the activation of the weighted sum otherwise. */
  ghost function Value(g: Graph, given: map<Node, real>, act: real -> real, n: Node): real
    requires WellRanked(g) && n in g.ins && g.ins.Keys <= given.Keys
    decreases g.rank[n], |g.ins[n]| + 1
  {
    if n.nodetype == Input then given[n] else act(WeightedSum(g, given, act, n, |g.ins[n]|))
  }

  ghost function WeightedSum(g: Graph, given: map<Node, real>, act: real -> real, n: Node, k: nat): real
    requires WellRanked(g) && n in g.ins && g.ins.Keys <= given.Keys && k <= |g.ins[n]|
    decreases g.rank[n], k
  {
    if k == 0 then 0.0
    else
      InLink(g, n, k - 1);
      var c := g.ins[n][k - 1];
      WeightedSum(g, given, act, n, k - 1) + Weighted(c.weight, Value(g, given, act, c.source))
  }

  function Weighted(weight: real, activation: real): real { weight * activation }

  // ---------------------------------------------------------------- the net

  class Ann {
    var nodes: seq<Node>
    var inputs: seq<Node>
    var outputs: seq<Node>
    var hidden: seq<Node>
    var connections: seq<Connection>
    const activationFn: real -> real

    constructor (activationFn: real -> real)
      ensures nodes == [] && inputs == [] && outputs == [] && hidden == [] && connections == []
      ensures this.activationFn == activationFn
    {
      this.activationFn := activationFn;
      nodes, inputs, outputs, hidden, connections := [], [], [], [], [];
    }

    /** The node is in the graph and lists its connections as the graph does. */
    ghost predicate Sits(g: Graph, n: Node)
      reads n`inConnections, n`outConnections
    {
      && n in g.ins && n.inConnections == g.ins[n]
      && n in g.outs && n.outConnections == g.outs[n]
    }

    ghost predicate IsInput(n: Node)
      reads this
    {
      n.nodetype == Input && n in inputs
    }

    /** The nodes and their connections are those of the graph. */
    ghost predicate Valid(g: Graph)
      reads this, g.ins.Keys`inConnections, g.ins.Keys`outConnections
    {
      && WellRanked(g)
      && (forall n {:trigger Sits(g, n)} | n in g.ins :: Sits(g, n))
      && (forall i | 0 <= i < |nodes| :: nodes[i] in g.ins)
      && (forall i | 0 <= i < |inputs| :: inputs[i] in g.ins && inputs[i].nodetype == Input)
      && (forall i | 0 <= i < |outputs| :: outputs[i] in g.ins)
      && (forall n {:trigger n in nodes} | n in g.ins :: n in nodes)
      && (forall n {:trigger IsInput(n)} | n in g.ins && n.nodetype == Input :: IsInput(n))
    }

    // ------------------------------------------------------------ depth

    ghost function Counters(g: Graph): map<Node, int>
      reads g.ins.Keys`counter
    {
      map n | n in g.ins :: n.counter
    }

    /** The net is that of the graph, ranked up to top, and counters stand for paths. */
    ghost predicate Counting(g: Graph, top: nat)
      reads this, g.ins.Keys`inConnections, g.ins.Keys`outConnections, g.ins.Keys`counter
    {
      Valid(g) && Realized(g, Counters(g)) && forall n | n in g.rank :: g.rank[n] <= top
    }

    method FeedforwardDepthRecurse(n: Node, ghost g: Graph, ghost top: nat)
      requires Counting(g, top) && n in g.ins && n.counter >= 0 && Walk(g, n, n.counter)
      modifies g.ins.Keys`counter
      ensures Raised(g, old(Counters(g)), Counters(g)) && Settled(g, Counters(g), n)
      ensures UnchangedUpTo(g, old(Counters(g)), Counters(g), g.rank[n])
      decreases top - g.rank[n], 1
    {
      var depth := n.counter + 1;
      ghost var start := Counters(g);
      assert Sits(g, n);
      for x := 0 to |n.outConnections|
        invariant Raised(g, start, Counters(g)) && UnchangedUpTo(g, start, Counters(g), g.rank[n])
        invariant Reached(Counters(g), g.outs[n], x, depth)
      {
        ghost var before := Counters(g);
        OutLink(g, n, x);
        Consider(n.outConnections[x], depth, g, top);
        StepOn(g, g.rank[n], start, before, Counters(g), g.outs[n], x, depth);
      }
    }

    /** Looks at one connection out of a node at the given depth. */
    method Consider(c: Connection, depth: nat, ghost g: Graph, ghost top: nat)
      requires Counting(g, top) && Linked(g, c) && depth > 0 && Walk(g, c.source, depth - 1)
      modifies g.ins.Keys`counter
      ensures Raised(g, old(Counters(g)), Counters(g)) && At(Counters(g), c.dest) >= depth
      ensures UnchangedUpTo(g, old(Counters(g)), Counters(g), g.rank[c.source])
      decreases top - g.rank[c.source], 0
    {
      WalkOn(g, c, depth - 1);
      if depth > c.dest.counter {
        Raise(c.dest, depth, g, top);
      }
    }

    /** Raises a counter to a longer path found and goes on from there. */
    method Raise(dest: Node, depth: nat, ghost g: Graph, ghost top: nat)
      requires Counting(g, top) && dest in g.ins && dest.counter < depth && Walk(g, dest, depth)
      modifies g.ins.Keys`counter
      ensures Raised(g, old(Counters(g)), Counters(g)) && At(Counters(g), dest) == depth
      ensures forall n | n in g.rank && g.rank[n] < g.rank[dest] :: At(old(Counters(g)), n) == At(Counters(g), n)
      decreases top - g.rank[dest], 2
    {
      ghost var before := Counters(g);
      SetCounter(dest, depth, g, top);
      FeedforwardDepthRecurse(dest, g, top);
      RaisedAt(g, before, dest, depth, Counters(g));
    }

    method SetCounter(dest: Node, depth: nat, ghost g: Graph, ghost top: nat)
      requires Counting(g, top) && dest in g.ins && dest.counter < depth && Walk(g, dest, depth)
      modifies dest`counter
      ensures dest.counter == depth && Counters(g) == old(Counters(g))[dest := depth] && Counting(g, top)
    {
      ghost var before := Counters(g);
      dest.counter := depth;
      assert Counters(g) == before[dest := depth];
    }

    /** Leaves in each counter the length of the longest path from an input. */
    method FeedforwardDepth(ghost g: Graph) returns (maxDepth: nat)
      requires Valid(g)
      modifies g.ins.Keys`counter
      ensures forall n | n in g.ins :: n.counter >= 0 && Within(g, n, n.counter)
      ensures forall n | n in g.ins :: n.counter == 0 || Walk(g, n, n.counter)
      ensures forall o | o in outputs :: o in g.ins && 0 <= o.counter <= maxDepth
      ensures maxDepth == 0 || exists o :: o in outputs && o.counter == maxDepth
    {
      ResetCounters(g);
      FindCounters(g);
      CountersAreLongest(g, Counters(g));
      assert forall n | n in g.ins :: At(Counters(g), n) == n.counter;
      maxDepth := LargestOutput();
    }

    method ResetCounters(ghost g: Graph)
      requires Valid(g)
      modifies g.ins.Keys`counter
      ensures forall n | n in g.ins :: n.counter == 0
    {
      for x := 0 to |nodes|
        invariant forall y | 0 <= y < x :: nodes[y].counter == 0
      {
        nodes[x].counter := 0;
      }
      forall n | n in g.ins ensures n.counter == 0 {
        assert n in nodes;
      }
    }

    /** The recursion from every input, in order. */
    method FindCounters(ghost g: Graph)
      requires Valid(g) && forall n | n in g.ins :: n.counter == 0
      modifies g.ins.Keys`counter
      ensures Realized(g, Counters(g)) && AllSettled(g, Counters(g), inputs, |inputs|)
      ensures forall n | n in g.ins && At(Counters(g), n) != 0 :: Settled(g, Counters(g), n)
    {
      ghost var top := TopRank(g);
      ghost var start := Counters(g);
      for x := 0 to |inputs|
        invariant Raised(g, start, Counters(g)) && AllSettled(g, Counters(g), inputs, x)
      {
        ghost var before := Counters(g);
        assert At(before, inputs[x]) == inputs[x].counter;
        FeedforwardDepthRecurse(inputs[x], g, top);
        RaisedOn(g, start, before, Counters(g));
        OneMoreSettled(g, before, Counters(g), inputs, x);
      }
    }

    method LargestOutput() returns (max: nat)
      requires forall o | o in outputs :: o.counter >= 0
      ensures forall o | o in outputs :: o.counter <= max
      ensures max == 0 || exists o :: o in outputs && o.counter == max
    {
      max := 0;
      for x := 0 to |outputs|
        invariant forall y | 0 <= y < x :: outputs[y].counter <= max
        invariant max == 0 || exists o :: o in outputs && o.counter == max
      {
        if outputs[x].counter > max { max := outputs[x].counter; }
      }
    }

    /** Settled inputs and settled raised nodes make the counters bound all paths. */
    lemma {:induction false} CountersAreLongest(g: Graph, k: map<Node, int>)
      requires Valid(g) && Realized(g, k) && AllSettled(g, k, inputs, |inputs|)
      requires forall n | n in g.ins && At(k, n) != 0 :: Settled(g, k, n)
      ensures forall n | n in g.ins :: At(k, n) >= 0 && Within(g, n, At(k, n))
    {
      forall n, j: nat | n in g.ins && Walk(g, n, j) ensures j <= At(k, n) {
        CounterCovers(g, k, n, j);
      }
    }

    lemma {:induction false} CounterCovers(g: Graph, k: map<Node, int>, n: Node, j: nat)
      requires Valid(g) && n in g.ins && Walk(g, n, j)
      requires Realized(g, k) && AllSettled(g, k, inputs, |inputs|)
      requires forall m | m in g.ins && At(k, m) != 0 :: Settled(g, k, m)
      ensures j <= At(k, n)
      decreases j
    {
      if j > 0 {
        var i :| 0 <= i < |g.ins[n]| && Walk(g, g.ins[n][i].source, j - 1);
        var c := g.ins[n][i];
        InLink(g, n, i);
        CounterCovers(g, k, c.source, j - 1);
        assert Settled(g, k, c.source) by {
          if At(k, c.source) == 0 {
            assert IsInput(c.source);
            var x :| 0 <= x < |inputs| && inputs[x] == c.source;
          }
        }
        var x :| 0 <= x < |g.outs[c.source]| && g.outs[c.source][x] == c;
      }
    }

    // ------------------------------------------------------------ propagation

    ghost function Activations(g: Graph): map<Node, real>
      reads g.ins.Keys`activation
    {
      map n | n in g.ins :: n.activation
    }

    /** Sums the weighted signals that come in. */
    method SumIncoming(n: Node, ghost g: Graph)
      requires Valid(g) && n in g.ins
      modifies n`incoming
      ensures n.incoming == Incoming(Activations(g), g.ins[n], |g.ins[n]|)
    {
      assert Sits(g, n);
      n.incoming := 0.0;
      for y := 0 to |n.inConnections|
        invariant n.incoming == Incoming(Activations(g), g.ins[n], y)
      {
        InLink(g, n, y);
        n.incoming := n.incoming + Weighted(n.inConnections[y].weight, n.inConnections[y].source.activation);
      }
    }

    /** Sums the weighted signals that come in and activates the node. */
    method Activate(n: Node, ghost g: Graph)
      requires Valid(g) && n in g.ins
      modifies n`incoming, n`activation
      ensures Activations(g) == old(Activations(g))[n := activationFn(Incoming(old(Activations(g)), g.ins[n], |g.ins[n]|))]
    {
      SumIncoming(n, g);
      n.activation := activationFn(n.incoming);
    }

    /** One timestep: activates every node that is not an input, in the order of the list. */
    method Propagate(ghost g: Graph, ghost given: map<Node, real>, ghost k: nat)
      requires Valid(g) && InputsFree(g) && g.ins.Keys <= given.Keys
      requires Correct(g, given, activationFn, Activations(g), k)
      modifies g.ins.Keys`incoming, g.ins.Keys`activation
      ensures Activations(g) == Passed(g, activationFn, old(Activations(g)), nodes)
      ensures Correct(g, given, activationFn, Activations(g), k + 1)
    {
      ghost var before := Activations(g);
      VisitAll(g);
      PassIsCorrect(g, given, activationFn, before, k, nodes);
    }

    method VisitAll(ghost g: Graph)
      requires Valid(g)
      modifies g.ins.Keys`incoming, g.ins.Keys`activation
      ensures Activations(g) == Passed(g, activationFn, old(Activations(g)), nodes)
    {
      for x := 0 to |nodes|
        invariant Activations(g) == Passed(g, activationFn, old(Activations(g)), nodes[..x])
      {
        PassedOn(g, activationFn, old(Activations(g)), nodes, x);
        Visit(nodes[x], g);
      }
      assert nodes[..|nodes|] == nodes;
    }

    /** Skips an input, activates any other node. */
    method Visit(n: Node, ghost g: Graph)
      requires Valid(g) && n in g.ins
      modifies g.ins.Keys`incoming, g.ins.Keys`activation
      ensures Activations(g) == Visited(g, activationFn, old(Activations(g)), n)
    {
      if n.nodetype != Input { Activate(n, g); }
    }

    /** Whatever reaches o takes no longer than the longest path from an input to an output. */
    ghost predicate InTime(g: Graph, o: Node)
      reads this
    {
      forall j: nat | Arrives(g, o, j) :: j == 0 || exists p, k: nat :: p in outputs && j <= k && Walk(g, p, k)
    }

    /** Finds the depth and propagates that many times.  Whatever the order of the nodes and
        the activations they start with, every output that is reached in time ends at its
        feed-forward value: all of them, if only inputs have no connections into them. */
    method Run(ghost g: Graph) returns (depth: nat)
      requires Valid(g) && InputsFree(g)
      modifies g.ins.Keys`counter, g.ins.Keys`incoming, g.ins.Keys`activation
      ensures forall o | o in outputs :: o in g.ins && Within(g, o, depth)
      ensures depth == 0 || exists o :: o in outputs && Walk(g, o, depth)
      ensures Activations(g) == Passes(g, activationFn, old(Activations(g)), nodes, depth)
      ensures forall o | o in outputs && (FeedForward(g) || InTime(g, o)) ::
                o.activation == Value(g, old(Activations(g)), activationFn, o)
    {
      ghost var given := Activations(g);
      depth := FeedforwardDepth(g);
      forall o | o in outputs ensures Within(g, o, depth) {
        assert Within(g, o, o.counter);
      }
      PropagateTimes(depth, g, given);
      forall o | o in outputs && (FeedForward(g) || InTime(g, o)) ensures o.activation == Value(g, given, activationFn, o) {
        ArrivesByDepth(g, o, depth);
        assert Activations(g)[o] == o.activation;
      }
    }

    lemma {:induction false} ArrivesByDepth(g: Graph, o: Node, depth: nat)
      requires o in outputs && (FeedForward(g) || InTime(g, o)) && forall p | p in outputs :: Within(g, p, depth)
      ensures Timely(g, o, depth)
    {
      forall j: nat | Arrives(g, o, j) ensures j <= depth {
        if FeedForward(g) { ArrivalsAreWalks(g, o, j); }
      }
    }

    method PropagateNext(ghost i: nat, ghost g: Graph, ghost given: map<Node, real>)
      requires Valid(g) && InputsFree(g) && given.Keys == g.ins.Keys
      requires Activations(g) == Passes(g, activationFn, given, nodes, i)
      modifies g.ins.Keys`incoming, g.ins.Keys`activation
      ensures Activations(g) == Passes(g, activationFn, given, nodes, i + 1)
    {
      PassesAreCorrect(g, given, activationFn, nodes, i);
      Propagate(g, given, i);
    }

    method PropagateTimes(depth: nat, ghost g: Graph, ghost given: map<Node, real>)
      requires Valid(g) && InputsFree(g) && given == Activations(g)
      modifies g.ins.Keys`incoming, g.ins.Keys`activation
      ensures Correct(g, given, activationFn, Activations(g), depth)
      ensures Activations(g) == Passes(g, activationFn, given, nodes, depth)
    {
      for i := 0 to depth
        invariant Activations(g) == Passes(g, activationFn, given, nodes, i)
      {
        PropagateNext(i, g, given);
      }
      PassesAreCorrect(g, given, activationFn, nodes, depth);
    }
  }

  // ---------------------------------------------------------------- activations as values

  /** Weighted sum over the first y connections. */
  ghost function Incoming(a: map<Node, real>, cs: seq<Connection>, y: nat): real
    requires y <= |cs|
  {
    if y == 0 then 0.0 else Incoming(a, cs, y - 1) + Weighted(cs[y - 1].weight, ActivationIn(a, cs[y - 1].source))
  }

  ghost function ActivationIn(a: map<Node, real>, n: Node): real { if n in a then a[n] else 0.0 }

  /** A node that is not an input gets the activation of what comes in. */
  ghost function Visited(g: Graph, act: real -> real, a: map<Node, real>, n: Node): map<Node, real>
    requires n in g.ins
  {
    if n.nodetype == Input then a else a[n := act(Incoming(a, g.ins[n], |g.ins[n]|))]
  }

  /** One pass over the nodes in the order of the list. */
  ghost function Passed(g: Graph, act: real -> real, a: map<Node, real>, ns: seq<Node>): (r: map<Node, real>)
    requires forall n | n in ns :: n in g.ins
    ensures a.Keys == g.ins.Keys ==> r.Keys == g.ins.Keys
  {
    if ns == [] then a else Visited(g, act, Passed(g, act, a, ns[..|ns| - 1]), ns[|ns| - 1])
  }

  lemma {:induction false} PassedOn(g: Graph, act: real -> real, a: map<Node, real>, ns: seq<Node>, x: nat)
    requires x < |ns| && forall n | n in ns :: n in g.ins
    ensures Passed(g, act, a, ns[..x + 1]) == Visited(g, act, Passed(g, act, a, ns[..x]), ns[x])
  {
    assert ns[..x + 1][..x] == ns[..x];
  }

  ghost function Passes(g: Graph, act: real -> real, a: map<Node, real>, ns: seq<Node>, k: nat): (r: map<Node, real>)
    requires forall n | n in ns :: n in g.ins
    ensures a.Keys == g.ins.Keys ==> r.Keys == g.ins.Keys
  {
    if k == 0 then a else Passed(g, act, Passes(g, act, a, ns, k - 1), ns)
  }

  /** The list holds the nodes of the graph. */
  ghost predicate Lists(g: Graph, ns: seq<Node>) {
    (forall n | n in ns :: n in g.ins) && forall n | n in g.ins :: n in ns
  }

  /** Nodes no further than k from the inputs have their feed-forward values. */
  ghost predicate Correct(g: Graph, given: map<Node, real>, act: real -> real, a: map<Node, real>, k: nat)
    requires WellRanked(g) && g.ins.Keys <= given.Keys && g.ins.Keys <= a.Keys
  {
    forall n | n in g.ins && Timely(g, n, k) :: a[n] == Value(g, given, act, n)
  }

  ghost predicate CorrectUpTo(g: Graph, given: map<Node, real>, act: real -> real, a: map<Node, real>, k: nat, ns: seq<Node>, x: nat)
    requires WellRanked(g) && g.ins.Keys <= given.Keys && g.ins.Keys <= a.Keys && x <= |ns|
  {
    forall i | 0 <= i < x && ns[i] in g.ins && Timely(g, ns[i], k) :: a[ns[i]] == Value(g, given, act, ns[i])
  }

  lemma {:induction false} StartIsCorrect(g: Graph, given: map<Node, real>, act: real -> real)
    requires WellRanked(g) && InputsFree(g) && g.ins.Keys <= given.Keys
    ensures Correct(g, given, act, given, 0)
  {
    forall n | n in g.ins && Timely(g, n, 0) ensures given[n] == Value(g, given, act, n) {
      TimelyAtOnceIsInput(g, n);
    }
  }

  lemma {:induction false} InputIsCorrect(g: Graph, given: map<Node, real>, act: real -> real, a: map<Node, real>, k: nat, n: Node)
    requires WellRanked(g) && InputsFree(g) && g.ins.Keys <= given.Keys && g.ins.Keys <= a.Keys
    requires Correct(g, given, act, a, k) && n in g.ins && n.nodetype == Input
    ensures a[n] == Value(g, given, act, n)
  {
    assert Timely(g, n, k) by {
      assert forall j: nat | j > 0 :: !Arrives(g, n, j);
    }
  }

  lemma {:induction false} SumsAgree(g: Graph, given: map<Node, real>, act: real -> real, a: map<Node, real>, k: nat, n: Node, y: nat)
    requires WellRanked(g) && g.ins.Keys <= given.Keys && g.ins.Keys <= a.Keys
    requires Correct(g, given, act, a, k) && n in g.ins && Timely(g, n, k + 1) && y <= |g.ins[n]|
    ensures Incoming(a, g.ins[n], y) == WeightedSum(g, given, act, n, y)
  {
    if y > 0 {
      SumsAgree(g, given, act, a, k, n, y - 1);
      InLink(g, n, y - 1);
      SourceTimely(g, n, y - 1, k);
      assert a[g.ins[n][y - 1].source] == Value(g, given, act, g.ins[n][y - 1].source);
    }
  }

  /** Activating one node keeps what was correct and makes the node itself correct. */
  lemma {:induction false} ActivationStep(g: Graph, given: map<Node, real>, act: real -> real, a: map<Node, real>, a': map<Node, real>,
                       k: nat, ns: seq<Node>, x: nat)
    requires WellRanked(g) && g.ins.Keys <= given.Keys && g.ins.Keys == a.Keys && x < |ns|
    requires Correct(g, given, act, a, k) && CorrectUpTo(g, given, act, a, k + 1, ns, x)
    requires ns[x] in g.ins && ns[x].nodetype != Input
    requires a' == a[ns[x] := act(Incoming(a, g.ins[ns[x]], |g.ins[ns[x]]|))]
    ensures Correct(g, given, act, a', k) && CorrectUpTo(g, given, act, a', k + 1, ns, x + 1)
  {
    var n := ns[x];
    if Timely(g, n, k + 1) {
      SumsAgree(g, given, act, a, k, n, |g.ins[n]|);
      assert a'[n] == Value(g, given, act, n);
    }
    assert Timely(g, n, k) ==> Timely(g, n, k + 1);
  }

  lemma {:induction false} PrefixIsCorrect(g: Graph, given: map<Node, real>, act: real -> real, a: map<Node, real>, k: nat, ns: seq<Node>)
    requires WellRanked(g) && InputsFree(g) && g.ins.Keys <= given.Keys && a.Keys == g.ins.Keys
    requires Correct(g, given, act, a, k) && forall n | n in ns :: n in g.ins
    ensures var r := Passed(g, act, a, ns); Correct(g, given, act, r, k) && CorrectUpTo(g, given, act, r, k + 1, ns, |ns|)
    decreases |ns|
  {
    if ns != [] {
      var front := ns[..|ns| - 1];
      PrefixIsCorrect(g, given, act, a, k, front);
      OneMoreCorrect(g, given, act, Passed(g, act, a, front), k, ns);
    }
  }

  lemma {:induction false} OneMoreCorrect(g: Graph, given: map<Node, real>, act: real -> real, a: map<Node, real>, k: nat, ns: seq<Node>)
    requires WellRanked(g) && InputsFree(g) && g.ins.Keys <= given.Keys && a.Keys == g.ins.Keys
    requires ns != [] && (forall n | n in ns :: n in g.ins)
    requires Correct(g, given, act, a, k) && CorrectUpTo(g, given, act, a, k + 1, ns[..|ns| - 1], |ns| - 1)
    ensures var r := Visited(g, act, a, ns[|ns| - 1]); Correct(g, given, act, r, k) && CorrectUpTo(g, given, act, r, k + 1, ns, |ns|)
  {
    var x := |ns| - 1;
    assert CorrectUpTo(g, given, act, a, k + 1, ns, x) by {
      forall i | 0 <= i < x && Timely(g, ns[i], k + 1) ensures a[ns[i]] == Value(g, given, act, ns[i]) { assert ns[..x][i] == ns[i]; }
    }
    if ns[x].nodetype == Input {
      InputIsCorrect(g, given, act, a, k, ns[x]);
    } else {
      ActivationStep(g, given, act, a, Visited(g, act, a, ns[x]), k, ns, x);
    }
  }

  /** A pass makes every node correct that one connection more leads to. */
  lemma {:induction false} PassIsCorrect(g: Graph, given: map<Node, real>, act: real -> real, a: map<Node, real>, k: nat, ns: seq<Node>)
    requires WellRanked(g) && InputsFree(g) && g.ins.Keys <= given.Keys && a.Keys == g.ins.Keys
    requires Correct(g, given, act, a, k) && Lists(g, ns)
    ensures Correct(g, given, act, Passed(g, act, a, ns), k + 1)
  {
    PrefixIsCorrect(g, given, act, a, k, ns);
    AllNodesCorrect(g, given, act, Passed(g, act, a, ns), k + 1, ns);
  }

  lemma {:induction false} PassesAreCorrect(g: Graph, given: map<Node, real>, act: real -> real, ns: seq<Node>, k: nat)
    requires WellRanked(g) && InputsFree(g) && given.Keys == g.ins.Keys && Lists(g, ns)
    ensures Correct(g, given, act, Passes(g, act, given, ns, k), k)
  {
    if k == 0 {
      StartIsCorrect(g, given, act);
    } else {
      PassesAreCorrect(g, given, act, ns, k - 1);
      PassIsCorrect(g, given, act, Passes(g, act, given, ns, k - 1), k - 1, ns);
    }
  }

  lemma {:induction false} AllNodesCorrect(g: Graph, given: map<Node, real>, act: real -> real, a: map<Node, real>, k: nat, ns: seq<Node>)
    requires WellRanked(g) && g.ins.Keys <= given.Keys && g.ins.Keys <= a.Keys
    requires CorrectUpTo(g, given, act, a, k, ns, |ns|)
    requires forall n | n in g.ins :: n in ns
    ensures Correct(g, given, act, a, k)
  {
    forall n | n in g.ins && Timely(g, n, k) ensures a[n] == Value(g, given, act, n) {
      var i :| 0 <= i < |ns| && ns[i] == n;
    }
  }

  // ---------------------------------------------------------------- counters as values

  function At(k: map<Node, int>, n: Node): int { if n in k then k[n] else 0 }

  /** Each counter is zero or the length of a path from an input. */
  ghost predicate Realized(g: Graph, k: map<Node, int>) {
    forall n | n in g.ins :: At(k, n) == 0 || (At(k, n) > 0 && Walk(g, n, At(k, n)))
  }

  /** No connection out of n leads to a counter that n's own would raise. */
  ghost predicate Settled(g: Graph, k: map<Node, int>, n: Node) {
    n in g.outs && Reached(k, g.outs[n], |g.outs[n]|, At(k, n) + 1)
  }

  /** The first x connections lead to counters of at least the given depth. */
  ghost predicate Reached(k: map<Node, int>, cs: seq<Connection>, x: nat, depth: int)
    requires x <= |cs|
  {
    forall i | 0 <= i < x :: At(k, cs[i].dest) >= depth
  }

  /** The first x nodes are settled. */
  ghost predicate AllSettled(g: Graph, k: map<Node, int>, ns: seq<Node>, x: nat)
    requires x <= |ns|
  {
    forall i | 0 <= i < x :: Settled(g, k, ns[i])
  }

  ghost predicate NoneLower(k: map<Node, int>, k': map<Node, int>) {
    k.Keys == k'.Keys && forall n | n in k :: At(k, n) <= At(k', n)
  }

  /** Counters only grow, those that did are settled, and all stand for paths. */
  ghost predicate Raised(g: Graph, k: map<Node, int>, k': map<Node, int>) {
    && Realized(g, k') && NoneLower(k, k')
    && (forall n | n in k && At(k, n) != At(k', n) :: Settled(g, k', n))
  }

  ghost predicate UnchangedUpTo(g: Graph, k: map<Node, int>, k': map<Node, int>, rank: nat) {
    forall n | n in g.rank && g.rank[n] <= rank :: At(k, n) == At(k', n)
  }

  lemma {:induction false} StillReached(k: map<Node, int>, k': map<Node, int>, cs: seq<Connection>, x: nat, depth: int)
    requires x <= |cs| && NoneLower(k, k') && Reached(k, cs, x, depth)
    ensures Reached(k', cs, x, depth)
  {
    forall i | 0 <= i < x ensures At(k', cs[i].dest) >= depth {
      assert At(k, cs[i].dest) <= At(k', cs[i].dest);
    }
  }

  lemma {:induction false} StaysSettled(g: Graph, k: map<Node, int>, k': map<Node, int>, n: Node)
    requires Settled(g, k, n) && Raised(g, k, k')
    ensures Settled(g, k', n)
  {
    if At(k, n) == At(k', n) { StillReached(k, k', g.outs[n], |g.outs[n]|, At(k, n) + 1); }
  }

  lemma {:induction false} RaisedOn(g: Graph, k0: map<Node, int>, k1: map<Node, int>, k2: map<Node, int>)
    requires Raised(g, k0, k1) && Raised(g, k1, k2)
    ensures Raised(g, k0, k2)
  {
    forall n | n in k0 && At(k0, n) != At(k2, n) ensures Settled(g, k2, n) {
      if At(k1, n) == At(k2, n) { StaysSettled(g, k1, k2, n); }
    }
  }

  lemma {:induction false} OneMoreSettled(g: Graph, k: map<Node, int>, k': map<Node, int>, ns: seq<Node>, x: nat)
    requires x < |ns| && AllSettled(g, k, ns, x) && Raised(g, k, k') && Settled(g, k', ns[x])
    ensures AllSettled(g, k', ns, x + 1)
  {
    forall i | 0 <= i < x ensures Settled(g, k', ns[i]) {
      StaysSettled(g, k, k', ns[i]);
    }
  }

  /** One more connection out of n has been looked at. */
  lemma {:induction false} StepOn(g: Graph, rank: nat, k0: map<Node, int>, k1: map<Node, int>, k2: map<Node, int>, cs: seq<Connection>, x: nat, depth: int)
    requires Raised(g, k0, k1) && Raised(g, k1, k2) && x < |cs|
    requires UnchangedUpTo(g, k0, k1, rank) && UnchangedUpTo(g, k1, k2, rank)
    requires Reached(k1, cs, x, depth) && At(k2, cs[x].dest) >= depth
    ensures Raised(g, k0, k2) && UnchangedUpTo(g, k0, k2, rank) && Reached(k2, cs, x + 1, depth)
  {
    RaisedOn(g, k0, k1, k2);
    StillReached(k1, k2, cs, x, depth);
  }

  /** One counter is set to d, and the rest of the raising starts from there. */
  lemma {:induction false} RaisedAt(g: Graph, k0: map<Node, int>, dest: Node, d: int, k2: map<Node, int>)
    requires dest in k0 && k0[dest] < d
    requires Raised(g, k0[dest := d], k2) && Settled(g, k2, dest)
    ensures Raised(g, k0, k2)
  {
    var k1 := k0[dest := d];
    assert forall n | n in k0 && n != dest :: At(k0, n) == At(k1, n);
  }

  lemma {:induction false} WalkOn(g: Graph, c: Connection, k: nat)
    requires Linked(g, c) && Walk(g, c.source, k)
    ensures Walk(g, c.dest, k + 1)
  {
    var i :| 0 <= i < |g.ins[c.dest]| && g.ins[c.dest][i] == c;
  }

  lemma {:induction false} TopRank(g: Graph) returns (top: nat)
    ensures forall n | n in g.rank :: g.rank[n] <= top
  {
    top := 0;
    var rest := g.rank.Keys;
    while rest != {}
      invariant forall n | n in g.rank && n !in rest :: g.rank[n] <= top
      invariant rest <= g.rank.Keys
      decreases rest
    {
      var n :| n in rest;
      if g.rank[n] > top { top := g.rank[n]; }
      rest := rest - {n};
    }
  }

  // ---------------------------------------------------------------- acyclic nets

  ghost predicate Feeds(ins: map<Node, seq<Connection>>, s: Node, d: Node) {
    d in ins && exists i :: 0 <= i < |ins[d]| && ins[d][i].source == s
  }

  /** The edges between the nodes, by their positions in the list. */
  ghost function Wiring(ns: seq<Node>, ins: map<Node, seq<Connection>>): Graphs.Edges {
    set i: nat, j: nat | i < |ns| && j < |ns| && Feeds(ins, ns[i], ns[j]) :: (i, j)
  }

  /** Each connection is listed at both of its ends. */
  ghost predicate TwoEnded(ns: seq<Node>, ins: map<Node, seq<Connection>>, outs: map<Node, seq<Connection>>) {
    && ins.Keys == outs.Keys && (forall n | n in ins :: n in ns) && (forall n | n in ns :: n in ins)
    && (forall n, i | n in ins && 0 <= i < |ins[n]| ::
          ins[n][i].dest == n && ins[n][i].source in outs && ins[n][i] in outs[ins[n][i].source])
    && (forall n, i | n in outs && 0 <= i < |outs[n]| ::
          outs[n][i].source == n && outs[n][i].dest in ins && outs[n][i] in ins[outs[n][i].dest])
  }

  /** A net without cycles has a ranking, so that it can be propagated. */
  lemma {:induction false} AcyclicNetIsRanked(ns: seq<Node>, ins: map<Node, seq<Connection>>, outs: map<Node, seq<Connection>>)
    returns (g: Graph)
    requires TwoEnded(ns, ins, outs) && Graphs.Acyclic(Wiring(ns, ins))
    ensures g.ins == ins && g.outs == outs && WellRanked(g)
  {
    var V := Below(|ns|);
    var byIndex := Graphs.FindRanking(Wiring(ns, ins), V);
    var place := map n | n in ins :: PositionOf(ns, n);
    g := Graph(ins, outs, map n | n in ins :: byIndex[place[n]]);
    forall c: Connection | c.dest in ins && c in ins[c.dest] && c.source in outs && c in outs[c.source] ensures Linked(g, c) {
      var i, j := place[c.source], place[c.dest];
      var k :| 0 <= k < |ins[c.dest]| && ins[c.dest][k] == c;
      assert Feeds(ins, ns[i], ns[j]) && (i, j) in Wiring(ns, ins);
    }
    forall n {:trigger InsLinked(g, n)} | n in g.ins ensures InsLinked(g, n) {}
    forall n {:trigger OutsLinked(g, n)} | n in g.outs ensures OutsLinked(g, n) {}
  }

  ghost function Below(n: nat): (r: set<nat>)
    ensures forall i: nat :: i in r <==> i < n
  {
    if n == 0 then {} else Below(n - 1) + {n - 1}
  }

  ghost function PositionOf(ns: seq<Node>, n: Node): (i: nat)
    requires n in ns
    ensures i < |ns| && ns[i] == n
  {
    if ns[0] == n then 0 else 1 + PositionOf(ns[1..], n)
  }

  /** A ranked net has no cycles. */
  lemma {:induction false} RankedNetIsAcyclic(ns: seq<Node>, g: Graph)
    requires WellRanked(g) && forall i | 0 <= i < |ns| :: ns[i] in g.ins
    ensures Graphs.Acyclic(Wiring(ns, g.ins))
  {
    var E := Wiring(ns, g.ins);
    var V := Below(|ns|);
    var rank: map<nat, nat> := map i: nat | i in V :: g.rank[ns[i]];
    forall e | e in E ensures e.0 in rank && e.1 in rank && rank[e.0] < rank[e.1] {
      var k :| 0 <= k < |g.ins[ns[e.1]]| && g.ins[ns[e.1]][k].source == ns[e.0];
      InLink(g, ns[e.1], k);
    }
    assert Graphs.Ranks(E, rank);
    Graphs.AcyclicIffRanked(E, V);
  }

  /** A hidden node without connections into it spoils the depth: an output that is
      fed by it alone counts as reached by no path, and yet its feed-forward value
      need not be the activation it starts with. */
  lemma {:induction false} OrphanSpoilsDepth(g: Graph, given: map<Node, real>, act: real -> real, h: Node, o: Node)
    requires WellRanked(g) && h in g.ins && o in g.ins && g.ins.Keys <= given.Keys && FedByOrphan(g, h, o)
    ensures Within(g, o, 0) && !FeedForward(g) && Arrives(g, o, 2)
    ensures Value(g, given, act, o) == act(Weighted(g.ins[o][0].weight, act(0.0)))
  {
    assert forall k: nat :: !Walk(g, h, k);
    assert Arrives(g, g.ins[o][0].source, 1);
    assert WeightedSum(g, given, act, h, 0) == 0.0;
    assert Value(g, given, act, h) == act(0.0);
    assert WeightedSum(g, given, act, o, 1) == WeightedSum(g, given, act, o, 0) + Weighted(g.ins[o][0].weight, Value(g, given, act, h));
  }

  ghost predicate FedByOrphan(g: Graph, h: Node, o: Node)
    requires h in g.ins && o in g.ins
  {
    && h.nodetype == Hidden && o.nodetype == Output && g.ins[h] == []
    && |g.ins[o]| == 1 && g.ins[o][0].source == h
  }

  /** The failing run: such an output that is the only one keeps the activation it
      starts with, so that it ends wrong unless that happens to be its value. */
  method RunBesideOrphan(net: Ann, ghost g: Graph, ghost h: Node, o: Node)
    requires net.Valid(g) && InputsFree(g) && net.outputs == [o] && h in g.ins && o in g.ins && FedByOrphan(g, h, o)
    modifies g.ins.Keys`counter, g.ins.Keys`incoming, g.ins.Keys`activation
    ensures o.activation == old(o.activation)
    ensures o.activation == Value(g, old(net.Activations(g)), net.activationFn, o) <==>
            old(o.activation) == net.activationFn(Weighted(g.ins[o][0].weight, net.activationFn(0.0)))
  {
    assert o in net.outputs;
    ghost var given := net.Activations(g);
    OrphanSpoilsDepth(g, given, net.activationFn, h, o);
    var depth := net.Run(g);
    assert depth == 0;
    assert net.Activations(g)[o] == given[o];
  }
  // ---------------------------------------------------------------- when passes are too few

  /** All weights are one. */
  ghost predicate Ones(g: Graph) {
    forall n, i | n in g.ins && 0 <= i < |g.ins[n]| :: g.ins[n][i].weight == 1.0
  }

  ghost predicate Identity(act: real -> real) { forall x :: act(x) == x }

  /** Nodes stand behind those that they lead to. */
  ghost predicate Backwards(g: Graph, ns: seq<Node>) {
    && (forall n | n in ns :: n in g.ins && n in g.rank)
    && forall i, j | 0 <= i < j < |ns| :: g.rank[ns[i]] >= g.rank[ns[j]]
  }

  /** Zero on the inputs, one on all other nodes. */
  ghost function Idle(g: Graph): map<Node, real> {
    map n | n in g.ins :: if n.nodetype == Input then 0.0 else 1.0
  }

  lemma {:induction false} IdleValueIsZero(g: Graph, act: real -> real, n: Node, k: nat)
    requires WellRanked(g) && Ones(g) && Identity(act) && n in g.ins && k <= |g.ins[n]|
    ensures WeightedSum(g, Idle(g), act, n, k) == 0.0
    decreases g.rank[n], k
  {
    if k > 0 {
      InLink(g, n, k - 1);
      var m := g.ins[n][k - 1].source;
      IdleValueIsZero(g, act, n, k - 1);
      IdleValueIsZero(g, act, m, |g.ins[m]|);
      assert Value(g, Idle(g), act, m) == 0.0;
    }
  }

  /** Activations are not negative, and those that something is still to reach after k
      passes are at least one. */
  ghost predicate Lingering(g: Graph, a: map<Node, real>, k: nat) {
    && a.Keys == g.ins.Keys
    && forall n | n in g.ins :: a[n] >= 0.0 && (!Timely(g, n, k) ==> a[n] >= 1.0)
  }

  lemma {:induction false} IncomingFloor(a: map<Node, real>, cs: seq<Connection>, y: nat)
    requires y <= |cs| && (forall i | 0 <= i < |cs| :: cs[i].weight == 1.0) && forall n | n in a :: a[n] >= 0.0
    ensures Incoming(a, cs, y) >= 0.0
    ensures forall i | 0 <= i < y :: Incoming(a, cs, y) >= ActivationIn(a, cs[i].source)
  {
    if y > 0 { IncomingFloor(a, cs, y - 1); }
  }

  lemma {:induction false} InputsAreTimely(g: Graph, n: Node, k: nat)
    requires InputsFree(g) && n in g.ins && n.nodetype == Input
    ensures Timely(g, n, k)
  {
    assert forall j: nat | j > 0 :: !Arrives(g, n, j);
  }

  /** What arrives late at a node arrives late at a source of it. */
  lemma {:induction false} LateSource(g: Graph, n: Node, k: nat) returns (i: nat)
    requires n in g.ins && !Timely(g, n, k + 1)
    ensures i < |g.ins[n]| && !Timely(g, g.ins[n][i].source, k)
  {
    var j: nat :| Arrives(g, n, j) && j > k + 1;
    i :| 0 <= i < |g.ins[n]| && Arrives(g, g.ins[n][i].source, j - 1);
  }

  /** Where nodes are visited before their sources, a pass moves things on by one
      connection only. */
  lemma {:induction false} BackwardPass(g: Graph, act: real -> real, a: map<Node, real>, k: nat, ns: seq<Node>)
    requires WellRanked(g) && InputsFree(g) && Ones(g) && Identity(act) && Backwards(g, ns) && Lingering(g, a, k)
    ensures var r := Passed(g, act, a, ns);
            && r.Keys == g.ins.Keys && (forall n | n in g.ins :: r[n] >= 0.0)
            && (forall n | n in g.ins && n !in ns :: r[n] == a[n])
            && forall n | n in ns && !Timely(g, n, k + 1) :: r[n] >= 1.0
    decreases |ns|
  {
    if ns != [] {
      var front, n := ns[..|ns| - 1], ns[|ns| - 1];
      BackwardPass(g, act, a, k, front);
      if n.nodetype == Input {
        InputsAreTimely(g, n, k + 1);
      } else {
        BackwardVisit(g, a, Passed(g, act, a, front), k, front, n);
      }
    }
  }

  lemma {:induction false} BackwardVisit(g: Graph, a: map<Node, real>, r: map<Node, real>, k: nat, front: seq<Node>, n: Node)
    requires WellRanked(g) && Ones(g) && Lingering(g, a, k) && n in g.ins
    requires r.Keys == g.ins.Keys && (forall n | n in g.ins :: r[n] >= 0.0) && (forall n | n in g.ins && n !in front :: r[n] == a[n])
    requires forall m | m in front :: m in g.rank && g.rank[m] >= g.rank[n]
    ensures var sum := Incoming(r, g.ins[n], |g.ins[n]|); sum >= 0.0 && (!Timely(g, n, k + 1) ==> sum >= 1.0)
  {
    IncomingFloor(r, g.ins[n], |g.ins[n]|);
    if !Timely(g, n, k + 1) {
      var i := LateSource(g, n, k);
      InLink(g, n, i);
      assert g.ins[n][i].source !in front;
    }
  }

  lemma {:induction false} LingeringPasses(g: Graph, act: real -> real, ns: seq<Node>, k: nat)
    requires WellRanked(g) && InputsFree(g) && Ones(g) && Identity(act) && Backwards(g, ns) && Lists(g, ns)
    ensures Lingering(g, Passes(g, act, Idle(g), ns, k), k)
  {
    if k == 0 {
      forall n | n in g.ins && n.nodetype == Input ensures Timely(g, n, 0) { InputsAreTimely(g, n, 0); }
    } else {
      LingeringPasses(g, act, ns, k - 1);
      assert forall n | n in g.ins :: n in ns;
      BackwardPass(g, act, Passes(g, act, Idle(g), ns, k - 1), k - 1, ns);
    }
  }

  /** There is such an order. */
  lemma {:induction false} BackwardOrder(g: Graph, S: set<Node>) returns (ns: seq<Node>)
    requires S <= g.ins.Keys && S <= g.rank.Keys
    ensures Backwards(g, ns) && forall n :: n in ns <==> n in S
    decreases |S|
  {
    if S == {} {
      ns := [];
    } else {
      var n := LowestNode(g, S);
      var front := BackwardOrder(g, S - {n});
      ns := front + [n];
      forall m ensures m in ns <==> m in S { assert m in front <==> m in S - {n}; }
    }
  }

  lemma {:induction false} LowestNode(g: Graph, S: set<Node>) returns (n: Node)
    requires S != {} && S <= g.rank.Keys
    ensures n in S && forall m | m in S :: g.rank[n] <= g.rank[m]
    decreases |S|
  {
    n :| n in S;
    if S != {n} {
      assert S - {n} != {};
      var m := LowestNode(g, S - {n});
      if g.rank[m] < g.rank[n] { n := m; }
    }
  }

  /** Exactly when k passes are enough, where all weights are one: they bring the node to
      its feed-forward value for every activation function, every order of the nodes and
      all activations to start with, if and only if everything that reaches it has done
      so by then. */
  lemma {:induction false} EnoughPassesExactly(g: Graph, o: Node, k: nat)
    requires WellRanked(g) && InputsFree(g) && Ones(g) && o in g.ins
    ensures Timely(g, o, k) <==>
            forall given: map<Node, real>, ns, act | given.Keys == g.ins.Keys && Lists(g, ns) ::
              Passes(g, act, given, ns, k)[o] == Value(g, given, act, o)
  {
    if Timely(g, o, k) {
      forall given: map<Node, real>, ns, act | given.Keys == g.ins.Keys && Lists(g, ns)
        ensures Passes(g, act, given, ns, k)[o] == Value(g, given, act, o)
      {
        PassesAreCorrect(g, given, act, ns, k);
      }
    } else {
      var ns := BackwardOrder(g, g.ins.Keys);
      var act := x => x;
      LatePasses(g, act, ns, o, k);
    }
  }

  lemma {:induction false} LatePasses(g: Graph, act: real -> real, ns: seq<Node>, o: Node, k: nat)
    requires WellRanked(g) && InputsFree(g) && Ones(g) && o in g.ins && !Timely(g, o, k)
    requires Identity(act) && Backwards(g, ns) && Lists(g, ns)
    ensures Idle(g).Keys == g.ins.Keys
    ensures Passes(g, act, Idle(g), ns, k)[o] >= 1.0 && Value(g, Idle(g), act, o) == 0.0
  {
    LingeringPasses(g, act, ns, k);
    IdleValueIsZero(g, act, o, |g.ins[o]|);
  }

  /** The failing run of any net with an output that something reaches later than the
      depth: all weights one, no activation function, the nodes back to front, and
      activations of one to start with except on the inputs. */
  method RunTooShort(net: Ann, ghost g: Graph, o: Node)
    requires net.Valid(g) && InputsFree(g) && Ones(g) && Identity(net.activationFn) && Backwards(g, net.nodes)
    requires o in net.outputs && !net.InTime(g, o) && net.Activations(g) == Idle(g)
    modifies g.ins.Keys`counter, g.ins.Keys`incoming, g.ins.Keys`activation
    ensures o.activation >= 1.0 && Value(g, old(net.Activations(g)), net.activationFn, o) == 0.0
  {
    var depth := net.Run(g);
    LateForDepth(net, g, o, depth);
    LatePasses(g, net.activationFn, net.nodes, o, depth);
    assert net.Activations(g)[o] == o.activation;
  }

  lemma {:induction false} LateForDepth(net: Ann, g: Graph, o: Node, depth: nat)
    requires !net.InTime(g, o) && (depth == 0 || exists p :: p in net.outputs && Walk(g, p, depth))
    ensures !Timely(g, o, depth)
  {
    var j: nat :| Arrives(g, o, j) && j != 0 && !exists p, k: nat :: p in net.outputs && j <= k && Walk(g, p, k);
  }
}
