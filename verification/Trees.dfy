/** The abstract value of the n-ary tree container: a label with an ordered list of subtrees. */
module Trees {
  datatype Tree<+T> = Node(op: T, kids: seq<Tree<T>>)

  function Last<T>(ts: seq<T>): T
    requires ts != []
  {
    ts[|ts| - 1]
  }

  /** Number of nodes. */
  function Size<T>(t: Tree<T>): (n: nat)
    ensures n > 0
  {
    1 + SizeAll(t.kids)
  }

  function SizeAll<T>(ts: seq<Tree<T>>): (n: nat)
    ensures forall i | 0 <= i < |ts| :: Size(ts[i]) <= n
  {
    if ts == [] then 0 else Size(ts[0]) + SizeAll(ts[1..])
  }
}
