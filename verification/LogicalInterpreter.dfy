/** Element-wise operations on whole columns. */
module LogicalInterpreter {

  method LogicalAnd(p1: seq<bool>, p2: seq<bool>) returns (r: seq<bool>)
    requires |p1| == |p2|
    ensures |r| == |p1| && forall i | 0 <= i < |r| :: r[i] == (p1[i] && p2[i])
  {
    r := [];
    for i := 0 to |p1|
      invariant |r| == i && forall k | 0 <= k < i :: r[k] == (p1[k] && p2[k])
    {
      if p1[i] && p2[i] { r := r + [true]; } else { r := r + [false]; }
    }
  }

  method LogicalOr(p1: seq<bool>, p2: seq<bool>) returns (r: seq<bool>)
    requires |p1| == |p2|
    ensures |r| == |p1| && forall i | 0 <= i < |r| :: r[i] == (p1[i] || p2[i])
  {
    r := [];
    for i := 0 to |p1|
      invariant |r| == i && forall k | 0 <= k < i :: r[k] == (p1[k] || p2[k])
    {
      if p1[i] || p2[i] { r := r + [true]; } else { r := r + [false]; }
    }
  }

  method LogicalNot(p: seq<bool>) returns (r: seq<bool>)
    ensures |r| == |p| && forall i | 0 <= i < |r| :: r[i] == !p[i]
  {
    r := [];
    for i := 0 to |p|
      invariant |r| == i && forall k | 0 <= k < i :: r[k] == !p[k]
    {
      r := r + [if p[i] then false else true];
    }
  }

  method GreaterThan(p1: seq<real>, p2: seq<real>) returns (r: seq<bool>)
    requires |p1| == |p2|
    ensures |r| == |p1| && forall i | 0 <= i < |r| :: r[i] == (p1[i] > p2[i])
  {
    r := [];
    for i := 0 to |p1|
      invariant |r| == i && forall k | 0 <= k < i :: r[k] == (p1[k] > p2[k])
    {
      r := r + [p1[i] > p2[i]];
    }
  }

  /** The library's addition and multiplication of equally long number vectors. */
  function PlusColumns(p1: seq<real>, p2: seq<real>): (r: seq<real>)
    requires |p1| == |p2|
    ensures |r| == |p1| && forall i | 0 <= i < |r| :: r[i] == p1[i] + p2[i]
  {
    seq(|p1|, i requires 0 <= i < |p1| => p1[i] + p2[i])
  }

  function TimesColumns(p1: seq<real>, p2: seq<real>): (r: seq<real>)
    requires |p1| == |p2|
    ensures |r| == |p1| && forall i | 0 <= i < |r| :: r[i] == p1[i] * p2[i]
  {
    seq(|p1|, i requires 0 <= i < |p1| => p1[i] * p2[i])
  }
}
