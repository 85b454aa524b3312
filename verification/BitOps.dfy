/** Words as sequences of bits, least significant first, and the operators of the source on words of any one width. */
module BitOps {
  function And(x: seq<bool>, y: seq<bool>): (r: seq<bool>)
    requires |x| == |y|
    ensures |r| == |x| && forall i :: 0 <= i < |x| ==> r[i] == (x[i] && y[i])
  { seq(|x|, i requires 0 <= i < |x| => x[i] && y[i]) }

  function Or(x: seq<bool>, y: seq<bool>): (r: seq<bool>)
    requires |x| == |y|
    ensures |r| == |x| && forall i :: 0 <= i < |x| ==> r[i] == (x[i] || y[i])
  { seq(|x|, i requires 0 <= i < |x| => x[i] || y[i]) }

  function Xor(x: seq<bool>, y: seq<bool>): (r: seq<bool>)
    requires |x| == |y|
    ensures |r| == |x| && forall i :: 0 <= i < |x| ==> r[i] == (x[i] != y[i])
  { seq(|x|, i requires 0 <= i < |x| => x[i] != y[i]) }

  function Not(x: seq<bool>): (r: seq<bool>)
    ensures |r| == |x| && forall i :: 0 <= i < |x| ==> r[i] == !x[i]
  { seq(|x|, i requires 0 <= i < |x| => !x[i]) }

  function Shl(x: seq<bool>, s: nat): (r: seq<bool>)
    ensures |r| == |x| && forall i :: 0 <= i < |x| ==> r[i] == (i >= s && x[i - s])
  { seq(|x|, i requires 0 <= i < |x| => i >= s && x[i - s]) }

  function Shr(x: seq<bool>, s: nat): (r: seq<bool>)
    ensures |r| == |x| && forall i :: 0 <= i < |x| ==> r[i] == (i + s < |x| && x[i + s])
  { seq(|x|, i requires 0 <= i < |x| => i + s < |x| && x[i + s]) }
}
