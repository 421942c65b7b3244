/** Bytes as the numbers 0 to 255, and the two orders the patch maker compares them with. */
module Bytes {

  type Byte = x: int | 0 <= x < 256

  /** The usual lexicographic order: at the first difference the smaller byte wins, and a
      proper prefix comes before the whole. */
  ghost predicate LexLess(x: seq<Byte>, y: seq<Byte>) {
    exists k: nat :: LexLessAt(x, y, k)
  }

  ghost predicate LexLessAt(x: seq<Byte>, y: seq<Byte>, k: nat) {
    && k <= |x| && k < |y|
    && x[..k] == y[..k]
    && (k == |x| || x[k] < y[k])
  }

  /** How many bytes `x` and `y` have in common at their start. */
  function CommonPrefix(x: seq<Byte>, y: seq<Byte>): (k: nat)
    ensures k <= |x| && k <= |y| && x[..k] == y[..k]
    ensures k < |x| && k < |y| ==> x[k] != y[k]
  {
    if x == [] || y == [] || x[0] != y[0] then 0
    else
      var k := CommonPrefix(x[1..], y[1..]);
      assert x[..k + 1] == [x[0]] + x[1..][..k];
      assert y[..k + 1] == [y[0]] + y[1..][..k];
      k + 1
  }

  /** The two clauses of `CommonPrefix` leave one answer only. */
  lemma CommonPrefixUnique(x: seq<Byte>, y: seq<Byte>, k: nat)
    requires k <= |x| && k <= |y| && x[..k] == y[..k]
    requires k < |x| && k < |y| ==> x[k] != y[k]
    ensures k == CommonPrefix(x, y)
  {
    assert forall i :: 0 <= i < k ==> x[i] == x[..k][i] == y[..k][i] == y[i];
  }

  /** Lexicographic order is decided right after the common prefix. */
  lemma LexLessAfterPrefix(x: seq<Byte>, y: seq<Byte>)
    ensures var k := CommonPrefix(x, y); LexLess(x, y) <==> k < |y| && (k == |x| || x[k] < y[k])
  {
    var k := CommonPrefix(x, y);
    assert k < |y| && (k == |x| || x[k] < y[k]) ==> LexLessAt(x, y, k);
    if LexLess(x, y) {
      var m: nat :| LexLessAt(x, y, m);
      CommonPrefixUnique(x, y, m);
    }
  }
}
