/** The order of the suffixes of a byte string, each suffix named by the position it starts at.
    Position |s| is the empty suffix. */
module Suffixes {
  import opened Bytes

  /** Suffix `a` comes strictly before suffix `b`. */
  predicate Less(s: seq<Byte>, a: nat, b: nat)
    requires a <= |s| && b <= |s|
    decreases |s| - a
  {
    if b == |s| then false
    else if a == |s| then true
    else if s[a] != s[b] then s[a] < s[b]
    else Less(s, a + 1, b + 1)
  }

  /** Suffixes `a` and `b` share their first `h` bytes.  Two different suffixes do so only when
      both are at least `h` bytes long. */
  ghost predicate Agree(s: seq<Byte>, a: nat, b: nat, h: nat)
    requires a <= |s| && b <= |s|
  {
    a == b || (a + h <= |s| && b + h <= |s| && s[a..a + h] == s[b..b + h])
  }

  lemma {:induction false} LessTotal(s: seq<Byte>, a: nat, b: nat)
    requires a <= |s| && b <= |s|
    ensures a == b ==> !Less(s, a, b)
    ensures a != b ==> Less(s, a, b) != Less(s, b, a)
    decreases |s| - a
  {
    if a < |s| && b < |s| && s[a] == s[b] {
      LessTotal(s, a + 1, b + 1);
    }
  }

  /** Dropping a shared prefix does not change the order. */
  lemma {:induction false} LessAfterAgreement(s: seq<Byte>, a: nat, b: nat, h: nat)
    requires a + h <= |s| && b + h <= |s|
    requires Agree(s, a, b, h)
    ensures Less(s, a, b) == Less(s, a + h, b + h)
    decreases h
  {
    if a == b {
      LessTotal(s, a, b);
      LessTotal(s, a + h, b + h);
    } else if h > 0 {
      assert s[a] == s[a..a + h][0] == s[b..b + h][0] == s[b];
      assert s[a + 1..a + h] == s[a..a + h][1..] == s[b..b + h][1..] == s[b + 1..b + h];
      LessAfterAgreement(s, a + 1, b + 1, h - 1);
    }
  }

  lemma AgreeTwice(s: seq<Byte>, a: nat, b: nat, g: nat, h: nat)
    requires a + g <= |s| && b + g <= |s|
    requires Agree(s, a, b, g) && Agree(s, a + g, b + g, h)
    ensures Agree(s, a, b, g + h)
  {
    if a != b {
      assert s[a..a + g + h] == s[a..a + g] + s[a + g..a + g + h];
      assert s[b..b + g + h] == s[b..b + g] + s[b + g..b + g + h];
    }
  }

  /** `Less` is the lexicographic order of the byte strings themselves. */
  lemma {:induction false} LessIsLexicographic(s: seq<Byte>, a: nat, b: nat)
    requires a <= |s| && b <= |s|
    ensures Less(s, a, b) <==> LexLess(s[a..], s[b..])
    decreases |s| - a
  {
    hide LexLess;
    var x, y := s[a..], s[b..];
    LexLessAfterPrefix(x, y);
    if a < |s| && b < |s| && s[a] == s[b] {
      assert x[1..] == s[a + 1..] && y[1..] == s[b + 1..];
      LexLessAfterPrefix(x[1..], y[1..]);
      LessIsLexicographic(s, a + 1, b + 1);
      var k := CommonPrefix(x[1..], y[1..]);
      assert CommonPrefix(x, y) == k + 1;
      assert k < |x[1..]| ==> x[1..][k] == x[k + 1];
      assert k < |y[1..]| ==> y[1..][k] == y[k + 1];
    }
  }
}
