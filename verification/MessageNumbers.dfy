/** The 16-bit message numbers by which late and duplicate voice packets are recognised. */
module MessageNumbers {

  const NUMBERS: int := 0x1_0000

  /** The number a packet carries for the `n`-th message. */
  function Wrapped(n: int): (m: nat)
    ensures m < NUMBERS
  {
    n % 0x1_0000
  }

  /** The test on arrival: the unsigned 16-bit difference is at most 32767. */
  predicate Accepts(expected: nat, number: nat)
    requires expected < NUMBERS && number < NUMBERS
  {
    Wrapped(number - expected) <= 0x7fff
  }

  /** The difference of wrapped numbers is the wrapped difference. */
  lemma WrappedDifference(n: int, e: int)
    ensures Wrapped(Wrapped(n) - Wrapped(e)) == Wrapped(n - e)
  {
    var a, b := n / 0x1_0000, e / 0x1_0000;
    assert n == a * 0x1_0000 + Wrapped(n) && e == b * 0x1_0000 + Wrapped(e);
    assert n - e == (a - b) * 0x1_0000 + (Wrapped(n) - Wrapped(e));
  }

  lemma WrappedSum(n: int, k: int)
    ensures Wrapped(Wrapped(n) + k) == Wrapped(n + k)
  {
    var a := n / 0x1_0000;
    assert n + k == a * 0x1_0000 + (Wrapped(n) + k);
  }

  /** The test tells new messages from old ones exactly within a window of half the numbers on
      either side (for messages less than a full turn away). */
  lemma AcceptsExactly(n: int, e: int)
    requires -NUMBERS < n - e < NUMBERS
    ensures (Accepts(Wrapped(e), Wrapped(n)) <==> n >= e) <==> -0x8000 <= n - e <= 0x7fff
  {
    WrappedDifference(n, e);
  }

  // ---------------------------------------------------------------- runs

  datatype Outcome = Outcome(accepted: seq<int>, next: int)

  /** Which of the messages `ns` get through when only their 16-bit numbers and the 16-bit expected
      number are looked at; `next` is that field afterwards. */
  function Receive(expected: nat, ns: seq<int>): Outcome
    requires expected < NUMBERS
    decreases |ns|
  {
    if ns == [] then Outcome([], expected)
    else if Accepts(expected, Wrapped(ns[0])) then
      var rest := Receive(Wrapped(Wrapped(ns[0]) + 1), ns[1..]);
      Outcome([ns[0]] + rest.accepted, rest.next)
    else Receive(expected, ns[1..])
  }

  /** Which of them should get through: those not before the next message expected. */
  function Ideal(expected: int, ns: seq<int>): Outcome
    decreases |ns|
  {
    if ns == [] then Outcome([], expected)
    else if ns[0] >= expected then
      var rest := Ideal(ns[0] + 1, ns[1..]);
      Outcome([ns[0]] + rest.accepted, rest.next)
    else Ideal(expected, ns[1..])
  }

  /** No arrival is more than half the numbers away from what is expected when it comes. */
  predicate InWindow(expected: int, ns: seq<int>)
    decreases |ns|
  {
    ns == [] ||
    (-0x8000 <= ns[0] - expected <= 0x7fff && InWindow(if ns[0] >= expected then ns[0] + 1 else expected, ns[1..]))
  }

  /** Within the window 16 bits are enough, under any reordering, loss or duplication. */
  lemma {:induction false} ReceiveIsIdeal(expected: int, ns: seq<int>)
    requires InWindow(expected, ns)
    ensures Receive(Wrapped(expected), ns).accepted == Ideal(expected, ns).accepted
    ensures Receive(Wrapped(expected), ns).next == Wrapped(Ideal(expected, ns).next)
    decreases |ns|
  {
    if ns != [] {
      AcceptsExactly(ns[0], expected);
      if ns[0] >= expected {
        assert Wrapped(Wrapped(ns[0]) + 1) == Wrapped(ns[0] + 1);
        ReceiveIsIdeal(ns[0] + 1, ns[1..]);
      } else {
        ReceiveIsIdeal(expected, ns[1..]);
      }
    }
  }

  /** What gets through comes in strictly increasing order, so never twice. */
  lemma {:induction false} IdealIncreases(expected: int, ns: seq<int>)
    ensures var a := Ideal(expected, ns);
            && (forall k | 0 <= k < |a.accepted| :: expected <= a.accepted[k] < a.next)
            && (forall j, k | 0 <= j < k < |a.accepted| :: a.accepted[j] < a.accepted[k])
            && expected <= a.next
    decreases |ns|
  {
    if ns != [] {
      if ns[0] >= expected {
        IdealIncreases(ns[0] + 1, ns[1..]);
      } else {
        IdealIncreases(expected, ns[1..]);
      }
    }
  }

  /** `n` arrives at some point before which nothing as late as `n` has arrived. */
  predicate ArrivesFirst(ns: seq<int>, n: int) {
    exists j :: 0 <= j < |ns| && ns[j] == n && Latest(ns, j)
  }

  predicate Latest(ns: seq<int>, j: nat)
    requires j < |ns|
  {
    forall i | 0 <= i < j :: ns[i] < ns[j]
  }

  /** A message gets through exactly when it is not before what is expected at the start and arrives
      before every later message and every copy of itself. */
  lemma {:induction false} IdealLatest(expected: int, ns: seq<int>, n: int)
    ensures n in Ideal(expected, ns).accepted <==> n >= expected && ArrivesFirst(ns, n)
    decreases |ns|
  {
    if ns != [] {
      var first, rest := ns[0], ns[1..];
      LatestRest(ns, n);
      if first >= expected {
        IdealLatest(first + 1, rest, n);
      } else {
        IdealLatest(expected, rest, n);
      }
    }
  }

  lemma LatestRest(ns: seq<int>, n: int)
    requires ns != []
    ensures ArrivesFirst(ns, n) <==> ns[0] == n || (ns[0] < n && ArrivesFirst(ns[1..], n))
  {
    var rest := ns[1..];
    if ns[0] == n {
      assert Latest(ns, 0);
    } else {
      forall j | 0 <= j < |rest| ensures Latest(ns, j + 1) <==> ns[0] < ns[j + 1] && Latest(rest, j) {
        assert forall i | 0 <= i < j :: ns[i + 1] == rest[i];
        assert Latest(rest, j) && ns[0] < ns[j + 1] ==> forall i | 0 < i < j + 1 :: ns[i] == rest[i - 1] < ns[j + 1];
      }
      if ArrivesFirst(ns, n) {
        var j :| 0 <= j < |ns| && ns[j] == n && Latest(ns, j);
        assert rest[j - 1] == n && Latest(ns, j - 1 + 1) && Latest(rest, j - 1);
      }
      if ns[0] < n && ArrivesFirst(rest, n) {
        var j :| 0 <= j < |rest| && rest[j] == n && Latest(rest, j);
        assert ns[j + 1] == n && Latest(ns, j + 1);
      }
    }
  }
}
