/** When a receiving channel is heard: output is held back until enough is waiting, and every frame gets
    at most one block.  Said of whole runs, with the number of bytes that are waiting. */
module Playback {
  import opened Bytes
  import opened VoiceRing
  import opened IncomingVoice
  import opened IncomingRuns

  /** How many bytes are waiting after the first `k` events. */
  ghost function Waiting(s: Inbound, evs: seq<Event>, k: nat, size: nat): nat
    requires Sound(s, size) && Fit(evs, |s.ring.buf|) && k <= |evs|
  {
    |Run(s, evs[..k], size).ring.Queue()|
  }

  /** After `k` events the channel has its block in the frame: some visit has shortened the queue, and no
      frame has been begun since. */
  ghost predicate Played(s: Inbound, evs: seq<Event>, k: nat, size: nat)
    requires Sound(s, size) && Fit(evs, |s.ring.buf|) && k <= |evs|
  {
    exists j :: 0 <= j < k && PlaysAt(s, evs, j, k, size)
  }

  ghost predicate PlaysAt(s: Inbound, evs: seq<Event>, j: nat, k: nat, size: nat)
    requires Sound(s, size) && Fit(evs, |s.ring.buf|) && j < k <= |evs|
  {
    && evs[j].Poll? && Waiting(s, evs, j + 1, size) < Waiting(s, evs, j, size)
    && forall m | j < m < k :: !evs[m].NewFrame?
  }

  /** Event `k` is a visit at which the channel may still contribute to the frame. */
  ghost predicate Open(s: Inbound, evs: seq<Event>, k: nat, size: nat)
    requires Sound(s, size) && Fit(evs, |s.ring.buf|) && k < |evs|
  {
    evs[k].Poll? && !Played(s, evs, k, size)
  }

  /** Some open visit has found more than two blocks, and none since has found nothing. */
  ghost predicate Started(s: Inbound, evs: seq<Event>, k: nat, size: nat)
    requires Sound(s, size) && Fit(evs, |s.ring.buf|) && k <= |evs|
  {
    exists j :: 0 <= j < k && StartsAt(s, evs, j, k, size)
  }

  ghost predicate StartsAt(s: Inbound, evs: seq<Event>, j: nat, k: nat, size: nat)
    requires Sound(s, size) && Fit(evs, |s.ring.buf|) && j < k <= |evs|
  {
    && Open(s, evs, j, size) && Waiting(s, evs, j, size) > 2 * size
    && forall m | j < m < k && Open(s, evs, m, size) :: Waiting(s, evs, m, size) > 0
  }

  // ---------------------------------------------------------------- the two flags

  /** One more event of a run. */
  lemma RunNext(s: Inbound, evs: seq<Event>, k: nat, size: nat)
    requires Sound(s, size) && Fit(evs, |s.ring.buf|) && k < |evs|
    ensures var t := Run(s, evs[..k], size);
            && |t.ring.buf| == |s.ring.buf| && (evs[k].Arrive? ==> |evs[k].data| <= |t.ring.buf|)
            && Run(s, evs[..k + 1], size) == Step(t, evs[k], size)
            && AllOut(s, evs[..k + 1], size) == AllOut(s, evs[..k], size) + Out(t, evs[k], size)
  {
    hide Step, Out;
    assert evs[..k + 1] == evs[..k] + [evs[k]];
    OneMore(s, evs[..k], evs[k], size);
  }

  lemma {:induction false} OneMore(s: Inbound, e: seq<Event>, ev: Event, size: nat)
    requires Sound(s, size) && Fit(e, |s.ring.buf|) && (ev.Arrive? ==> |ev.data| <= |s.ring.buf|)
    ensures Fit(e + [ev], |s.ring.buf|) && |Run(s, e, size).ring.buf| == |s.ring.buf|
    ensures Run(s, e + [ev], size) == Step(Run(s, e, size), ev, size)
    ensures AllOut(s, e + [ev], size) == AllOut(s, e, size) + Out(Run(s, e, size), ev, size)
    decreases |e|
  {
    hide Step, Out;
    if e == [] {
      assert ([] + [ev])[1..] == [];
      StepSound(s, ev, size);
    } else {
      StepSound(s, e[0], size);
      assert (e + [ev])[1..] == e[1..] + [ev];
      OneMore(Step(s, e[0], size), e[1..], ev, size);
    }
  }

  lemma PlayedNext(s: Inbound, evs: seq<Event>, k: nat, size: nat)
    requires Sound(s, size) && Fit(evs, |s.ring.buf|) && k < |evs|
    ensures Played(s, evs, k + 1, size) <==>
              !evs[k].NewFrame? && (Played(s, evs, k, size)
                || (evs[k].Poll? && Waiting(s, evs, k + 1, size) < Waiting(s, evs, k, size)))
  {
    hide Waiting;
    if Played(s, evs, k + 1, size) {
      var j :| 0 <= j < k + 1 && PlaysAt(s, evs, j, k + 1, size);
      assert j < k ==> PlaysAt(s, evs, j, k, size);
    }
    if Played(s, evs, k, size) && !evs[k].NewFrame? {
      var j :| 0 <= j < k && PlaysAt(s, evs, j, k, size);
      assert PlaysAt(s, evs, j, k + 1, size);
    }
    if evs[k].Poll? && Waiting(s, evs, k + 1, size) < Waiting(s, evs, k, size) {
      assert PlaysAt(s, evs, k, k + 1, size);
    }
  }

  lemma StartedNext(s: Inbound, evs: seq<Event>, k: nat, size: nat)
    requires Sound(s, size) && Fit(evs, |s.ring.buf|) && k < |evs|
    ensures Started(s, evs, k + 1, size) <==>
              if Open(s, evs, k, size)
              then Waiting(s, evs, k, size) > 2 * size || (Started(s, evs, k, size) && Waiting(s, evs, k, size) > 0)
              else Started(s, evs, k, size)
  {
    hide Waiting, Open;
    if Started(s, evs, k + 1, size) {
      var j :| 0 <= j < k + 1 && StartsAt(s, evs, j, k + 1, size);
      assert j < k ==> StartsAt(s, evs, j, k, size);
    }
    if Started(s, evs, k, size) && (Open(s, evs, k, size) ==> Waiting(s, evs, k, size) > 0) {
      var j :| 0 <= j < k && StartsAt(s, evs, j, k, size);
      assert StartsAt(s, evs, j, k + 1, size);
    }
    if Open(s, evs, k, size) && Waiting(s, evs, k, size) > 2 * size {
      assert StartsAt(s, evs, k, k + 1, size);
    }
  }

  /** What the two flags of a channel remember of its run. */
  lemma {:induction false} FlagsRemember(s: Inbound, evs: seq<Event>, k: nat, size: nat)
    requires Opened(s, size) && Fit(evs, |s.ring.buf|) && k <= |evs|
    ensures Run(s, evs[..k], size).copied <==> Played(s, evs, k, size)
    ensures Run(s, evs[..k], size).buffering <==> !Started(s, evs, k, size)
  {
    hide Step, Out, Played, Started;
    if k == 0 {
      NothingPlayed(s, evs, size);
    } else {
      FlagsRemember(s, evs, k - 1, size);
      RunNext(s, evs, k - 1, size);
      PlayedNext(s, evs, k - 1, size);
      StartedNext(s, evs, k - 1, size);
      FlagsStep(Run(s, evs[..k - 1], size), evs[k - 1], size);
    }
  }

  lemma NothingPlayed(s: Inbound, evs: seq<Event>, size: nat)
    requires Sound(s, size) && Fit(evs, |s.ring.buf|)
    ensures Run(s, evs[..0], size) == s && !Played(s, evs, 0, size) && !Started(s, evs, 0, size)
  {
  }

  lemma FlagsStep(t: Inbound, ev: Event, size: nat)
    requires Sound(t, size) && (ev.Arrive? ==> |ev.data| <= |t.ring.buf|)
    ensures var u := Step(t, ev, size);
            Sound(u, size) && match ev
              case Arrive(_) => u.copied == t.copied && u.buffering == t.buffering
              case NewFrame => !u.copied && u.buffering == t.buffering && u.ring == t.ring
              case Poll =>
                var q := t.ring.Queue();
                var n := if t.copied || (t.buffering && |q| <= 2 * size) then 0 else if |q| < size then |q| else size;
                && u.ring.Queue() == q[n..] && Out(t, ev, size) == q[..n]
                && u.copied == (t.copied || n > 0)
                && u.buffering == (n == 0 && (t.buffering || (!t.copied && q == [])))
  {
    StepSound(t, ev, size);
    if ev.Poll? {
      PollMeans(t, size);
    }
  }

  // ---------------------------------------------------------------- what is heard

  /** Every visit of every run of an opened channel.  It takes nothing if the channel has its block in the
      frame, nor while no open visit has found more than two blocks since one found nothing or since the
      beginning; otherwise it takes one block, or all that is waiting. */
  lemma VisitTakes(s: Inbound, evs: seq<Event>, k: nat, size: nat)
    requires Opened(s, size) && Fit(evs, |s.ring.buf|) && k < |evs| && evs[k].Poll?
    ensures var q := Run(s, evs[..k], size).ring.Queue();
            var n := if Played(s, evs, k, size) || (!Started(s, evs, k, size) && |q| <= 2 * size) then 0
                     else if |q| < size then |q| else size;
            && Run(s, evs[..k + 1], size).ring.Queue() == q[n..]
            && AllOut(s, evs[..k + 1], size) == AllOut(s, evs[..k], size) + q[..n]
  {
    hide Step, Out, Played, Started;
    FlagsRemember(s, evs, k, size);
    RunNext(s, evs, k, size);
    FlagsStep(Run(s, evs[..k], size), evs[k], size);
  }

  /** From the opening of a channel on, and again after an open visit has found nothing, visits take
      nothing exactly as long as no open one finds more than two blocks. */
  lemma HeldBack(s: Inbound, evs: seq<Event>, from: nat, k: nat, size: nat)
    requires Opened(s, size) && Fit(evs, |s.ring.buf|) && from <= k <= |evs|
    requires from == 0 || (Open(s, evs, from - 1, size) && Waiting(s, evs, from - 1, size) == 0)
    ensures (forall m | from <= m < k && evs[m].Poll? :: Waiting(s, evs, m + 1, size) == Waiting(s, evs, m, size))
            <==> (forall m | from <= m < k && Open(s, evs, m, size) :: Waiting(s, evs, m, size) <= 2 * size)
    decreases k
  {
    if k > from {
      hide Played, Started, Waiting, Open;
      HeldBack(s, evs, from, k - 1, size);
      var held := forall m | from <= m < k - 1 && Open(s, evs, m, size) :: Waiting(s, evs, m, size) <= 2 * size;
      if held {
        NotStarted(s, evs, from, k - 1, size);
        VisitChanges(s, evs, k - 1, size);
      }
    }
  }

  lemma VisitChanges(s: Inbound, evs: seq<Event>, k: nat, size: nat)
    requires Opened(s, size) && Fit(evs, |s.ring.buf|) && k < |evs| && !Started(s, evs, k, size)
    ensures (evs[k].Poll? ==> Waiting(s, evs, k + 1, size) == Waiting(s, evs, k, size)) <==>
              (Open(s, evs, k, size) ==> Waiting(s, evs, k, size) <= 2 * size)
  {
    hide Played, Started;
    if evs[k].Poll? {
      VisitTakes(s, evs, k, size);
    }
  }

  lemma NotStarted(s: Inbound, evs: seq<Event>, from: nat, k: nat, size: nat)
    requires Sound(s, size) && Fit(evs, |s.ring.buf|) && from <= k <= |evs|
    requires from == 0 || (Open(s, evs, from - 1, size) && Waiting(s, evs, from - 1, size) == 0)
    requires forall m | from <= m < k && Open(s, evs, m, size) :: Waiting(s, evs, m, size) <= 2 * size
    ensures !Started(s, evs, k, size)
  {
    hide Open, Waiting;
    forall j | 0 <= j < k ensures !StartsAt(s, evs, j, k, size) {
    }
  }
}
