/** What becomes of a request that no reply from memory settles: it waits while the server is full, is
    handed to the workers in turn, and is never lost unless its connection is, or everything is cleared. */
module PatchQueues {
  import opened Options
  import opened PatchCaches
  import opened PatchSlots

  /** As many slots as the limit allows are taken. */
  predicate Full(s: Server) {
    s.limit != 0 && |s.users| >= s.limit
  }

  /** A worker can do something with the request: a list of changes, or a patch for at least one file. */
  predicate HasWork(r: Request) {
    r.GetChangelist? || (r.files.Some? && |r.files.value| > 0)
  }

  /** A full server puts every request it cannot settle behind the others that wait, and does nothing else. */
  lemma FullServerKeeps(s: Server, r: Request)
    requires s.cache.Valid() && ReplyTo(s.cache, r) == NeedsWorker && Full(s)
    ensures Step(s, Receive(r)) == s.(waiting := s.waiting + [r])
  {
    hide ReplyTo;
  }

  /** Any other server hands a request with work in it to the workers, behind those already there, for one
      slot of its address; one without work is dropped. */
  lemma FreeServerStarts(s: Server, r: Request)
    requires s.cache.Valid() && ReplyTo(s.cache, r) == NeedsWorker && !Full(s)
    ensures Step(s, Receive(r)) ==
              if HasWork(r) then s.(users := s.users + multiset{r.address}, input := s.input + [r]) else s
  {
    hide ReplyTo;
  }

  /** A reply from memory leaves both queues alone; only a list that is pushed takes a slot. */
  lemma SettledFromMemory(s: Server, r: Request)
    requires s.cache.Valid() && ReplyTo(s.cache, r) != NeedsWorker
    ensures Step(s, Receive(r)) ==
              if ReplyTo(s.cache, r).Pushed?
              then s.(users := s.users + multiset{r.address}, pushes := s.pushes + multiset{r.address}) else s
  {
    hide ReplyTo;
  }

  /** The oldest waiting request is started in the same way, when a slot is free. */
  lemma DispatchStarts(s: Server)
    requires s.cache.Valid() && s.waiting != []
    ensures Enabled(s, Dispatch) <==> !Full(s)
    ensures !Full(s) ==> var r, t := s.waiting[0], s.(waiting := s.waiting[1..]);
              Step(s, Dispatch) ==
                if HasWork(r) then t.(users := s.users + multiset{r.address}, input := s.input + [r]) else t
  {
  }

  /** `t` is `s` after a request that memory does not settle. */
  ghost predicate Accepted(s: Server, r: Request, t: Server) {
    if Full(s) then t == s.(waiting := s.waiting + [r])
    else if HasWork(r) then t == s.(users := s.users + multiset{r.address}, input := s.input + [r])
    else t == s
  }

  /** When a client is told from memory what has changed: the cache is about its application, and the
      client has been updated since the newest change or since the patch before it. */
  lemma ToldFromMemory(c: Cache, r: Request)
    requires c.Valid() && r.GetChangelist?
    ensures var t := r.lastUpdate;
            ReplyTo(c, r) ==
              if c.loaded && t != 0.0 && r.application == c.application
                 && ((c.maxTime != 0.0 && t > c.maxTime) || (c.minTime != 0.0 && t > c.minTime))
              then Answered else NeedsWorker
  {
  }

  /** When a patch is pushed from memory, refused, or left to a worker. */
  lemma PatchFromMemory(c: Cache, r: Request)
    requires c.Valid() && r.GetPatch?
    ensures var consulted := r.application == c.application && r.lastUpdate != 0.0 && c.loaded && c.minTime != 0.0
                             && r.lastUpdate > c.minTime;
            var files := if r.files.Some? then r.files.value else [];
            && (ReplyTo(c, r).Pushed? <==>
                consulted && files != [] && forall k | 0 <= k < |files| :: Servable(c, files[k]))
            && (ReplyTo(c, r) == Refused <==>
                && consulted
                && (files == [] || exists i :: 0 <= i < |files| && files[i].Outdated? && |files[i].hash| != 4
                                               && forall k | 0 <= k < i :: Servable(c, files[k])))
            && ReplyTo(c, r) != Answered
            && (ReplyTo(c, r).Pushed? ==> AnswerTo(c, files) == FromCache(ReplyTo(c, r).patchList))
  {
    hide AnswerTo, Servable;
    var files := if r.files.Some? then r.files.value else [];
    AnswerMeans(c, files);
  }

  // ---------------------------------------------------------------- the requests of one address

  /** The requests of `a`, in order. */
  function Of(q: seq<Request>, a: Address): seq<Request> {
    if q == [] then [] else (if q[0].address == a then [q[0]] else []) + Of(q[1..], a)
  }

  lemma OfFirst(q: seq<Request>, a: Address)
    requires q != []
    ensures Of(q, a) == (if q[0].address == a then [q[0]] else []) + Of(q[1..], a)
  {
  }

  lemma {:induction false} OfJoined(p: seq<Request>, q: seq<Request>, a: Address)
    ensures Of(p + q, a) == Of(p, a) + Of(q, a)
  {
    hide Of;
    NoRequests(a);
    if p == [] {
      assert p + q == q && [] + Of(q, a) == Of(q, a);
    } else {
      OfJoined(p[1..], q, a);
      OfFirst(p, a);
      OfFirst(p + q, a);
      var one := if p[0].address == a then [p[0]] else [];
      assert (p + q)[1..] == p[1..] + q;
      assert one + (Of(p[1..], a) + Of(q, a)) == one + Of(p[1..], a) + Of(q, a);
    }
  }

  /** Removing the requests of an address is done one by one and keeps all others in their order. */
  lemma {:induction false} NotFromJoined(p: seq<Request>, q: seq<Request>, gone: Address)
    ensures NotFrom(p + q, gone) == NotFrom(p, gone) + NotFrom(q, gone)
  {
    if q == [] {
      assert p + q == p;
    } else {
      NotFromJoined(p, q[..|q| - 1], gone);
      assert (p + q)[..|p + q| - 1] == p + q[..|q| - 1];
    }
  }

  lemma NotFromOne(r: Request, gone: Address)
    ensures NotFrom([r], gone) == if r.address == gone then [] else [r]
  {
    assert [r][..0] == [];
  }

  lemma {:induction false} OfNotFrom(q: seq<Request>, gone: Address, a: Address)
    ensures Of(NotFrom(q, gone), a) == if a == gone then [] else Of(q, a)
  {
    if q != [] {
      hide NotFrom;
      var first, rest := [q[0]], q[1..];
      assert q == first + rest;
      NotFromJoined(first, rest, gone);
      OfJoined(NotFrom(first, gone), NotFrom(rest, gone), a);
      OfNotFrom(rest, gone, a);
      NotFromOne(q[0], gone);
    }
  }

  lemma {:induction false} OwnedIs(q: seq<Request>, a: Address)
    ensures Owned(q, a) == |Of(q, a)|
  {
    if q != [] {
      OwnedFirst(q, a);
      OwnedIs(q[1..], a);
    }
  }

  // ---------------------------------------------------------------- a whole `Update`

  /** The requests with work in them, in order. */
  function Working(q: seq<Request>): seq<Request> {
    if q == [] then [] else (if HasWork(q[0]) then [q[0]] else []) + Working(q[1..])
  }

  function Addresses(q: seq<Request>): multiset<Address> {
    if q == [] then multiset{} else multiset{q[0].address} + Addresses(q[1..])
  }

  /** `Update` takes waiting requests from the front, as many as there are or until all slots are taken,
      and hands those with work in them to the workers in the same order, for one slot each. */
  lemma {:induction false} DispatchAllMeans(s: Server) returns (n: nat)
    requires s.cache.Valid()
    ensures n <= |s.waiting|
    ensures var w := Working(s.waiting[..n]);
            DispatchAll(s) == s.(waiting := s.waiting[n..], input := s.input + w, users := s.users + Addresses(w))
    ensures n < |s.waiting| ==> Full(DispatchAll(s))
    ensures forall k | 0 <= k < n :: s.limit == 0 || |s.users| + |Working(s.waiting[..k])| < s.limit
    decreases |s.waiting|
  {
    hide Step, Full, Working, Addresses, HasWork;
    if Full(s) || s.waiting == [] {
      n := 0;
      WorkingNone();
      FullMeans(s);
      assert s.waiting[..0] == [] && s.waiting[0..] == s.waiting && s.input + [] == s.input;
    } else {
      FullMeans(s);
      DispatchStarts(s);
      var t := Step(s, Dispatch);
      var m := DispatchAllMeans(t);
      n := m + 1;
      DispatchedFirst(s, t, n);
      forall k | 0 <= k < n ensures s.limit == 0 || |s.users| + |Working(s.waiting[..k])| < s.limit {
        if k > 0 {
          DispatchedFirst(s, t, k);
        } else {
          WorkingNone();
          assert s.waiting[..0] == [];
        }
      }
    }
  }

  lemma FullMeans(s: Server)
    ensures Full(s) == s.LimitReached()
    ensures !Full(s) ==> s.limit == 0 || |s.users| < s.limit
  {
  }

  lemma WorkingNone()
    ensures Working([]) == [] && Addresses([]) == multiset{}
  {
  }

  /** The first of `n` dispatches. */
  lemma DispatchedFirst(s: Server, t: Server, n: nat)
    requires 0 < n <= |s.waiting|
    requires var r, u := s.waiting[0], s.(waiting := s.waiting[1..]);
             t == if HasWork(r) then u.(users := s.users + multiset{r.address}, input := s.input + [r]) else u
    ensures var w, v := Working(s.waiting[..n]), Working(t.waiting[..n - 1]);
            && t.waiting[n - 1..] == s.waiting[n..] && t.input + v == s.input + w
            && t.users + Addresses(v) == s.users + Addresses(w)
            && |t.users| + |v| == |s.users| + |w| && t.(waiting := [], input := [], users := multiset{}) ==
                s.(waiting := [], input := [], users := multiset{})
  {
    hide Working, Addresses, HasWork;
    WorkingNext(s.waiting, n);
    var one := if HasWork(s.waiting[0]) then [s.waiting[0]] else [];
    assert s.input + one + Working(t.waiting[..n - 1]) == s.input + (one + Working(t.waiting[..n - 1]));
  }

  lemma WorkingNext(q: seq<Request>, k: nat)
    requires 0 < k <= |q|
    ensures Working(q[..k]) == (if HasWork(q[0]) then [q[0]] else []) + Working(q[1..][..k - 1])
    ensures Addresses(Working(q[..k])) == (if HasWork(q[0]) then multiset{q[0].address} else multiset{})
              + Addresses(Working(q[1..][..k - 1]))
  {
    hide HasWork;
    assert q[..k][1..] == q[1..][..k - 1];
    var rest := Working(q[1..][..k - 1]);
    if HasWork(q[0]) {
      assert Working(q[..k]) == [q[0]] + rest && ([q[0]] + rest)[1..] == rest;
    } else {
      assert Working(q[..k]) == [] + rest == rest;
    }
  }

  // ---------------------------------------------------------------- nothing is lost

  /** The requests that a run has received without settling them from memory, those it has put in the
      waiting queue and taken from it, and those it has handed to the workers and that workers have begun. */
  datatype History = History(received: seq<Request>, queued: seq<Request>, dispatched: seq<Request>,
                             started: seq<Request>, begun: seq<Request>)

  const NOTHING := History([], [], [], [], [])

  ghost function Moved(s: Server, ev: Event): History
    requires s.cache.Valid() && Enabled(s, ev)
  {
    match ev
    case Receive(r) =>
      if ReplyTo(s.cache, r) != NeedsWorker then NOTHING
      else if Full(s) then NOTHING.(received := [r], queued := [r])
      else NOTHING.(received := [r], started := if HasWork(r) then [r] else [])
    case Dispatch =>
      var r := s.waiting[0];
      NOTHING.(dispatched := [r], started := if HasWork(r) then [r] else [])
    case Begin => NOTHING.(begun := [s.input[0]])
    case _ => NOTHING
  }

  function Joined(h: History, k: History): History {
    History(h.received + k.received, h.queued + k.queued, h.dispatched + k.dispatched, h.started + k.started,
            h.begun + k.begun)
  }

  ghost function AllMoved(s: Server, evs: seq<Event>): History
    requires s.cache.Valid() && Runs(s, evs)
    decreases |evs|
  {
    if evs == [] then NOTHING
    else (StepCache(s, evs[0]); Joined(Moved(s, evs[0]), AllMoved(Step(s, evs[0]), evs[1..])))
  }

  /** The connection of `a` is kept and nothing is cleared. */
  predicate Stays(evs: seq<Event>, a: Address) {
    forall k | 0 <= k < |evs| :: evs[k] != Disconnect(a) && !evs[k].Clear?
  }

  /** What a step adds to and takes from the two queues, for one address. */
  ghost predicate Conserves(s: Server, h: History, t: Server, a: Address) {
    && Of(s.waiting, a) + Of(h.queued, a) == Of(h.dispatched, a) + Of(t.waiting, a)
    && Of(s.input, a) + Of(h.started, a) == Of(h.begun, a) + Of(t.input, a)
  }

  lemma TakenFirst(q: seq<Request>, a: Address)
    requires q != []
    ensures Of(q, a) == Of([q[0]], a) + Of(q[1..], a)
  {
    OfJoined([q[0]], q[1..], a);
    assert q == [q[0]] + q[1..];
  }

  lemma NoRequests(a: Address)
    ensures Of([], a) == []
  {
  }

  lemma StepConserves(s: Server, ev: Event, a: Address)
    requires s.cache.Valid() && Enabled(s, ev) && ev != Disconnect(a) && !ev.Clear?
    ensures Conserves(s, Moved(s, ev), Step(s, ev), a)
  {
    hide Of, ReplyTo, NotFrom, Enabled;
    NoRequests(a);
    match ev
    case Receive(r) => ReceiveConserves(s, r, a);
    case Dispatch => DispatchConserves(s, a);
    case Begin => BeginConserves(s, a);
    case Disconnect(b) =>
      OfNotFrom(s.waiting, b, a);
      OfNotFrom(s.input, b, a);
    case _ =>
  }

  lemma ReceiveConserves(s: Server, r: Request, a: Address)
    requires s.cache.Valid()
    ensures Conserves(s, Moved(s, Receive(r)), Step(s, Receive(r)), a)
  {
    hide Of, ReplyTo;
    NoRequests(a);
    OfJoined(s.waiting, [r], a);
    OfJoined(s.input, [r], a);
  }

  lemma DispatchConserves(s: Server, a: Address)
    requires s.cache.Valid() && Enabled(s, Dispatch)
    ensures Conserves(s, Moved(s, Dispatch), Step(s, Dispatch), a)
  {
    hide Of;
    NoRequests(a);
    DispatchStarts(s);
    TakenFirst(s.waiting, a);
    OfJoined(s.input, [s.waiting[0]], a);
  }

  lemma BeginConserves(s: Server, a: Address)
    requires s.cache.Valid() && Enabled(s, Begin)
    ensures Conserves(s, Moved(s, Begin), Step(s, Begin), a)
  {
    hide Of;
    NoRequests(a);
    TakenFirst(s.input, a);
  }

  lemma ConservesOn(s: Server, h: History, t: Server, k: History, u: Server, a: Address)
    requires Conserves(s, h, t, a) && Conserves(t, k, u, a)
    ensures Conserves(s, Joined(h, k), u, a)
  {
    hide Of;
    OfJoined(h.queued, k.queued, a);
    OfJoined(h.dispatched, k.dispatched, a);
    OfJoined(h.started, k.started, a);
    OfJoined(h.begun, k.begun, a);
    Follow(Of(s.waiting, a), Of(h.queued, a), Of(h.dispatched, a), Of(t.waiting, a), Of(k.queued, a),
           Of(k.dispatched, a), Of(u.waiting, a));
    Follow(Of(s.input, a), Of(h.started, a), Of(h.begun, a), Of(t.input, a), Of(k.started, a), Of(k.begun, a),
           Of(u.input, a));
  }

  lemma Follow(q: seq<Request>, x: seq<Request>, o: seq<Request>, r: seq<Request>, y: seq<Request>, p: seq<Request>,
               t: seq<Request>)
    requires q + x == o + r && r + y == p + t
    ensures q + (x + y) == (o + p) + t
  {
    assert q + (x + y) == (o + r) + y == o + (r + y);
  }

  /** Whatever else happens, the requests of an address whose connection is kept leave each queue in the
      order in which they came: those that wait at the beginning and are put in the queue since are those
      taken from it, followed by those that wait now; and likewise for those handed to the workers. */
  lemma {:induction false} NoneLost(s: Server, evs: seq<Event>, a: Address)
    requires s.cache.Valid() && Runs(s, evs) && Stays(evs, a)
    ensures Conserves(s, AllMoved(s, evs), Run(s, evs), a)
    decreases |evs|
  {
    hide Step, Moved, Of, Conserves, Enabled;
    if evs == [] {
      NothingMoved(s, a);
    } else {
      StepCache(s, evs[0]);
      StepConserves(s, evs[0], a);
      NoneLost(Step(s, evs[0]), evs[1..], a);
      ConservesOn(s, Moved(s, evs[0]), Step(s, evs[0]), AllMoved(Step(s, evs[0]), evs[1..]), Run(s, evs), a);
    }
  }

  lemma NothingMoved(s: Server, a: Address)
    ensures Conserves(s, NOTHING, s, a)
  {
    hide Of;
    NoRequests(a);
  }

  /** How many of the requests are `r`. */
  function Times(q: seq<Request>, r: Request): nat {
    multiset(q)[r]
  }

  lemma TimesJoined(p: seq<Request>, q: seq<Request>, r: Request)
    ensures Times(p + q, r) == Times(p, r) + Times(q, r)
  {
  }

  lemma TimesOne(p: Request, r: Request)
    ensures Times([p], r) == if p == r then 1 else 0
    ensures Times([], r) == 0
  {
  }

  lemma {:induction false} TimesOf(q: seq<Request>, r: Request)
    ensures Times(Of(q, r.address), r) == Times(q, r)
  {
    hide Times;
    TimesOne(r, r);
    if q != [] {
      var a := r.address;
      TimesOf(q[1..], r);
      TimesOne(q[0], r);
      TimesJoined([q[0]], q[1..], r);
      assert q == [q[0]] + q[1..];
      TimesJoined(if q[0].address == a then [q[0]] else [], Of(q[1..], a), r);
    }
  }

  lemma OnePassedOn(s: Server, ev: Event, r: Request)
    requires s.cache.Valid() && Enabled(s, ev) && HasWork(r)
    ensures var h := Moved(s, ev);
            Times(h.received, r) + Times(h.dispatched, r) == Times(h.queued, r) + Times(h.started, r)
  {
    hide ReplyTo;
  }

  lemma PassedOnTogether(h: History, k: History, r: Request)
    ensures var j := Joined(h, k);
            && Times(j.received, r) == Times(h.received, r) + Times(k.received, r)
            && Times(j.dispatched, r) == Times(h.dispatched, r) + Times(k.dispatched, r)
            && Times(j.queued, r) == Times(h.queued, r) + Times(k.queued, r)
            && Times(j.started, r) == Times(h.started, r) + Times(k.started, r)
  {
    hide Times;
    TimesJoined(h.received, k.received, r);
    TimesJoined(h.dispatched, k.dispatched, r);
    TimesJoined(h.queued, k.queued, r);
    TimesJoined(h.started, k.started, r);
  }

  /** A request with work that has been received, or taken from the waiting queue, has been queued or handed
      to the workers. */
  lemma {:induction false} AllPassedOn(s: Server, evs: seq<Event>, r: Request)
    requires s.cache.Valid() && Runs(s, evs) && HasWork(r)
    ensures var h := AllMoved(s, evs);
            Times(h.received, r) + Times(h.dispatched, r) == Times(h.queued, r) + Times(h.started, r)
    decreases |evs|
  {
    hide Step, Enabled, Moved, Times, Joined;
    if evs == [] {
      TimesJoined([], [], r);
    } else {
      StepCache(s, evs[0]);
      OnePassedOn(s, evs[0], r);
      AllPassedOn(Step(s, evs[0]), evs[1..], r);
      PassedOnTogether(Moved(s, evs[0]), AllMoved(Step(s, evs[0]), evs[1..]), r);
    }
  }

  lemma CountedTogether(p: seq<Request>, q: seq<Request>, r: Request)
    ensures Times(Of(p, r.address) + Of(q, r.address), r) == Times(p, r) + Times(q, r)
  {
    hide *;
    TimesOf(p, r);
    TimesOf(q, r);
    TimesJoined(Of(p, r.address), Of(q, r.address), r);
  }

  /** A request with work waits, is queued for the workers or has been begun, as often as it has been
      received, as long as its connection is kept and nothing is cleared. */
  lemma EveryRequestKept(s: Server, evs: seq<Event>, r: Request)
    requires s.cache.Valid() && Runs(s, evs) && HasWork(r) && Stays(evs, r.address)
    ensures var h, t := AllMoved(s, evs), Run(s, evs);
            Times(s.waiting, r) + Times(s.input, r) + Times(h.received, r)
            == Times(t.waiting, r) + Times(t.input, r) + Times(h.begun, r)
  {
    hide Of, Times, AllMoved, Run, Runs, Stays;
    var h, t := AllMoved(s, evs), Run(s, evs);
    NoneLost(s, evs, r.address);
    AllPassedOn(s, evs, r);
    CountedTogether(s.waiting, h.queued, r);
    CountedTogether(h.dispatched, t.waiting, r);
    CountedTogether(s.input, h.started, r);
    CountedTogether(h.begun, t.input, r);
  }
}
