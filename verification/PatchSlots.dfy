/** The requests of the autopatcher server as a state machine: they wait, are queued for the worker
    threads, are worked on, and end in a file transfer or at once.  Every step may come between any
    two others. */
module PatchSlots {
  import opened Options
  import opened PatchCaches

  type Address = nat

  /** A request; `files` is missing when the list of wanted files cannot be decoded. */
  datatype Request =
    | GetChangelist(address: Address, application: string, lastUpdate: real)
    | GetPatch(address: Address, application: string, lastUpdate: real, files: Option<seq<Wanted>>)

  /** `users` are the busy addresses, `waiting` the requests held back by the limit, `input` those
      queued for the workers.  `listing` and `patching` are the addresses whose changelist or patch a
      worker is computing, `transfers` and `pushes` those that files are being sent to, after the
      work of a worker or straight from the cache. */
  datatype Server = Server(users: multiset<Address>, limit: nat, cache: Cache, waiting: seq<Request>,
                           input: seq<Request>,
                           listing: multiset<Address>, patching: multiset<Address>,
                           transfers: multiset<Address>, pushes: multiset<Address>)
  {
    predicate LimitReached() {
      limit != 0 && |users| >= limit
    }

    /** How many jobs of an address are queued, being worked on or being transferred. */
    function Outstanding(a: Address): nat {
      Owned(input, a) + listing[a] + patching[a] + transfers[a] + pushes[a]
    }
  }

  /** How many of the requests are those of `a`. */
  function Owned(q: seq<Request>, a: Address): nat {
    if q == [] then 0 else Owned(q[..|q| - 1], a) + if q[|q| - 1].address == a then 1 else 0
  }

  /** The requests of all others. */
  function NotFrom(q: seq<Request>, a: Address): seq<Request> {
    if q == [] then []
    else NotFrom(q[..|q| - 1], a) + if q[|q| - 1].address == a then [] else [q[|q| - 1]]
  }

  datatype Reply = Answered | Refused | Pushed(patchList: seq<Node>) | NeedsWorker

  /** The request may be looked up in the cache: it is about the cached application, and the client
      has the version before the cached one. */
  predicate Consults(c: Cache, r: Request)
    requires r.GetPatch?
  {
    r.application == c.application && r.lastUpdate != 0.0 && c.loaded && c.minTime != 0.0 && r.lastUpdate > c.minTime
  }

  /** Whether the server can reply from memory. */
  ghost function ReplyTo(c: Cache, r: Request): Reply
    requires c.Valid()
  {
    match r
    case GetChangelist(_, application, t) =>
      if c.loaded && t != 0.0 && application == c.application
         && ((c.maxTime != 0.0 && t > c.maxTime) || (c.minTime != 0.0 && t > c.minTime))
      then Answered else NeedsWorker
    case GetPatch(_, _, _, files) =>
      if !Consults(c, r) then NeedsWorker
      else if files == None || files.value == [] then Refused
      else
        match AnswerTo(c, files.value)
        case FromCache(list) => Pushed(list)
        case Dropped => Refused
        case FromDatabase => NeedsWorker
  }

  /** What a client is told from memory about the changes since its last update. */
  datatype Message = DeletionList(files: seq<string>) | CreationList(files: seq<string>, since: real) | Finished

  /** Without a loaded cache, or one of its application, a request needs a worker. */
  lemma NothingFromMemory(c: Cache, r: Request)
    requires c.Valid()
    ensures r.application != c.application || !c.loaded ==> ReplyTo(c, r) == NeedsWorker
  {
    hide AnswerTo;
  }

  /** A patch request is served from memory exactly when every file it names can be; then every one of
      them is on the list that is sent, once, and the list is the requested files one by one exactly
      when none is requested twice. */
  lemma ServedFromCache(c: Cache, r: Request, name: string)
    requires c.Valid() && r.GetPatch?
    ensures ReplyTo(c, r).Pushed? <==>
              Consults(c, r) && r.files != None && r.files.value != [] && AllSupplied(c, r.files.value)
    ensures ReplyTo(c, r).Pushed? ==>
              var list := ReplyTo(c, r).patchList;
              && list != [] && DistinctNames(list)
              && (Holds(list, name) <==> exists k :: 0 <= k < |r.files.value| && r.files.value[k].name == name)
              && (list == Nodes(c, r.files.value) <==>
                  forall i, j | 0 <= i < j < |r.files.value| :: r.files.value[i].name != r.files.value[j].name)
  {
    hide AllSupplied, Listed, Refuses, Nodes, Holds, DistinctNames;
    if Consults(c, r) && r.files != None && r.files.value != [] {
      AnswersExclude(c, r.files.value);
      if AllSupplied(c, r.files.value) {
        OneEntryPerFile(c, r.files.value, name);
        OneEntryPerFile(c, r.files.value, r.files.value[0].name);
        NothingHeld(r.files.value[0].name);
      }
    }
  }

  lemma NothingHeld(name: string)
    ensures !Holds([], name)
  {
  }

  /** A request that no worker can do anything with. */
  predicate Hopeless(r: Request) {
    r.GetPatch? && (r.files == None || r.files.value == [])
  }

  /** Hands a request to the workers and takes a slot for it. */
  function Start(s: Server, r: Request): Server {
    if Hopeless(r) then s else s.(users := s.users + multiset{r.address}, input := s.input + [r])
  }

  /** Starts the request, or has it wait while the limit is reached. */
  function Admit(s: Server, r: Request): Server {
    if s.LimitReached() then s.(waiting := s.waiting + [r]) else Start(s, r)
  }

  datatype Event =
    | Receive(request: Request)
    | Dispatch
    | Begin
    | ChangelistDone(address: Address)
    | PatchDone(address: Address, sends: bool)
    | TransferDone(address: Address)
    | PushDone(address: Address)
    | Disconnect(address: Address)
    | Clear
    | SetLimit(limit: nat)
    | LoadCache(cache: Cache)

  ghost predicate Enabled(s: Server, ev: Event) {
    match ev
    case Dispatch => !s.LimitReached() && s.waiting != []
    case Begin => s.input != []
    case ChangelistDone(a) => a in s.listing
    case PatchDone(a, _) => a in s.patching
    case TransferDone(a) => a in s.transfers
    case PushDone(a) => a in s.pushes
    case Clear => s.listing == s.patching == multiset{}
    case LoadCache(c) => c.Valid()
    case _ => true
  }

  ghost function Step(s: Server, ev: Event): Server
    requires s.cache.Valid() && Enabled(s, ev)
  {
    match ev
    case Receive(r) =>
      (match ReplyTo(s.cache, r)
       case Answered => s
       case Refused => s
       case Pushed(_) => s.(users := s.users + multiset{r.address}, pushes := s.pushes + multiset{r.address})
       case NeedsWorker => Admit(s, r))
    case Dispatch => Start(s.(waiting := s.waiting[1..]), s.waiting[0])
    case Begin =>
      var r := s.input[0];
      if r.GetChangelist? then s.(input := s.input[1..], listing := s.listing + multiset{r.address})
      else s.(input := s.input[1..], patching := s.patching + multiset{r.address})
    case ChangelistDone(a) => s.(listing := s.listing - multiset{a}, users := s.users - multiset{a})
    case PatchDone(a, sends) =>
      if sends then s.(patching := s.patching - multiset{a}, transfers := s.transfers + multiset{a})
      else s.(patching := s.patching - multiset{a}, users := s.users - multiset{a})
    case TransferDone(a) => s.(transfers := s.transfers - multiset{a}, users := s.users - multiset{a})
    case PushDone(a) => s.(pushes := s.pushes - multiset{a}, users := s.users - multiset{a})
    case Disconnect(a) => s.(users := s.users[a := 0], waiting := NotFrom(s.waiting, a), input := NotFrom(s.input, a))
    case Clear => s.(users := multiset{}, waiting := [], input := [])
    case SetLimit(n) => s.(limit := n)
    case LoadCache(c) => s.(cache := c)
  }

  /** Any interleaving of steps. */
  ghost predicate Runs(s: Server, evs: seq<Event>)
    requires s.cache.Valid()
    decreases |evs|
  {
    evs == [] || (Enabled(s, evs[0]) && (StepCache(s, evs[0]); Runs(Step(s, evs[0]), evs[1..])))
  }

  ghost function Run(s: Server, evs: seq<Event>): (t: Server)
    requires s.cache.Valid() && Runs(s, evs)
    ensures t.cache.Valid()
    decreases |evs|
  {
    if evs == [] then s else (StepCache(s, evs[0]); Run(Step(s, evs[0]), evs[1..]))
  }

  lemma StepCache(s: Server, ev: Event)
    requires s.cache.Valid() && Enabled(s, ev)
    ensures Step(s, ev).cache.Valid()
  {
  }

  // ---------------------------------------------------------------- slots and outstanding work

  lemma {:induction false} OwnedSplit(p: seq<Request>, q: seq<Request>, a: Address)
    ensures Owned(p + q, a) == Owned(p, a) + Owned(q, a)
  {
    if q == [] {
      assert p + q == p;
    } else {
      OwnedSplit(p, q[..|q| - 1], a);
      assert (p + q)[..|p + q| - 1] == p + q[..|q| - 1];
    }
  }

  lemma OwnedFirst(q: seq<Request>, a: Address)
    requires q != []
    ensures Owned(q, a) == Owned(q[1..], a) + if q[0].address == a then 1 else 0
  {
    OwnedSplit([q[0]], q[1..], a);
    assert q == [q[0]] + q[1..];
  }

  lemma {:induction false} OwnedNotFrom(q: seq<Request>, gone: Address, a: Address)
    ensures Owned(NotFrom(q, gone), a) == if a == gone then 0 else Owned(q, a)
  {
    if q != [] {
      var last := if q[|q| - 1].address == gone then [] else [q[|q| - 1]];
      OwnedNotFrom(q[..|q| - 1], gone, a);
      OwnedSplit(NotFrom(q[..|q| - 1], gone), last, a);
    }
  }

  /** The steps that leave work of `a` behind without its slot: its connection is lost, or everything
      is cleared, while a worker or a file transfer is still busy for it. */
  ghost predicate Strands(s: Server, ev: Event, a: Address) {
    match ev
    case Disconnect(b) => a == b && s.listing[a] + s.patching[a] + s.transfers[a] + s.pushes[a] > 0
    case Clear => s.transfers[a] + s.pushes[a] > 0
    case _ => false
  }

  ghost predicate Covered(s: Server, a: Address) {
    s.users[a] <= s.Outstanding(a)
  }

  ghost predicate Balanced(s: Server, a: Address) {
    s.users[a] == s.Outstanding(a)
  }

  /** `t` has as many slots more for `a` as it has jobs more; a job that ends without a slot is the
      only exception. */
  ghost predicate InStep(s: Server, t: Server, a: Address) {
    || t.users[a] + s.Outstanding(a) == s.users[a] + t.Outstanding(a)
    || (s.users[a] == t.users[a] == 0 < s.Outstanding(a) == t.Outstanding(a) + 1)
  }

  lemma StartInStep(s: Server, r: Request, a: Address)
    ensures InStep(s, Start(s, r), a)
  {
    OwnedSplit(s.input, [r], a);
  }

  lemma ReceiveInStep(s: Server, r: Request, a: Address)
    requires s.cache.Valid()
    ensures InStep(s, Step(s, Receive(r)), a)
  {
    hide ReplyTo, Start;
    StartInStep(s, r, a);
  }

  lemma BeginInStep(s: Server, a: Address)
    requires s.cache.Valid() && s.input != []
    ensures InStep(s, Step(s, Begin), a)
  {
    OwnedFirst(s.input, a);
  }

  lemma DoneInStep(s: Server, ev: Event, a: Address)
    requires s.cache.Valid() && Enabled(s, ev)
    requires ev.ChangelistDone? || ev.TransferDone? || ev.PushDone?
    ensures InStep(s, Step(s, ev), a)
  {
    hide Owned;
  }

  lemma PatchDoneInStep(s: Server, b: Address, sends: bool, a: Address)
    requires s.cache.Valid() && b in s.patching
    ensures InStep(s, Step(s, PatchDone(b, sends)), a)
  {
    hide Owned;
  }

  lemma DisconnectCovers(s: Server, gone: Address, a: Address)
    requires s.cache.Valid()
    ensures var t := Step(s, Disconnect(gone));
            if a == gone then t.users[a] == 0 &&
                t.Outstanding(a) == s.listing[a] + s.patching[a] + s.transfers[a] + s.pushes[a]
            else InStep(s, t, a)
  {
    OwnedNotFrom(s.input, gone, a);
  }

  /** No step takes more slots for an address than it has work; and a step from a balanced state
      leaves the address balanced exactly when it strands nothing. */
  lemma StepCovers(s: Server, ev: Event, a: Address)
    requires s.cache.Valid() && Enabled(s, ev) && Covered(s, a)
    ensures Covered(Step(s, ev), a)
    ensures Balanced(s, a) ==> (Balanced(Step(s, ev), a) <==> !Strands(s, ev, a))
  {
    hide ReplyTo, NotFrom;
    match ev
    case Receive(r) => ReceiveInStep(s, r, a);
    case Dispatch => StartInStep(s.(waiting := s.waiting[1..]), s.waiting[0], a);
    case Begin => BeginInStep(s, a);
    case Disconnect(b) => DisconnectCovers(s, b, a);
    case ChangelistDone(_) => DoneInStep(s, ev, a);
    case PatchDone(b, sends) => PatchDoneInStep(s, b, sends, a);
    case TransferDone(_) => DoneInStep(s, ev, a);
    case PushDone(_) => DoneInStep(s, ev, a);
    case Clear =>
    case SetLimit(_) =>
    case LoadCache(_) =>
  }

  // ---------------------------------------------------------------- whole runs

  ghost predicate Initial(s: Server) {
    && s.users == s.listing == s.patching == s.transfers == s.pushes == multiset{}
    && s.waiting == s.input == [] && s.cache.Valid()
  }

  ghost predicate NeverStrands(s: Server, evs: seq<Event>, a: Address)
    requires s.cache.Valid() && Runs(s, evs)
    decreases |evs|
  {
    evs == [] || (!Strands(s, evs[0], a) && (StepCache(s, evs[0]); NeverStrands(Step(s, evs[0]), evs[1..], a)))
  }

  /** In every reachable state an address has no more slots than jobs; and as many, unless its
      connection was lost or the server cleared while a job of it could not be called off. */
  lemma {:induction false} RunCovers(s: Server, evs: seq<Event>, a: Address)
    requires s.cache.Valid() && Runs(s, evs)
    ensures Covered(s, a) ==> Covered(Run(s, evs), a)
    ensures Balanced(s, a) && NeverStrands(s, evs, a) ==> Balanced(Run(s, evs), a)
    decreases |evs|
  {
    hide Step, Strands, Enabled;
    if evs != [] && Covered(s, a) {
      StepCache(s, evs[0]);
      StepCovers(s, evs[0], a);
      RunCovers(Step(s, evs[0]), evs[1..], a);
    }
  }

  /** The address is balanced in every state that the run passes through. */
  ghost predicate AlwaysBalanced(s: Server, evs: seq<Event>, a: Address)
    requires s.cache.Valid() && Runs(s, evs)
    decreases |evs|
  {
    Balanced(s, a) && (evs == [] || (StepCache(s, evs[0]); AlwaysBalanced(Step(s, evs[0]), evs[1..], a)))
  }

  lemma {:induction false} BalancedExactly(s: Server, evs: seq<Event>, a: Address)
    requires s.cache.Valid() && Runs(s, evs) && Balanced(s, a)
    ensures AlwaysBalanced(s, evs, a) <==> NeverStrands(s, evs, a)
    decreases |evs|
  {
    hide Step, Strands, Enabled;
    if evs != [] {
      StepCache(s, evs[0]);
      StepCovers(s, evs[0], a);
      if Balanced(Step(s, evs[0]), a) {
        BalancedExactly(Step(s, evs[0]), evs[1..], a);
      }
    }
  }

  /** From the start of the server on, an address never has more slots than jobs, and it has as many in
      every state of a run exactly when no step of the run strands a job of it. */
  lemma SlotsMatchWork(s: Server, evs: seq<Event>, a: Address)
    requires Initial(s) && Runs(s, evs)
    ensures Covered(Run(s, evs), a)
    ensures NeverStrands(s, evs, a) ==> Balanced(Run(s, evs), a)
    ensures AlwaysBalanced(s, evs, a) <==> NeverStrands(s, evs, a)
  {
    RunCovers(s, evs, a);
    BalancedExactly(s, evs, a);
  }

  // ---------------------------------------------------------------- the limit

  lemma SmallerSubset(p: multiset<Address>, q: multiset<Address>)
    requires p <= q
    ensures |p| <= |q|
  {
    assert q == p + (q - p);
  }

  /** How many of the slots `u` are left when those of `p` are put aside. */
  ghost function Excess(u: multiset<Address>, p: multiset<Address>): nat {
    |u - p|
  }

  /** Leaving out what is pushed from the cache, the slots stay within the limit. */
  ghost predicate Within(s: Server) {
    s.limit != 0 ==> Excess(s.users, s.pushes) <= s.limit
  }

  lemma OneMore(u: multiset<Address>, p: multiset<Address>, a: Address)
    ensures Excess(u + multiset{a}, p) <= |u| + 1
    ensures Excess(u + multiset{a}, p + multiset{a}) == Excess(u, p)
  {
    SmallerSubset(u + multiset{a} - p, u + multiset{a});
    assert u + multiset{a} - (p + multiset{a}) == u - p;
  }

  lemma OneLess(u: multiset<Address>, p: multiset<Address>, a: Address)
    ensures Excess(u - multiset{a}, p) <= Excess(u, p)
    ensures a in p ==> Excess(u - multiset{a}, p - multiset{a}) <= Excess(u, p)
    ensures Excess(u[a := 0], p) <= Excess(u, p)
  {
    SmallerSubset(u - multiset{a} - p, u - p);
    SmallerSubset(u[a := 0] - p, u - p);
    if a in p {
      assert u - multiset{a} - (p - multiset{a}) <= u - p;
      SmallerSubset(u - multiset{a} - (p - multiset{a}), u - p);
    }
  }

  lemma NoExcess(p: multiset<Address>)
    ensures Excess(multiset{}, p) == 0
  {
    assert multiset{} - p == multiset{};
  }

  lemma StepWithin(s: Server, ev: Event)
    requires s.cache.Valid() && Enabled(s, ev) && Within(s) && !ev.SetLimit?
    ensures Within(Step(s, ev)) && Step(s, ev).limit == s.limit
  {
    hide ReplyTo, NotFrom, Excess;
    match ev
    case Receive(r) => OneMore(s.users, s.pushes, r.address);
    case Dispatch => OneMore(s.users, s.pushes, s.waiting[0].address);
    case ChangelistDone(a) => OneLess(s.users, s.pushes, a);
    case PatchDone(a, _) => OneLess(s.users, s.pushes, a);
    case TransferDone(a) => OneLess(s.users, s.pushes, a);
    case PushDone(a) => OneLess(s.users, s.pushes, a);
    case Disconnect(a) => OneLess(s.users, s.pushes, a);
    case Clear => NoExcess(s.pushes);
    case Begin =>
    case LoadCache(_) =>
  }

  /** One step takes the number of slots over the limit exactly when a request that arrives at a full
      server is served from the cache. */
  lemma ExceedsOnlyByPush(s: Server, ev: Event)
    requires s.cache.Valid() && Enabled(s, ev) && !ev.SetLimit? && |s.users| <= s.limit && s.limit != 0
    ensures |Step(s, ev).users| > s.limit <==>
              ev.Receive? && ReplyTo(s.cache, ev.request).Pushed? && |s.users| == s.limit
  {
    hide ReplyTo, NotFrom;
    match ev
    case ChangelistDone(a) => SmallerSubset(s.users - multiset{a}, s.users);
    case PatchDone(a, _) => SmallerSubset(s.users - multiset{a}, s.users);
    case TransferDone(a) => SmallerSubset(s.users - multiset{a}, s.users);
    case PushDone(a) => SmallerSubset(s.users - multiset{a}, s.users);
    case Disconnect(a) => SmallerSubset(s.users[a := 0], s.users);
    case _ =>
  }

  /** In every run with a fixed limit the slots exceed it by no more than the pushes that are still
      going on; so without requests served from the cache they never exceed it. */
  lemma {:induction false} RunWithin(s: Server, evs: seq<Event>)
    requires s.cache.Valid() && Runs(s, evs) && Within(s)
    requires forall k | 0 <= k < |evs| :: !evs[k].SetLimit?
    ensures Within(Run(s, evs)) && Run(s, evs).limit == s.limit
    ensures s.limit != 0 ==> |Run(s, evs).users| <= s.limit + |Run(s, evs).pushes|
    decreases |evs|
  {
    hide Step, Enabled;
    if evs == [] {
      assert s.users == (s.users - s.pushes) + (s.users * s.pushes);
      SmallerSubset(s.users * s.pushes, s.pushes);
    } else {
      StepCache(s, evs[0]);
      StepWithin(s, evs[0]);
      RunWithin(Step(s, evs[0]), evs[1..]);
    }
  }

  // ---------------------------------------------------------------- the waiting queue

  /** `Update`: requests leave the waiting queue until the limit is reached or it is empty. */
  ghost function DispatchAll(s: Server): (t: Server)
    requires s.cache.Valid()
    ensures t.LimitReached() || t.waiting == []
    ensures t.cache.Valid() && |t.waiting| <= |s.waiting|
    decreases |s.waiting|
  {
    if s.LimitReached() || s.waiting == [] then s else DispatchAll(Step(s, Dispatch))
  }

  /** They leave in the order in which they came, and nothing else happens. */
  lemma {:induction false} DispatchAllIsRun(s: Server) returns (n: nat)
    requires s.cache.Valid()
    ensures n <= |s.waiting| && DispatchAll(s).waiting == s.waiting[n..]
    ensures Runs(s, seq(n, _ => Dispatch)) && Run(s, seq(n, _ => Dispatch)) == DispatchAll(s)
    decreases |s.waiting|
  {
    if s.LimitReached() || s.waiting == [] {
      n := 0;
    } else {
      var t := Step(s, Dispatch);
      var m := DispatchAllIsRun(t);
      n := m + 1;
      var evs: seq<Event> := seq(n, _ => Dispatch);
      assert evs[1..] == seq(m, _ => Dispatch);
      assert t.waiting == s.waiting[1..];
    }
  }

  /** In every reachable state a request is left waiting after `Update` only while some address that
      has a slot still has a job, so a slot is still going to be freed. */
  lemma NeverWaitsForNothing(s: Server, evs: seq<Event>) returns (a: Address)
    requires Initial(s) && Runs(s, evs) && DispatchAll(Run(s, evs)).waiting != []
    ensures a in DispatchAll(Run(s, evs)).users && DispatchAll(Run(s, evs)).Outstanding(a) > 0
  {
    hide Step;
    var before := Run(s, evs);
    var after := DispatchAll(before);
    assert |after.users| > 0;
    assert after.users != multiset{};
    a :| a in after.users;
    RunCovers(s, evs, a);
    var n := DispatchAllIsRun(before);
    RunCovers(before, seq(n, _ => Dispatch), a);
    assert Covered(after, a);
  }

  // ---------------------------------------------------------------- what a lost connection costs

  lemma RunFirst(s: Server, ev: Event, rest: seq<Event>)
    requires s.cache.Valid() && Enabled(s, ev) && Step(s, ev).cache.Valid() && Runs(Step(s, ev), rest)
    ensures Runs(s, [ev] + rest) && Run(s, [ev] + rest) == Run(Step(s, ev), rest)
  {
    hide Step, Enabled;
    assert ([ev] + rest)[1..] == rest;
  }

  /** A worker that is busy for a connection that was lost frees, when it is done, the slot of the
      next request from that address: the two conditions of `SlotsMatchWork` cannot be dropped. */
  lemma OrphanFreesSlot(s: Server, a: Address, application: string)
    requires Initial(s) && !s.cache.loaded && s.limit == 0
    ensures var r := GetChangelist(a, application, 0.0);
            var evs := [Receive(r)] + ([Begin] + ([Disconnect(a)] + ([Receive(r)] + ([ChangelistDone(a)] + []))));
            Runs(s, evs) && Run(s, evs).users[a] == 0 && Run(s, evs).Outstanding(a) == 1
  {
    var r := GetChangelist(a, application, 0.0);
    var s1 := s.(users := multiset{a}, input := [r]);
    assert Step(s, Receive(r)) == s1;
    var s2 := s.(users := multiset{a}, listing := multiset{a});
    assert Step(s1, Begin) == s2;
    var s3 := s2.(users := multiset{});
    assert Step(s2, Disconnect(a)) == s3;
    var s4 := s2.(input := [r]);
    assert Step(s3, Receive(r)) == s4;
    var s5 := s.(input := [r]);
    assert Step(s4, ChangelistDone(a)) == s5;
    assert Owned([r], a) == Owned([r][..0], a) + 1;
    RunBack(s, s1, s2, s3, s4, s5, Receive(r), Begin, Disconnect(a), Receive(r), ChangelistDone(a));
  }

  lemma RunBack(s: Server, s1: Server, s2: Server, s3: Server, s4: Server, s5: Server, e1: Event, e2: Event, e3: Event,
                e4: Event, e5: Event)
    requires s.cache == s1.cache == s2.cache == s3.cache == s4.cache == s5.cache && s.cache.Valid()
    requires Enabled(s, e1) && Step(s, e1) == s1 && Enabled(s1, e2) && Step(s1, e2) == s2 && Enabled(s2, e3) &&
              Step(s2, e3) == s3
    requires Enabled(s3, e4) && Step(s3, e4) == s4 && Enabled(s4, e5) && Step(s4, e5) == s5
    ensures var evs := [e1] + ([e2] + ([e3] + ([e4] + ([e5] + [])))); Runs(s, evs) && Run(s, evs) == s5
  {
    hide Step, Enabled, Runs, Run;
    RunNone(s5);
    RunFirst(s4, e5, []);
    RunFirst(s3, e4, [e5] + []);
    RunFirst(s2, e3, [e4] + ([e5] + []));
    RunFirst(s1, e2, [e3] + ([e4] + ([e5] + [])));
    RunFirst(s, e1, [e2] + ([e3] + ([e4] + ([e5] + []))));
  }

  lemma RunNone(s: Server)
    requires s.cache.Valid()
    ensures Runs(s, []) && Run(s, []) == s
  {
  }
}
