/** The autopatcher server: the lists and queues it updates, each method a step of `PatchSlots`. */
module PatchServers {
  import opened Options
  import opened PatchCaches
  import opened PatchSlots
  import opened PatchQueues

  /** The entries of a list after `RemoveAtIndexFast` has put the last one in the place of another. */
  lemma RemovedFast(list: seq<Address>, i: nat)
    requires i < |list|
    ensures multiset(list[i := list[|list| - 1]][..|list| - 1]) == multiset(list) - multiset{list[i]}
  {
    var n := |list| - 1;
    var moved := list[i := list[n]];
    assert moved == moved[..n] + [moved[n]];
    assert list == list[..n] + [list[n]];
    assert multiset(moved) == multiset(list) - multiset{list[i]} + multiset{list[n]};
  }

  lemma NotListed(list: seq<Address>, a: Address)
    requires a !in list
    ensures a !in multiset(list) && multiset(list) - multiset{a} == multiset(list)
  {
  }

  /** What is left of `n` slots when `k` are given back. */
  function Left(n: nat, k: nat): nat {
    if n >= k then n - k else 0
  }

  lemma OwnedNext(q: seq<Request>, i: nat, a: Address)
    requires i < |q|
    ensures Owned(q[..i + 1], a) == Owned(q[..i], a) + if q[i].address == a then 1 else 0
  {
    assert q[..i + 1][..i] == q[..i];
  }

  /** `users` is left of `slots` when the first `i` requests have given back theirs of `a`. */
  ghost predicate PaidBack(slots: multiset<Address>, users: multiset<Address>, q: seq<Request>, i: nat, a: Address,
                           aborted: nat) {
    && i <= |q| && users == slots[a := Left(slots[a], Owned(q[..i], a))]
    && aborted + users[a] == slots[a]
  }

  lemma PaidStart(slots: multiset<Address>, q: seq<Request>, a: Address)
    ensures PaidBack(slots, slots, q, 0, a, 0)
  {
  }

  lemma PaidStep(slots: multiset<Address>, users: multiset<Address>, q: seq<Request>, i: nat, a: Address, aborted: nat)
    requires PaidBack(slots, users, q, i, a, aborted) && i < |q|
    ensures if q[i].address == a
            then PaidBack(slots, users - multiset{a}, q, i + 1, a, aborted + if a in users then 1 else 0)
            else PaidBack(slots, users, q, i + 1, a, aborted)
  {
    hide Owned;
    OwnedNext(q, i, a);
  }

  lemma PaidEnd(slots: multiset<Address>, users: multiset<Address>, q: seq<Request>, i: nat, a: Address, aborted: nat)
    requires PaidBack(slots, users, q, i, a, aborted) && i >= |q|
    ensures users == slots[a := Left(slots[a], Owned(q, a))] && aborted + users[a] == slots[a]
  {
    assert q[..i] == q;
  }

  /** The same for all addresses at once. */
  ghost predicate AllPaid(slots: multiset<Address>, users: multiset<Address>, q: seq<Request>, i: nat,
                          aborted: multiset<Address>) {
    i <= |q| && forall a :: users[a] == Left(slots[a], Owned(q[..i], a)) && aborted[a] + users[a] == slots[a]
  }

  lemma AllPaidStart(slots: multiset<Address>, q: seq<Request>)
    ensures AllPaid(slots, slots, q, 0, multiset{})
  {
  }

  lemma AllPaidStep(slots: multiset<Address>, users: multiset<Address>, q: seq<Request>, i: nat,
                    aborted: multiset<Address>)
    requires AllPaid(slots, users, q, i, aborted) && i < |q|
    ensures var sa := q[i].address;
            AllPaid(slots, users - multiset{sa}, q, i + 1, if sa in users then aborted + multiset{sa} else aborted)
  {
    hide Owned;
    var sa := q[i].address;
    var users', aborted' := users - multiset{sa}, if sa in users then aborted + multiset{sa} else aborted;
    forall a ensures users'[a] == Left(slots[a], Owned(q[..i + 1], a)) && aborted'[a] + users'[a] == slots[a] {
      OwnedNext(q, i, a);
    }
  }

  lemma AllPaidEnd(slots: multiset<Address>, users: multiset<Address>, q: seq<Request>, i: nat,
                   aborted: multiset<Address>)
    requires AllPaid(slots, users, q, i, aborted) && i >= |q|
    ensures forall a :: users[a] == Left(slots[a], Owned(q, a)) && aborted[a] + users[a] == slots[a]
  {
    assert q[..i] == q;
  }

  /** The first `done` requests of a queue have been looked at and those of `a` removed; `i` is where
      the others end. */
  ghost predicate Cleaned(before: seq<Request>, now: seq<Request>, done: nat, i: nat, a: Address) {
    && done <= |before| && i == |NotFrom(before[..done], a)|
    && now == NotFrom(before[..done], a) + before[done..]
  }

  lemma CleanedStart(before: seq<Request>, a: Address)
    ensures Cleaned(before, before, 0, 0, a)
  {
    assert before[..0] == [];
  }

  lemma CleanedStep(before: seq<Request>, now: seq<Request>, done: nat, i: nat, a: Address)
    requires Cleaned(before, now, done, i, a) && i < |now|
    ensures done < |before| && now[i] == before[done]
    ensures if now[i].address == a then Cleaned(before, now[..i] + now[i + 1..], done + 1, i, a)
            else Cleaned(before, now, done + 1, i + 1, a)
  {
    var kept, next := NotFrom(before[..done], a), before[..done + 1];
    assert next[..|next| - 1] == before[..done] && next[|next| - 1] == before[done] == now[i];
    assert now[..i] == kept && now[i + 1..] == before[done + 1..];
  }

  lemma CleanedEnd(before: seq<Request>, now: seq<Request>, done: nat, i: nat, a: Address)
    requires Cleaned(before, now, done, i, a) && i >= |now|
    ensures now == NotFrom(before, a) && done >= |before|
  {
    assert before[..done] == before;
  }

  /** The four ways in which a job ends. */
  lemma JobEnds(s: Server, a: Address, sends: bool)
    requires s.cache.Valid()
    ensures a in s.listing ==>
              Step(s, ChangelistDone(a)) == s.(listing := s.listing - multiset{a}, users := s.users - multiset{a})
    ensures a in s.patching ==>
              Step(s, PatchDone(a, sends)) ==
                if sends then s.(patching := s.patching - multiset{a}, transfers := s.transfers + multiset{a})
                else s.(patching := s.patching - multiset{a}, users := s.users - multiset{a})
    ensures a in s.transfers ==>
              Step(s, TransferDone(a)) == s.(transfers := s.transfers - multiset{a}, users := s.users - multiset{a})
    ensures a in s.pushes ==>
              Step(s, PushDone(a)) == s.(pushes := s.pushes - multiset{a}, users := s.users - multiset{a})
  {
  }

  class AutopatcherServer {
    var patchingUsers: seq<Address>
    var maxConcurrentUsers: nat
    var cache: Cache
    var userRequestWaitingQueue: seq<Request>
    var threadPoolInput: seq<Request>
    /** What the worker threads and the file transfers are busy with. */
    ghost var listing: multiset<Address>
    ghost var patching: multiset<Address>
    ghost var transfers: multiset<Address>
    ghost var pushes: multiset<Address>

    ghost function State(): Server
      reads this
    {
      Server(multiset(patchingUsers), maxConcurrentUsers, cache, userRequestWaitingQueue, threadPoolInput, listing,
             patching, transfers, pushes)
    }

    ghost predicate Valid()
      reads this
    {
      cache.Valid()
    }

    constructor ()
      ensures Valid() && Initial(State()) && maxConcurrentUsers == 0 && !cache.loaded
      ensures patchingUsers == [] && userRequestWaitingQueue == [] && threadPoolInput == []
    {
      patchingUsers, userRequestWaitingQueue, threadPoolInput, maxConcurrentUsers := [], [], [], 0;
      cache := Cache(false, "", 0.0, 0.0, [], [], [], []);
      listing, patching, transfers, pushes := multiset{}, multiset{}, multiset{}, multiset{};
    }

    method PatchingUserLimitReached() returns (reached: bool)
      ensures reached == State().LimitReached()
      ensures reached <==> maxConcurrentUsers != 0 && |patchingUsers| >= maxConcurrentUsers
    {
      if maxConcurrentUsers == 0 {
        return false;
      }
      reached := |patchingUsers| >= maxConcurrentUsers;
    }

    method IncrementPatchingUserCount(sa: Address)
      modifies this`patchingUsers
      ensures patchingUsers == old(patchingUsers) + [sa]
      ensures State() == old(State()).(users := old(State()).users + multiset{sa})
    {
      patchingUsers := patchingUsers + [sa];
    }

    method RemoveAtIndexFast(i: nat)
      requires i < |patchingUsers|
      modifies this`patchingUsers
      ensures var users := old(patchingUsers); patchingUsers == users[i := users[|users| - 1]][..|users| - 1]
      ensures multiset(patchingUsers) == multiset(old(patchingUsers)) - multiset{old(patchingUsers)[i]}
    {
      RemovedFast(patchingUsers, i);
      patchingUsers := patchingUsers[i := patchingUsers[|patchingUsers| - 1]][..|patchingUsers| - 1];
    }

    /** Frees one slot of the address if it has any. */
    method DecrementPatchingUserCount(sa: Address) returns (found: bool)
      modifies this`patchingUsers
      ensures found == (sa in old(State()).users)
      ensures State() == old(State()).(users := old(State()).users - multiset{sa})
    {
      var i := 0;
      while i < |patchingUsers|
        invariant 0 <= i <= |patchingUsers| && patchingUsers == old(patchingUsers)
        invariant sa !in patchingUsers[..i]
      {
        if patchingUsers[i] == sa {
          assert sa in multiset(patchingUsers);
          RemoveAtIndexFast(i);
          return true;
        }
        i := i + 1;
      }
      assert patchingUsers[..i] == patchingUsers;
      NotListed(patchingUsers, sa);
      found := false;
    }

    /** `OnGetChangelistSinceDateInt` and `OnGetPatchInt`. */
    method StartRequest(r: Request)
      modifies this`patchingUsers, this`threadPoolInput
      ensures State() == Start(old(State()), r)
      ensures patchingUsers == old(patchingUsers) + if HasWork(r) then [r.address] else []
      ensures threadPoolInput == old(threadPoolInput) + if HasWork(r) then [r] else []
    {
      if r.GetPatch? && (r.files == None || r.files.value == []) {
        return;
      }
      IncrementPatchingUserCount(r.address);
      threadPoolInput := threadPoolInput + [r];
    }

    method StartOrQueue(r: Request)
      modifies this`patchingUsers, this`threadPoolInput, this`userRequestWaitingQueue
      ensures State() == Admit(old(State()), r)
      ensures Accepted(old(State()), r, State())
    {
      var reached := PatchingUserLimitReached();
      if reached {
        userRequestWaitingQueue := userRequestWaitingQueue + [r];
        return;
      }
      StartRequest(r);
    }

    /** Returns what the client is told from memory, if anything. */
    method OnGetChangelistSinceDate(r: Request) returns (sent: seq<Message>)
      requires Valid() && r.GetChangelist?
      modifies this`patchingUsers, this`threadPoolInput, this`userRequestWaitingQueue
      ensures Valid() && State() == Step(old(State()), Receive(r))
      ensures var c, t := cache, r.lastUpdate;
              var known := c.loaded && t != 0.0 && r.application == c.application;
              if known && c.maxTime != 0.0 && t > c.maxTime then sent == [Finished] && State() == old(State())
              else if known && c.minTime != 0.0 && t > c.minTime then
                && sent == (if c.deletedFiles != [] then [DeletionList(c.deletedFiles)] else [])
                           + [if c.changedFiles != [] then CreationList(c.changedFiles, t) else Finished]
                && State() == old(State())
              else sent == [] && Accepted(old(State()), r, State())
    {
      hide Admit, Accepted;
      sent := [];
      if cache.loaded && r.lastUpdate != 0.0 && r.application == cache.application {
        if cache.maxTime != 0.0 && r.lastUpdate > cache.maxTime {
          return [Finished];
        }
        if cache.minTime != 0.0 && r.lastUpdate > cache.minTime {
          if |cache.deletedFiles| > 0 {
            sent := [DeletionList(cache.deletedFiles)];
          }
          if |cache.changedFiles| > 0 {
            sent := sent + [CreationList(cache.changedFiles, r.lastUpdate)];
          } else {
            sent := sent + [Finished];
          }
          return;
        }
      }
      StartOrQueue(r);
    }

    /** The reply to a patch request, as far as it can be given from memory. */
    method CacheReply(r: Request) returns (reply: Reply)
      requires Valid() && r.GetPatch?
      ensures reply == ReplyTo(cache, r)
    {
      hide AnswerTo;
      if !(r.application == cache.application && r.lastUpdate != 0.0 && cache.loaded && cache.minTime != 0.0 &&
           r.lastUpdate > cache.minTime) {
        return NeedsWorker;
      }
      if r.files == None || r.files.value == [] {
        return Refused;
      }
      var answer := LookUp(cache, r.files.value);
      match answer {
        case FromCache(patchList) => reply := Pushed(patchList);
        case Dropped => reply := Refused;
        case FromDatabase => reply := NeedsWorker;
      }
    }

    /** Returns the list that is pushed from the cache, if any. */
    method OnGetPatch(r: Request) returns (sent: Option<seq<Node>>)
      requires Valid() && r.GetPatch?
      modifies this`patchingUsers, this`threadPoolInput, this`userRequestWaitingQueue, this`pushes
      ensures Valid() && State() == Step(old(State()), Receive(r))
      ensures sent == match ReplyTo(cache, r) { case Pushed(list) => Some(list) case _ => None }
      ensures match ReplyTo(cache, r) {
                case NeedsWorker => Accepted(old(State()), r, State())
                case Pushed(_) =>
                  && patchingUsers == old(patchingUsers) + [r.address] && pushes == old(pushes) + multiset{r.address}
                  && userRequestWaitingQueue == old(userRequestWaitingQueue) && threadPoolInput == old(threadPoolInput)
                case _ => State() == old(State())
              }
    {
      hide ReplyTo, Admit, Accepted;
      sent := None;
      var reply := CacheReply(r);
      match reply {
        case Refused =>
        case Answered =>
        case Pushed(patchList) =>
          IncrementPatchingUserCount(r.address);
          pushes := pushes + multiset{r.address};
          sent := Some(patchList);
        case NeedsWorker =>
          StartOrQueue(r);
      }
    }

    method Update()
      requires Valid()
      modifies this`patchingUsers, this`threadPoolInput, this`userRequestWaitingQueue
      ensures Valid() && State() == DispatchAll(old(State()))
    {
      var reached := PatchingUserLimitReached();
      while !reached && |userRequestWaitingQueue| > 0
        invariant Valid() && reached == State().LimitReached()
        invariant DispatchAll(State()) == DispatchAll(old(State()))
        decreases |userRequestWaitingQueue|
      {
        var packet := userRequestWaitingQueue[0];
        userRequestWaitingQueue := userRequestWaitingQueue[1..];
        StartRequest(packet);
        reached := PatchingUserLimitReached();
      }
    }

    /** A worker thread takes the oldest request from its input. */
    method BeginWork() returns (r: Request)
      requires Valid() && threadPoolInput != []
      modifies this`threadPoolInput, this`listing, this`patching
      ensures Valid() && r == old(threadPoolInput)[0] && State() == Step(old(State()), Begin)
      ensures threadPoolInput == old(threadPoolInput)[1..]
      ensures listing == old(listing) + if r.GetChangelist? then multiset{r.address} else multiset{}
      ensures patching == old(patching) + if r.GetPatch? then multiset{r.address} else multiset{}
    {
      r := threadPoolInput[0];
      threadPoolInput := threadPoolInput[1..];
      if r.GetChangelist? {
        listing := listing + multiset{r.address};
      } else {
        patching := patching + multiset{r.address};
      }
    }

    /** The end of `GetChangelistSinceDateCB`; the result is sent only if the address still had a slot. */
    method GetChangelistSinceDateCB(sa: Address) returns (sent: bool)
      requires Valid() && sa in listing
      modifies this`patchingUsers, this`listing
      ensures Valid() && State() == Step(old(State()), ChangelistDone(sa))
      ensures multiset(patchingUsers) == multiset(old(patchingUsers)) - multiset{sa} &&
                listing == old(listing) - multiset{sa}
      ensures sent == (sa in old(State()).users)
    {
      hide Step;
      JobEnds(State(), sa, false);
      sent := DecrementPatchingUserCount(sa);
      listing := listing - multiset{sa};
    }

    /** The end of `GetPatchCB`, with the repository's result code and whether there are files to send. */
    method GetPatchCB(sa: Address, resultCode: int, anyFiles: bool) returns (replied: bool)
      requires Valid() && sa in patching
      modifies this`patchingUsers, this`patching, this`transfers
      ensures Valid() && State() == Step(old(State()), PatchDone(sa, resultCode == 1 && anyFiles))
      ensures replied == (resultCode == 1 || sa in old(State()).users)
      ensures patching == old(patching) - multiset{sa}
      ensures if resultCode == 1 && anyFiles
              then patchingUsers == old(patchingUsers) && transfers == old(transfers) + multiset{sa}
              else multiset(patchingUsers) == multiset(old(patchingUsers)) - multiset{sa} && transfers == old(transfers)
    {
      hide Step;
      JobEnds(State(), sa, resultCode == 1 && anyFiles);
      replied := true;
      if resultCode == 1 {
        if anyFiles {
          transfers := transfers + multiset{sa};
        } else {
          var _ := DecrementPatchingUserCount(sa);
        }
      } else {
        replied := DecrementPatchingUserCount(sa);
      }
      patching := patching - multiset{sa};
    }

    /** `OnFilePushesComplete` and `OnSendAborted` for files that a worker had sent. */
    method OnTransferEnd(sa: Address) returns (found: bool)
      requires Valid() && sa in transfers
      modifies this`patchingUsers, this`transfers
      ensures Valid() && State() == Step(old(State()), TransferDone(sa)) && found == (sa in old(State()).users)
      ensures multiset(patchingUsers) == multiset(old(patchingUsers)) - multiset{sa} &&
                transfers == old(transfers) - multiset{sa}
    {
      hide Step;
      JobEnds(State(), sa, false);
      found := DecrementPatchingUserCount(sa);
      transfers := transfers - multiset{sa};
    }

    /** The same for files from the cache. */
    method OnPushEnd(sa: Address) returns (found: bool)
      requires Valid() && sa in pushes
      modifies this`patchingUsers, this`pushes
      ensures Valid() && State() == Step(old(State()), PushDone(sa)) && found == (sa in old(State()).users)
      ensures multiset(patchingUsers) == multiset(old(patchingUsers)) - multiset{sa} &&
                pushes == old(pushes) - multiset{sa}
    {
      hide Step;
      JobEnds(State(), sa, false);
      found := DecrementPatchingUserCount(sa);
      pushes := pushes - multiset{sa};
    }

    /** Calls off the queued requests of an address.  Each of them gives back one of its slots while it
        has any; `aborted` is how many did. */
    method RemoveFromThreadPool(sa: Address) returns (aborted: nat)
      modifies this`patchingUsers, this`threadPoolInput
      ensures threadPoolInput == NotFrom(old(threadPoolInput), sa)
      ensures var users := multiset(old(patchingUsers));
              multiset(patchingUsers) == users[sa := Left(users[sa], Owned(old(threadPoolInput), sa))]
      ensures aborted + multiset(patchingUsers)[sa] == multiset(old(patchingUsers))[sa]
    {
      hide Cleaned, NotFrom, Owned, Left, PaidBack;
      var i := 0;
      aborted := 0;
      ghost var done, slots := 0, multiset(patchingUsers);
      CleanedStart(threadPoolInput, sa);
      PaidStart(slots, threadPoolInput, sa);
      while i < |threadPoolInput|
        invariant Cleaned(old(threadPoolInput), threadPoolInput, done, i, sa)
        invariant PaidBack(slots, multiset(patchingUsers), old(threadPoolInput), done, sa, aborted)
        decreases |threadPoolInput| - i
      {
        CleanedStep(old(threadPoolInput), threadPoolInput, done, i, sa);
        PaidStep(slots, multiset(patchingUsers), old(threadPoolInput), done, sa, aborted);
        if threadPoolInput[i].address == sa {
          var found := DecrementPatchingUserCount(sa);
          if found {
            aborted := aborted + 1;
          }
          threadPoolInput := threadPoolInput[..i] + threadPoolInput[i + 1..];
        } else {
          i := i + 1;
        }
        done := done + 1;
      }
      CleanedEnd(old(threadPoolInput), threadPoolInput, done, i, sa);
      PaidEnd(slots, multiset(patchingUsers), old(threadPoolInput), done, sa, aborted);
    }

    /** Takes all slots of an address away. */
    method RemoveUser(sa: Address)
      modifies this`patchingUsers
      ensures multiset(patchingUsers) == multiset(old(patchingUsers))[sa := 0]
    {
      var i := 0;
      while i < |patchingUsers|
        invariant 0 <= i <= |patchingUsers| && sa !in patchingUsers[..i]
        invariant multiset(patchingUsers)[sa := 0] == multiset(old(patchingUsers))[sa := 0]
        decreases |patchingUsers| - i
      {
        if patchingUsers[i] == sa {
          RemoveAtIndexFast(i);
        } else {
          i := i + 1;
        }
      }
      assert patchingUsers[..i] == patchingUsers;
      assert multiset(patchingUsers)[sa := 0] == multiset(patchingUsers);
    }

    method RemoveFromWaitingQueue(sa: Address)
      modifies this`userRequestWaitingQueue
      ensures userRequestWaitingQueue == NotFrom(old(userRequestWaitingQueue), sa)
    {
      hide Cleaned, NotFrom;
      var i := 0;
      ghost var done := 0;
      CleanedStart(userRequestWaitingQueue, sa);
      while i < |userRequestWaitingQueue|
        invariant Cleaned(old(userRequestWaitingQueue), userRequestWaitingQueue, done, i, sa)
        decreases |userRequestWaitingQueue| - i
      {
        CleanedStep(old(userRequestWaitingQueue), userRequestWaitingQueue, done, i, sa);
        if userRequestWaitingQueue[i].address == sa {
          userRequestWaitingQueue := userRequestWaitingQueue[..i] + userRequestWaitingQueue[i + 1..];
        } else {
          i := i + 1;
        }
        done := done + 1;
      }
      CleanedEnd(old(userRequestWaitingQueue), userRequestWaitingQueue, done, i, sa);
    }

    method OnClosedConnection(sa: Address)
      requires Valid()
      modifies this`patchingUsers, this`threadPoolInput, this`userRequestWaitingQueue
      ensures Valid() && State() == Step(old(State()), Disconnect(sa))
      ensures forall a :: multiset(patchingUsers)[a] == if a == sa then 0 else multiset(old(patchingUsers))[a]
      ensures forall a :: Of(threadPoolInput, a) == if a == sa then [] else Of(old(threadPoolInput), a)
      ensures forall a :: Of(userRequestWaitingQueue, a) == if a == sa then [] else Of(old(userRequestWaitingQueue), a)
    {
      hide Of, NotFrom, Owned, Left;
      var _ := RemoveFromThreadPool(sa);
      RemoveUser(sa);
      RemoveFromWaitingQueue(sa);
      forall a
        ensures Of(threadPoolInput, a) == if a == sa then [] else Of(old(threadPoolInput), a)
        ensures Of(userRequestWaitingQueue, a) == if a == sa then [] else Of(old(userRequestWaitingQueue), a)
      {
        OfNotFrom(old(threadPoolInput), sa, a);
        OfNotFrom(old(userRequestWaitingQueue), sa, a);
      }
    }

    /** Gives back one slot for every queued request whose address has any; `aborted` lists them. */
    method AbortInput() returns (aborted: seq<Address>)
      modifies this`patchingUsers
      ensures forall a :: multiset(patchingUsers)[a] == Left(multiset(old(patchingUsers))[a], Owned(threadPoolInput, a))
      ensures forall a :: multiset(aborted)[a] + multiset(patchingUsers)[a] == multiset(old(patchingUsers))[a]
    {
      hide Owned, Left, AllPaid;
      aborted := [];
      ghost var slots := multiset(patchingUsers);
      AllPaidStart(slots, threadPoolInput);
      var i := 0;
      while i < |threadPoolInput|
        invariant AllPaid(slots, multiset(patchingUsers), threadPoolInput, i, multiset(aborted))
      {
        AllPaidStep(slots, multiset(patchingUsers), threadPoolInput, i, multiset(aborted));
        var sa := threadPoolInput[i].address;
        var found := DecrementPatchingUserCount(sa);
        if found {
          aborted := aborted + [sa];
        }
        i := i + 1;
      }
      AllPaidEnd(slots, multiset(patchingUsers), threadPoolInput, i, multiset(aborted));
    }

    /** The worker threads have been stopped, each after the request it was working on.  `aborted` are
        the requests that are reported as called off. */
    method ClearAll() returns (aborted: seq<Address>)
      requires Valid() && listing == patching == multiset{}
      modifies this`patchingUsers, this`threadPoolInput, this`userRequestWaitingQueue
      ensures Valid() && State() == Step(old(State()), Clear)
      ensures patchingUsers == [] && threadPoolInput == [] && userRequestWaitingQueue == []
      ensures forall a :: var n, k := multiset(old(patchingUsers))[a], |Of(old(threadPoolInput), a)|;
                multiset(aborted)[a] == if n < k then n else k
    {
      hide Owned, Of;
      aborted := AbortInput();
      threadPoolInput := [];
      while |userRequestWaitingQueue| > 0
        invariant threadPoolInput == []
      {
        userRequestWaitingQueue := userRequestWaitingQueue[1..];
      }
      patchingUsers := [];
      forall a ensures |Of(old(threadPoolInput), a)| == Owned(old(threadPoolInput), a) {
        OwnedIs(old(threadPoolInput), a);
      }
    }

    /** Loads the most recent patch if there is a connection to a repository.  `answer` is what the
        repository fills in, of which nothing is used when it reports that it has failed. */
    method CacheMostRecentPatch(application: string, connected: bool, answer: Cache)
      requires Valid() && answer.Valid()
      modifies this`cache
      ensures Valid()
      ensures connected ==> State() == Step(old(State()), LoadCache(answer.(application := application)))
      ensures connected ==> cache == answer.(application := application)
      ensures !connected ==> State() == old(State())
      ensures connected && !answer.loaded ==> forall r: Request :: ReplyTo(cache, r) == NeedsWorker
      ensures connected ==> forall r: Request :: r.application != application ==> ReplyTo(cache, r) == NeedsWorker
    {
      hide ReplyTo;
      if connected {
        cache := answer.(application := application);
        forall r: Request ensures r.application != application || !answer.loaded ==> ReplyTo(cache, r) == NeedsWorker {
          NothingFromMemory(cache, r);
        }
      }
    }

    method SetMaxConcurrentUsers(n: nat)
      requires Valid()
      modifies this`maxConcurrentUsers
      ensures Valid() && State() == Step(old(State()), SetLimit(n)) && maxConcurrentUsers == n
    {
      maxConcurrentUsers := n;
    }
  }
}
