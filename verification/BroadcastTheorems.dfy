/** The broadcast server over whole runs: one order for all clients, and a sound registry. */
module BroadcastTheorems {
  import opened Wrappers
  import opened Broadcast
  import opened BroadcastProtocol

  /**
   In every run, what each client was sent is a contiguous slice of one global log: it starts at the
   client's registration and ends at its removal, or reaches the end of the log while the client is
   registered. Only a broadcast under way can still be missing.
   */
  lemma {:induction false} EveryClientSeesASliceOfOneLog(ss: seq<State>, ls: seq<Label>, i: nat, c: nat)
    requires Run(ss, ls) && i < |ss| && c < |ss[i].conns|
    ensures var s, k := ss[i], ss[i].conns[c];
      if k.start.None? then k.sent == []
      else if k.stop.Some? then
        k.start.value <= k.stop.value <= |s.log| && k.sent == s.log[k.start.value..k.stop.value]
      else
        k.start.value <= |s.log| &&
        (k.sent == s.log[k.start.value..]
         || ((exists d :: 0 <= d < |s.conns| && s.conns[d].pc.Sending?)
             && k.start.value < |s.log| && k.sent == s.log[k.start.value..|s.log| - 1]))
  {
    hide Run, Mirrors, Stages, Distinct, Locking, Current, Ordered;
    RunsKeep(ss, ls, i);
    var s, k := ss[i], ss[i].conns[c];
    if k.start.Some? && k.stop.None? {
      assert c in s.members;
      var j :| 0 <= j < |s.members| && s.members[j] == c;
      assert MemberDelivered(s, j);
    }
  }

  /** The log only grows, and a recorded registration or removal never moves. */
  lemma {:induction false} HistoryIsKept(ss: seq<State>, ls: seq<Label>, i: nat, c: nat)
    requires Run(ss, ls) && i < |ls| && c < |ss[i].conns|
    ensures ss[i].log <= ss[i + 1].log && c < |ss[i + 1].conns|
    ensures var k, k' := ss[i].conns[c], ss[i + 1].conns[c];
      (k.start.Some? ==> k'.start == k.start) && (k.stop.Some? ==> k'.stop == k.stop) && k.sent <= k'.sent && k'.fd == k.fd
      && (k.start.None? && k'.start.Some? ==> k'.start == Some(|ss[i].log|))
      && (k.stop.None? && k'.stop.Some? ==> k'.stop == Some(|ss[i].log|))
  {
    hide Run, Inv, Step, Stage;
    RunSteps(ss, ls, i);
    RunsKeep(ss, ls, i);
    StageOf(ss[i], c);
    StageOf(ss[i], |ss[i].conns| - 1);
    StepKeepsHistory(ss[i], ls[i], ss[i + 1], c);
  }

  lemma StepKeepsHistory(s: State, l: Label, s': State, c: nat)
    requires Step(s, l, s') && c < |s.conns| && Stage(s, c) && Stage(s, |s.conns| - 1)
    ensures s.log <= s'.log && c < |s'.conns|
    ensures var k, k' := s.conns[c], s'.conns[c];
      (k.start.Some? ==> k'.start == k.start) && (k.stop.Some? ==> k'.stop == k.stop) && k.sent <= k'.sent && k'.fd == k.fd
      && (k.start.None? && k'.start.Some? ==> k'.start == Some(|s.log|))
      && (k.stop.None? && k'.stop.Some? ==> k'.stop == Some(|s.log|))
  {
    hide Stage;
    if ByMain(l) {
      MainKeepsHistory(s, l, s', c);
    } else {
      HandlerKeepsHistory(s, l, s', c);
    }
  }

  lemma MainKeepsHistory(s: State, l: Label, s': State, c: nat)
    requires Step(s, l, s') && ByMain(l) && c < |s.conns| && Stage(s, |s.conns| - 1)
    ensures s'.log == s.log && c < |s'.conns|
    ensures var k, k' := s.conns[c], s'.conns[c];
      k'.stop == k.stop && k'.sent == k.sent && k'.fd == k.fd
      && (k'.start == k.start || (k.start.None? && k'.start == Some(|s.log|)))
  {
    hide IsOpen;
  }

  lemma HandlerKeepsHistory(s: State, l: Label, s': State, c: nat)
    requires Step(s, l, s') && !ByMain(l) && c < |s.conns| && Stage(s, c)
    ensures s.log <= s'.log && c < |s'.conns|
    ensures var k, k' := s.conns[c], s'.conns[c];
      k'.start == k.start && k.sent <= k'.sent && k'.fd == k.fd
      && (k'.stop == k.stop || (k.stop.None? && k'.stop == Some(|s.log|)))
  {
    hide IsOpen, Removal;
  }

  lemma RunSteps(ss: seq<State>, ls: seq<Label>, i: nat)
    requires Run(ss, ls) && i < |ls|
    ensures |ss| == |ls| + 1 && Step(ss[i], ls[i], ss[i + 1])
  {
    hide Step, Init;
  }

  lemma StageOf(s: State, c: nat)
    requires Inv(s) && c < |s.conns|
    ensures Stage(s, c)
  {
    hide Stage, Mirrors, Membership, Distinct, Locking, Current, Delivered, Ordered;
  }

  /** The log restricted to a sender is its requests in order; at most the newest is not yet logged. */
  lemma {:induction false} SendersKeepTheirOrder(ss: seq<State>, ls: seq<Label>, i: nat, c: nat)
    requires Run(ss, ls) && i < |ss| && c < |ss[i].conns|
    ensures var k, logged := ss[i].conns[c], From(ss[i].log, c);
      k.requests == if k.pc.WantSend? then logged + [k.pc.message] else logged
  {
    hide Run, Mirrors, Membership, Stages, Distinct, Locking, Current, Delivered, From;
    RunsKeep(ss, ls, i);
  }

  /** The array holds, without duplicates and in accept order, the open sockets registered and not yet removed. */
  lemma {:induction false} RegistryIsSound(ss: seq<State>, ls: seq<Label>, i: nat)
    requires Run(ss, ls) && i < |ss|
    ensures var s := ss[i];
      (forall a, b :: 0 <= a < b < |s.socks| ==> s.socks[a] != s.socks[b])
      && |s.socks| == |s.members|
      && (forall j :: 0 <= j < |s.members| ==>
            s.members[j] < |s.conns| && s.conns[s.members[j]].fd == s.socks[j] && s.conns[s.members[j]].pc != Closed)
      && (forall i, j :: 0 <= i < j < |s.members| ==> s.members[i] < s.members[j])
      && (forall c :: 0 <= c < |s.conns| ==> (c in s.members <==> s.conns[c].start.Some? && s.conns[c].stop.None?))
  {
    hide Run, Locking, Current, Delivered, Ordered;
    RunsKeep(ss, ls, i);
    var s := ss[i];
    forall j | 0 <= j < |s.members| ensures IsOpen(s.conns[s.members[j]]) {
      assert s.members[j] in s.members;
      assert Stage(s, s.members[j]);
    }
  }

  /** Every cleanup finds its own socket, once, and takes out exactly that entry. */
  lemma {:induction false} CleanupFindsItsEntry(ss: seq<State>, ls: seq<Label>, i: nat, c: nat)
    requires Run(ss, ls) && i < |ls| && ls[i] == Remove(c)
    ensures var s, s' := ss[i], ss[i + 1];
      c < |s.conns| && s.conns[c].sock in s.socks
      && forall j :: 0 <= j < |s.socks| && s.socks[j] == s.conns[c].sock ==>
           s'.socks == s.socks[..j] + s.socks[j + 1..] && j < |s.members| && s.members[j] == c
  {
    hide Run, Locking, Current, Delivered, Ordered, Removal;
    RunSteps(ss, ls, i);
    RunsKeep(ss, ls, i);
    var s := ss[i];
    RemovesOwnEntry(s, c);
    RegistryIsSound(ss, ls, i);
    var j :| 0 <= j < |s.members| && s.members[j] == c;
    assert Stage(s, c);
    assert s.socks[j] == s.conns[c].sock;
  }

  /** No two threads are ever in a critical section together. */
  lemma {:induction false} CriticalSectionsExclude(ss: seq<State>, ls: seq<Label>, i: nat)
    requires Run(ss, ls) && i < |ss|
    ensures var s := ss[i];
      (forall c, d | 0 <= c < d < |s.conns| ::
         !((s.conns[c].pc.Sending? || s.conns[c].pc == Removing || s.conns[c].pc == Removed)
           && (s.conns[d].pc.Sending? || s.conns[d].pc == Removing || s.conns[d].pc == Removed)))
      && (s.main in {Registering, Registered} ==> forall c :: 0 <= c < |s.conns| ==>
            !s.conns[c].pc.Sending? && s.conns[c].pc != Removing && s.conns[c].pc != Removed)
  {
    hide Run, Mirrors, Membership, Stages, Distinct, Current, Delivered, Ordered;
    RunsKeep(ss, ls, i);
    var s := ss[i];
    assert forall c :: 0 <= c < |s.conns| ==> (s.lock == Some(Handler(c)) <==> Critical(s.conns[c].pc));
  }

  // The mutex is always given back.

  /** Steps its holder has left before it releases the mutex. */
  function Remaining(s: State): nat {
    match s.lock
    case None => 0
    case Some(Main) => if s.main == Registering then 2 else 1
    case Some(Handler(c)) =>
      if c >= |s.conns| then 0
      else match s.conns[c].pc
        case Sending(_, i) => if i <= |s.socks| then |s.socks| - i + 1 else 0
        case Removing => 2
        case _ => 1
  }

  predicate ByHolder(s: State, l: Label) {
    s.lock == Some(Actor(l))
  }

  /** While the mutex is held nobody else can lengthen the critical section, and its holder shortens it. */
  lemma {:induction false} CriticalSectionsEnd(ss: seq<State>, ls: seq<Label>, i: nat)
    requires Run(ss, ls) && i < |ls| && ss[i].lock.Some?
    ensures if ss[i].lock == Some(Actor(ls[i])) then Remaining(ss[i + 1]) == Remaining(ss[i]) - 1
            else ss[i + 1].lock == ss[i].lock && Remaining(ss[i + 1]) == Remaining(ss[i])
    ensures Remaining(ss[i]) > 0 && (Remaining(ss[i + 1]) == 0 <==> ss[i + 1].lock.None?)
  {
    hide Run, Step, Remaining, Mirrors, Membership, Distinct, Delivered, Ordered, Stage, Locking, Current;
    RunSteps(ss, ls, i);
    RunsKeep(ss, ls, i);
    RunsKeep(ss, ls, i + 1);
    MutexStep(ss[i], ls[i], ss[i + 1]);
  }

  lemma MutexStep(s: State, l: Label, s': State)
    requires Step(s, l, s') && s.lock.Some? && Locking(s) && Locking(s') && Stages(s) && Current(s) && Current(s')
    ensures if ByHolder(s, l) then Remaining(s') == Remaining(s) - 1
            else s'.lock == s.lock && Remaining(s') == Remaining(s)
    ensures Remaining(s) > 0 && (Remaining(s') == 0 <==> s'.lock.None?)
  {
    hide Step, Remaining, Locking, Stages, Current, ByHolder;
    match s.lock
    case Some(Main) => MutexStepUnderMain(s, l, s');
    case Some(Handler(c)) =>
      if ByHolder(s, l) {
        HolderSteps(s, l, s', c);
      } else {
        OthersWait(s, l, s', c);
      }
  }

  lemma MutexStepUnderMain(s: State, l: Label, s': State)
    requires Step(s, l, s') && s.lock == Some(Main) && Locking(s) && Locking(s') && Stages(s)
    ensures if ByHolder(s, l) then Remaining(s') == Remaining(s) - 1
            else s'.lock == s.lock && Remaining(s') == Remaining(s)
    ensures Remaining(s) > 0 && (Remaining(s') == 0 <==> s'.lock.None?)
  {
    hide Removal, IsOpen, Stage;
    assert forall c :: 0 <= c < |s.conns| ==> !Critical(s.conns[c].pc);
  }

  lemma HolderSteps(s: State, l: Label, s': State, c: nat)
    requires Step(s, l, s') && s.lock == Some(Handler(c)) && Locking(s) && Current(s) && ByHolder(s, l)
    ensures Remaining(s') == Remaining(s) - 1 && Remaining(s) > 0 && (Remaining(s') == 0 <==> s'.lock.None?)
  {
    hide Removal, IsOpen;
    assert Critical(s.conns[c].pc);
  }

  lemma OthersWait(s: State, l: Label, s': State, c: nat)
    requires Step(s, l, s') && s.lock == Some(Handler(c)) && Locking(s) && Stages(s) && Current(s) && !ByHolder(s, l)
    ensures s'.lock == s.lock && Remaining(s') == Remaining(s) > 0
  {
    hide Remaining, Locking, Stages, Current, Stage;
    HolderPcKept(s, l, s', c);
    assert Remaining(s') == Remaining(s) > 0 by {
      SameRemaining(s, s', c);
    }
  }

  lemma HolderPcKept(s: State, l: Label, s': State, c: nat)
    requires Step(s, l, s') && s.lock == Some(Handler(c)) && Locking(s) && Stages(s) && !ByHolder(s, l)
    ensures s'.lock == s.lock && c < |s.conns| <= |s'.conns| && s'.conns[c].pc == s.conns[c].pc && s'.socks == s.socks
  {
    hide Removal, IsOpen;
    assert Stage(s, |s.conns| - 1);
    assert Critical(s.conns[c].pc);
    if !ByMain(l) {
      assert l.c < |s.conns| && (s.lock == Some(Handler(l.c)) <==> Critical(s.conns[l.c].pc));
      OthersUntouched(s, l, s', c);
    }
  }

  lemma SameRemaining(s: State, s': State, c: nat)
    requires s.lock == s'.lock == Some(Handler(c)) && c < |s.conns| <= |s'.conns|
    requires s'.conns[c].pc == s.conns[c].pc && s'.socks == s.socks && Locking(s) && Current(s)
    ensures Remaining(s') == Remaining(s) > 0
  {
    assert Critical(s.conns[c].pc);
  }

  /** The thread that holds the mutex can always take its next step (the array has room for a new client). */
  lemma {:induction false} HolderIsNeverStuck(ss: seq<State>, ls: seq<Label>, i: nat)
    requires Run(ss, ls) && i < |ss| && ss[i].lock.Some? && (ss[i].main == Registering ==> |ss[i].socks| < 100)
    ensures exists l, s' :: ss[i].lock == Some(Actor(l)) && Step(ss[i], l, s')
  {
    hide Run, Membership, Distinct, Delivered, Ordered, Removal;
    RunsKeep(ss, ls, i);
    var s := ss[i];
    match s.lock
    case Some(Main) => MainGoesOn(s);
    case Some(Handler(c)) => HandlerGoesOn(s, c);
  }

  lemma MainGoesOn(s: State)
    requires Inv(s) && s.lock == Some(Main) && (s.main == Registering ==> |s.socks| < MAX_CLNT)
    ensures exists l, s' :: ByHolder(s, l) && Step(s, l, s')
  {
    hide Mirrors, Membership, Distinct, Delivered, Ordered, Current, Stage;
    if s.main == Registering {
      var n := |s.conns| - 1;
      var s' := s.(main := Registered, socks := s.socks + [s.clntSock], members := s.members + [n],
                   conns := s.conns[n := s.conns[n].(start := Some(|s.log|))]);
      assert Step(s, MainAppend, s');
    } else {
      assert Step(s, MainUnlock, s.(main := Spawning, lock := None));
    }
  }

  lemma SenderGoesOn(s: State, c: nat, m: Message, i: nat)
    requires Mirrors(s) && Membership(s) && Stages(s) && c < |s.conns| && s.conns[c].pc == Sending(m, i) && i < |s.socks|
    ensures exists k, s' :: Step(s, Write(c, k), s')
  {
    var k := s.members[i];
    assert k in s.members;
    assert Stage(s, k);
    var s' := WithPc(s.(conns := s.conns[k := s.conns[k].(sent := s.conns[k].sent + [Entry(c, m)])]), c, Sending(m, i + 1));
    assert Step(s, Write(c, k), s');
  }

  lemma HandlerGoesOn(s: State, c: nat)
    requires Inv(s) && s.lock == Some(Handler(c))
    ensures exists l, s' :: ByHolder(s, l) && Step(s, l, s')
  {
    hide Distinct, Delivered, Ordered, Removal;
    assert Critical(s.conns[c].pc);
    match s.conns[c].pc
    case Sending(m, i) =>
      if i < |s.socks| {
        SenderGoesOn(s, c, m, i);
      } else {
        assert Step(s, UnlockSend(c), WithPc(s, c, Reading).(lock := None));
      }
    case Removing =>
      assert Step(s, Remove(c),
                  s.(socks := Removal(s.socks, s.conns[c].sock), members := Removal(s.members, c),
                     conns := s.conns[c := s.conns[c].(pc := Removed, stop := Some(|s.log|))]));
    case Removed => assert Step(s, UnlockRemove(c), WithPc(s, c, Closing).(lock := None));
    case _ =>
  }
}
