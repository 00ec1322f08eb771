/**
 What each thread of the broadcast server does in which order, and what it can do next: the labels of
 a run against the statements of the program.
 */
module BroadcastProgram {
  import opened Wrappers
  import opened Broadcast
  import opened BroadcastProtocol
  import opened BroadcastTheorems

  /** The last step of a thread. */
  function LastBy(ls: seq<Label>, t: Thread): (last: Option<Label>)
    ensures last.None? ==> forall j :: 0 <= j < |ls| ==> Actor(ls[j]) != t
    ensures last.Some? ==> exists j ::
              0 <= j < |ls| && ls[j] == last.value && Actor(ls[j]) == t && forall k :: j < k < |ls| ==> Actor(ls[k]) != t
  {
    if ls == [] then None
    else if Actor(ls[|ls| - 1]) == t then Some(ls[|ls| - 1])
    else
      var front := ls[..|ls| - 1];
      var last := LastBy(front, t);
      assert forall j :: 0 <= j < |front| ==> front[j] == ls[j];
      last
  }

  lemma LastGrows(ls: seq<Label>, l: Label, t: Thread)
    ensures LastBy(ls + [l], t) == if Actor(l) == t then Some(l) else LastBy(ls, t)
  {
    assert (ls + [l])[..|ls|] == ls;
  }

  predicate MainAt(main: MainPc, last: Option<Label>) {
    match last
    case None => main == Accepting
    case Some(l) =>
      if l.Accept? then main == WantRegister else if l.MainLock? then main == Registering
      else if l.MainAppend? then main == Registered else if l.MainUnlock? then main == Spawning
      else l.Spawn? && main == Accepting
  }

  predicate HandlerAt(pc: HandlerPc, last: Option<Label>) {
    match last
    case None => pc == Unspawned || pc == Starting
    case Some(Start(_)) => pc == Reading
    case Some(Request(_, m)) => pc == WantSend(m)
    case Some(Hangup(_)) => pc == WantRemove
    case Some(LockSend(_)) => pc.Sending?
    case Some(Write(_, _)) => pc.Sending?
    case Some(UnlockSend(_)) => pc == Reading
    case Some(LockRemove(_)) => pc == Removing
    case Some(Remove(_)) => pc == Removed
    case Some(UnlockRemove(_)) => pc == Closing
    case Some(Close(_)) => pc == Closed
    case Some(_) => false
  }

  ghost predicate InPlace(s: State, ls: seq<Label>) {
    MainAt(s.main, LastBy(ls, Main))
    && forall c: nat :: if c < |s.conns| then HandlerAt(s.conns[c].pc, LastBy(ls, Handler(c))) else LastBy(ls, Handler(c)) == None
  }

  lemma MainStays(s: State, l: Label, s': State, last: Option<Label>)
    requires Step(s, l, s') && MainAt(s.main, last)
    ensures MainAt(s'.main, if ByMain(l) then Some(l) else last)
  {
    hide Removal, IsOpen;
    if !ByMain(l) {
      OthersUntouched(s, l, s', l.c);
    }
  }

  lemma HandlerStays(s: State, l: Label, s': State, c: nat, last: Option<Label>)
    requires Step(s, l, s') && c < |s.conns| && Stage(s, |s.conns| - 1) && HandlerAt(s.conns[c].pc, last)
    ensures c < |s'.conns| && HandlerAt(s'.conns[c].pc, if Actor(l) == Handler(c) then Some(l) else last)
  {
    hide Removal, IsOpen;
    if !ByMain(l) {
      OthersUntouched(s, l, s', c);
    }
  }

  lemma NewcomerIsIdle(s: State, l: Label, s': State, c: nat)
    requires Step(s, l, s') && c >= |s.conns|
    ensures Actor(l) != Handler(c) && (c < |s'.conns| ==> s'.conns[c].pc == Unspawned)
  {
    hide Removal, IsOpen;
  }

  lemma {:induction false} Places(ss: seq<State>, ls: seq<Label>, i: nat)
    requires Run(ss, ls) && i < |ss|
    ensures InPlace(ss[i], ls[..i])
  {
    hide Step, Inv, InPlace;
    if i == 0 {
      assert ls[..0] == [];
      StartInPlace(ss[0]);
    } else {
      Places(ss, ls, i - 1);
      RunsKeep(ss, ls, i - 1);
      assert Step(ss[i - 1], ls[i - 1], ss[i - 1 + 1]);
      assert ls[..i] == ls[..i - 1] + [ls[i - 1]];
      StepStaysInPlace(ss[i - 1], ls[..i - 1], ls[i - 1], ss[i]);
    }
  }

  lemma StartInPlace(s: State)
    requires Init(s)
    ensures InPlace(s, [])
  {
  }

  lemma StepStaysInPlace(s: State, ls: seq<Label>, l: Label, s': State)
    requires Inv(s) && InPlace(s, ls) && Step(s, l, s')
    ensures InPlace(s', ls + [l])
  {
    hide Step, Inv, MainAt, HandlerAt, Stage, LastBy;
    LastGrows(ls, l, Main);
    MainStays(s, l, s', LastBy(ls, Main));
    forall c: nat
      ensures if c < |s'.conns| then HandlerAt(s'.conns[c].pc, LastBy(ls + [l], Handler(c))) else LastBy(ls + [l], Handler(c)) == None
    {
      LastGrows(ls, l, Handler(c));
      if c < |s.conns| {
        StageOf(s, |s.conns| - 1);
        HandlerStays(s, l, s', c, LastBy(ls, Handler(c)));
      } else {
        NewcomerIsIdle(s, l, s', c);
        assert HandlerAt(Unspawned, None) by {
          NothingYet();
        }
      }
    }
  }

  lemma NothingYet()
    ensures MainAt(Accepting, None) && HandlerAt(Unspawned, None)
  {
  }

  /** In every run, each thread takes its steps in the order of its statements. */
  lemma {:induction false} ThreadsFollowTheirProgram(ss: seq<State>, ls: seq<Label>, i: nat)
    requires Run(ss, ls) && i < |ls|
    ensures var last := LastBy(ls[..i], Actor(ls[i]));
      match ls[i]
      case Accept(_) => last == None || last == Some(Spawn)
      case MainLock => last.Some? && last.value.Accept?
      case MainAppend => last == Some(MainLock)
      case MainUnlock => last == Some(MainAppend)
      case Spawn => last == Some(MainUnlock)
      case Start(c) => last == None
      case Request(c, _) => last == Some(Start(c)) || last == Some(UnlockSend(c))
      case Hangup(c) => last == Some(Start(c)) || last == Some(UnlockSend(c))
      case LockSend(c) => last.Some? && last.value.Request?
      case Write(c, _) => last == Some(LockSend(c)) || (last.Some? && last.value.Write?)
      case UnlockSend(c) => last == Some(LockSend(c)) || (last.Some? && last.value.Write?)
      case LockRemove(c) => last == Some(Hangup(c))
      case Remove(c) => last == Some(LockRemove(c))
      case UnlockRemove(c) => last == Some(Remove(c))
      case Close(c) => last == Some(UnlockRemove(c))
  {
    hide Init, Removal, IsOpen, LastBy;
    Places(ss, ls, i);
    RunSteps(ss, ls, i);
    var s, l := ss[i], ls[i];
    if ByMain(l) {
      assert MainAt(s.main, LastBy(ls[..i], Main));
    } else {
      ActorExists(s, l, ss[i + 1]);
      assert HandlerAt(s.conns[l.c].pc, LastBy(ls[..i], Handler(l.c)));
    }
  }

  lemma ActorExists(s: State, l: Label, s': State)
    requires Step(s, l, s') && !ByMain(l)
    ensures l.c < |s.conns|
  {
    hide Removal, IsOpen;
  }

  /** A client is taken out of the registry only after its handler saw it hang up. */
  lemma {:induction false} RemovalNeedsHangup(ss: seq<State>, ls: seq<Label>, i: nat, c: nat) returns (j: nat)
    requires Run(ss, ls) && i < |ls| && (ls[i] == LockRemove(c) || ls[i] == Remove(c))
    ensures j < i && ls[j] == Hangup(c)
  {
    ThreadsFollowTheirProgram(ss, ls, i);
    j :| 0 <= j < i && ls[..i][j] == LastBy(ls[..i], Handler(c)).value;
    if ls[i] == Remove(c) {
      j := RemovalNeedsHangup(ss, ls, j, c);
    }
  }

  // What a thread can do next.

  /**
   A handler that started or finished a broadcast can read any request or see its client hang up; a
   request is broadcast as it was read once the mutex is free; and the other steps follow in turn.
   */
  lemma {:induction false} HandlersGoOn(ss: seq<State>, ls: seq<Label>, i: nat, c: nat, m: Message)
    requires Run(ss, ls) && i < |ss|
    ensures var s, last := ss[i], LastBy(ls[..i], Handler(c));
      match last
      case None =>
        c < |s.conns| && (c < |s.conns| - 1 || s.main == Accepting) ==> exists s' :: Step(s, Start(c), s')
      case Some(l) =>
        (l == Start(c) || l == UnlockSend(c) ==>
           (exists s' :: Step(s, Request(c, m), s')) && exists s' :: Step(s, Hangup(c), s'))
        && (l.Request? && s.lock.None? ==> exists s' :: Step(s, LockSend(c), s') && s'.log == s.log + [Entry(c, l.message)])
        && (l == Hangup(c) && s.lock.None? ==> exists s' :: Step(s, LockRemove(c), s'))
        && (l == LockRemove(c) ==> exists s' :: Step(s, Remove(c), s'))
        && (l == Remove(c) ==> exists s' :: Step(s, UnlockRemove(c), s'))
        && (l == UnlockRemove(c) ==> exists s' :: Step(s, Close(c), s'))
  {
    hide Init, Inv, Step, LastBy, Stage;
    Places(ss, ls, i);
    RunsKeep(ss, ls, i);
    var s, last := ss[i], LastBy(ls[..i], Handler(c));
    if c < |s.conns| {
      StageOf(s, c);
      assert HandlerAt(s.conns[c].pc, last);
      match last
      case None =>
        if c < |s.conns| - 1 || s.main == Accepting {
          SpawnedIsStarting(s, c);
          CanStart(s, c);
        }
      case Some(l) =>
        if s.conns[c].pc == Reading {
          CanRead(s, c, m);
        } else if s.conns[c].pc.WantSend? && s.lock.None? {
          CanBroadcast(s, c);
        } else {
          CanLeave(s, c);
        }
    }
  }

  lemma SpawnedIsStarting(s: State, c: nat)
    requires c < |s.conns| && Stage(s, c) && (s.conns[c].pc == Unspawned || s.conns[c].pc == Starting)
    requires c < |s.conns| - 1 || s.main == Accepting
    ensures s.conns[c].pc == Starting
  {
  }

  lemma CanStart(s: State, c: nat)
    requires c < |s.conns| && s.conns[c].pc == Starting
    ensures exists s' :: Step(s, Start(c), s')
  {
    assert Step(s, Start(c), s.(conns := s.conns[c := s.conns[c].(pc := Reading, sock := s.conns[c].arg)]));
  }

  lemma CanRead(s: State, c: nat, m: Message)
    requires c < |s.conns| && s.conns[c].pc == Reading
    ensures (exists s' :: Step(s, Request(c, m), s')) && exists s' :: Step(s, Hangup(c), s')
  {
    assert Step(s, Request(c, m),
                s.(conns := s.conns[c := s.conns[c].(pc := WantSend(m), requests := s.conns[c].requests + [m])]));
    assert Step(s, Hangup(c), WithPc(s, c, WantRemove));
  }

  lemma CanBroadcast(s: State, c: nat)
    requires c < |s.conns| && s.conns[c].pc.WantSend? && s.lock.None?
    ensures exists s' :: Step(s, LockSend(c), s') && s'.log == s.log + [Entry(c, s.conns[c].pc.message)]
  {
    var m := s.conns[c].pc.message;
    assert Step(s, LockSend(c), WithPc(s, c, Sending(m, 0)).(lock := Some(Handler(c)), log := s.log + [Entry(c, m)]));
  }

  lemma CanLeave(s: State, c: nat)
    requires c < |s.conns|
    ensures s.conns[c].pc == WantRemove && s.lock.None? ==> exists s' :: Step(s, LockRemove(c), s')
    ensures s.conns[c].pc == Removing ==> exists s' :: Step(s, Remove(c), s')
    ensures s.conns[c].pc == Removed ==> exists s' :: Step(s, UnlockRemove(c), s')
    ensures s.conns[c].pc == Closing ==> exists s' :: Step(s, Close(c), s')
  {
    hide Removal;
    if s.conns[c].pc == WantRemove && s.lock.None? {
      assert Step(s, LockRemove(c), WithPc(s, c, Removing).(lock := Some(Handler(c))));
    } else if s.conns[c].pc == Removing {
      assert Step(s, Remove(c),
                  s.(socks := Removal(s.socks, s.conns[c].sock), members := Removal(s.members, c),
                     conns := s.conns[c := s.conns[c].(pc := Removed, stop := Some(|s.log|))]));
    } else if s.conns[c].pc == Removed {
      assert Step(s, UnlockRemove(c), WithPc(s, c, Closing).(lock := None));
    } else if s.conns[c].pc == Closing {
      assert Step(s, Close(c), WithPc(s, c, Closed));
    }
  }

  /**
   The main thread can accept any descriptor that no open connection has, and then registers its
   client, in an array of at most 100, and starts its handler.
   */
  lemma {:induction false} MainGoesRound(ss: seq<State>, ls: seq<Label>, i: nat, fd: int)
    requires Run(ss, ls) && i < |ss|
    ensures var s, last := ss[i], LastBy(ls[..i], Main);
      (last == None || last == Some(Spawn) ==>
         (forall c :: 0 <= c < |s.conns| && s.conns[c].pc != Closed ==> s.conns[c].fd != fd) ==>
           exists s' :: Step(s, Accept(fd), s'))
      && (last.Some? && last.value.Accept? && s.lock.None? ==> exists s' :: Step(s, MainLock, s'))
      && (last == Some(MainLock) && |s.socks| < 100 ==> exists s' :: Step(s, MainAppend, s'))
      && (last == Some(MainAppend) ==> exists s' :: Step(s, MainUnlock, s'))
      && (last == Some(MainUnlock) ==> exists s' :: Step(s, Spawn, s'))
  {
    hide Init, Step, LastBy, Mirrors, Membership, Stage, Distinct, Locking, Current, Delivered, Ordered;
    Places(ss, ls, i);
    RunsKeep(ss, ls, i);
    var s := ss[i];
    assert MainAt(s.main, LastBy(ls[..i], Main));
    if s.main == Accepting {
      CanAccept(s, fd);
    } else {
      CanRegister(s);
    }
  }

  lemma CanAccept(s: State, fd: int)
    requires s.main == Accepting
    ensures (forall c :: 0 <= c < |s.conns| && s.conns[c].pc != Closed ==> s.conns[c].fd != fd) ==>
      exists s' :: Step(s, Accept(fd), s')
  {
    if forall c :: 0 <= c < |s.conns| && s.conns[c].pc != Closed ==> s.conns[c].fd != fd {
      assert Step(s, Accept(fd), s.(main := WantRegister, clntSock := fd,
                                    conns := s.conns + [Conn(fd, 0, 0, Unspawned, [], [], None, None)]));
    }
  }

  lemma CanRegister(s: State)
    requires s.main != Accepting ==> s.conns != []
    ensures s.main == WantRegister && s.lock.None? ==> exists s' :: Step(s, MainLock, s')
    ensures s.main == Registering && |s.socks| < 100 ==> exists s' :: Step(s, MainAppend, s')
    ensures s.main == Registered ==> exists s' :: Step(s, MainUnlock, s')
    ensures s.main == Spawning ==> exists s' :: Step(s, Spawn, s')
  {
    var n := |s.conns| - 1;
    if s.main == WantRegister && s.lock.None? {
      assert Step(s, MainLock, s.(main := Registering, lock := Some(Main)));
    } else if s.main == Registering && |s.socks| < 100 {
      assert Step(s, MainAppend, s.(main := Registered, socks := s.socks + [s.clntSock], members := s.members + [n],
                                    conns := s.conns[n := s.conns[n].(start := Some(|s.log|))]));
    } else if s.main == Registered {
      assert Step(s, MainUnlock, s.(main := Spawning, lock := None));
    } else if s.main == Spawning {
      assert Step(s, Spawn, s.(main := Accepting, conns := s.conns[n := s.conns[n].(pc := Starting, arg := s.clntSock)]));
    }
  }

  /** Between two acquisitions of the mutex the first holder releases it. */
  lemma {:induction false} AcquisitionsAlternate(ss: seq<State>, ls: seq<Label>, i: nat, j: nat) returns (k: nat)
    requires Run(ss, ls) && i < j < |ls|
    requires ls[i].MainLock? || ls[i].LockSend? || ls[i].LockRemove?
    requires ls[j].MainLock? || ls[j].LockSend? || ls[j].LockRemove?
    ensures i < k < j && Actor(ls[k]) == Actor(ls[i]) && (ls[k].MainUnlock? || ls[k].UnlockSend? || ls[k].UnlockRemove?)
  {
    hide Run, Step, Inv;
    RunSteps(ss, ls, i);
    RunSteps(ss, ls, j);
    AcquiresLock(ss[i], ls[i], ss[i + 1]);
    AcquiresLock(ss[j], ls[j], ss[j + 1]);
    k := i + 1;
    while !(ls[k].MainUnlock? || ls[k].UnlockSend? || ls[k].UnlockRemove?)
      invariant i < k < |ss| && k <= j && ss[k].lock == Some(Actor(ls[i]))
      decreases j - k
    {
      RunSteps(ss, ls, k);
      RunsKeep(ss, ls, k);
      KeepsLock(ss[k], ls[k], ss[k + 1]);
      k := k + 1;
    }
    RunSteps(ss, ls, k);
    RunsKeep(ss, ls, k);
    ReleasesOwnLock(ss[k], ls[k], ss[k + 1]);
  }

  lemma AcquiresLock(s: State, l: Label, s': State)
    requires Step(s, l, s') && (l.MainLock? || l.LockSend? || l.LockRemove?)
    ensures s.lock == None && s'.lock == Some(Actor(l))
  {
  }

  lemma KeepsLock(s: State, l: Label, s': State)
    requires Step(s, l, s') && s.lock.Some? && !(l.MainUnlock? || l.UnlockSend? || l.UnlockRemove?)
    ensures s'.lock == s.lock
  {
    hide Removal, IsOpen;
  }

  lemma ReleasesOwnLock(s: State, l: Label, s': State)
    requires Inv(s) && Step(s, l, s') && (l.MainUnlock? || l.UnlockSend? || l.UnlockRemove?)
    ensures s.lock == Some(Actor(l))
  {
    hide Mirrors, Membership, Stages, Distinct, Current, Delivered, Ordered, IsOpen;
    if !ByMain(l) {
      assert s.lock == Some(Handler(l.c)) <==> Critical(s.conns[l.c].pc);
    }
  }

  /** At most 100 clients are registered. */
  lemma {:induction false} RegistryStaysWithinArray(ss: seq<State>, ls: seq<Label>, i: nat)
    requires Run(ss, ls) && i < |ss|
    ensures |ss[i].socks| <= 100
  {
    hide Step;
    if i > 0 {
      RegistryStaysWithinArray(ss, ls, i - 1);
      RunSteps(ss, ls, i - 1);
      OneMoreAtMost(ss[i - 1], ls[i - 1], ss[i]);
    }
  }

  lemma OneMoreAtMost(s: State, l: Label, s': State)
    requires Step(s, l, s') && |s.socks| <= 100
    ensures |s'.socks| <= 100
  {
    hide IsOpen;
    if l.Remove? {
      RemovalShrinks(s.socks, s.conns[l.c].sock);
    }
  }

  lemma {:induction false} RemovalShrinks(s: seq<int>, x: int)
    ensures |Removal(s, x)| <= |s|
  {
    if s != [] {
      RemovalShrinks(s[1..], x);
    }
  }

  /** Every run starts with no client, a free mutex and an empty log. */
  lemma RunsStartEmpty(fd: int)
    ensures Run([State(Accepting, fd, [], [], [], None, [])], [])
  {
  }
}
