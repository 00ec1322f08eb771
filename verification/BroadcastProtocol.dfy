/** The interleaved steps of the broadcast server's threads, and what every step keeps. */
module BroadcastProtocol {
  import opened Wrappers
  import opened Broadcast

  datatype Thread = Main | Handler(c: nat)

  /** Where the main thread is in its accept loop. */
  datatype MainPc = Accepting | WantRegister | Registering | Registered | Spawning

  /** Where a handler is. It holds the mutex while Sending, Removing and Removed. */
  datatype HandlerPc =
    | Unspawned | Starting | Reading
    | WantSend(message: Message) | Sending(message: Message, i: nat)
    | WantRemove | Removing | Removed | Closing | Closed

  /**
   A connection and its handler: the descriptor accept returned, the heap cell handed to the thread,
   the thread's own variable, the requests it read, and what was written to the client. `start` and
   `stop` are the log positions of its registration and removal.
   */
  datatype Conn = Conn(fd: int, arg: int, sock: int, pc: HandlerPc, requests: seq<Message>, sent: seq<Entry>,
                       start: Option<nat>, stop: Option<nat>)

  /** `members` names the connections behind the sockets of the array. */
  datatype State = State(main: MainPc, clntSock: int, conns: seq<Conn>, socks: seq<int>, members: seq<nat>,
                         lock: Option<Thread>, log: seq<Entry>)

  datatype Label =
    | Accept(fd: int) | MainLock | MainAppend | MainUnlock | Spawn
    | Start(c: nat) | Request(c: nat, message: Message) | Hangup(c: nat)
    | LockSend(c: nat) | Write(c: nat, to: nat) | UnlockSend(c: nat)
    | LockRemove(c: nat) | Remove(c: nat) | UnlockRemove(c: nat) | Close(c: nat)

  predicate IsOpen(k: Conn) {
    k.pc != Closed
  }

  function WithPc(s: State, c: nat, pc: HandlerPc): State
    requires c < |s.conns|
  {
    s.(conns := s.conns[c := s.conns[c].(pc := pc)])
  }

  /**
   accept returns a descriptor that is not open; the other steps are the source's statements. Hangup is
   whatever ends a handler's loop: the end of the connection or a request that is refused.
   */
  predicate Step(s: State, l: Label, s': State) {
    match l
    case Accept(fd) =>
      s.main == Accepting && (forall c :: 0 <= c < |s.conns| && IsOpen(s.conns[c]) ==> s.conns[c].fd != fd)
      && s' == s.(main := WantRegister, clntSock := fd,
                  conns := s.conns + [Conn(fd, 0, 0, Unspawned, [], [], None, None)])
    case MainLock => s.main == WantRegister && s.lock == None && s' == s.(main := Registering, lock := Some(Main))
    case MainAppend =>
      s.main == Registering && |s.socks| < MAX_CLNT && s.conns != []
      && var n := |s.conns| - 1;
         s' == s.(main := Registered, socks := s.socks + [s.clntSock], members := s.members + [n],
                  conns := s.conns[n := s.conns[n].(start := Some(|s.log|))])
    case MainUnlock => s.main == Registered && s' == s.(main := Spawning, lock := None)
    case Spawn =>
      s.main == Spawning && s.conns != []
      && var n := |s.conns| - 1;
         s' == s.(main := Accepting, conns := s.conns[n := s.conns[n].(pc := Starting, arg := s.clntSock)])
    case Start(c) =>
      c < |s.conns| && s.conns[c].pc == Starting
      && s' == s.(conns := s.conns[c := s.conns[c].(pc := Reading, sock := s.conns[c].arg)])
    case Request(c, m) =>
      c < |s.conns| && s.conns[c].pc == Reading
      && s' == s.(conns := s.conns[c := s.conns[c].(pc := WantSend(m), requests := s.conns[c].requests + [m])])
    case Hangup(c) => c < |s.conns| && s.conns[c].pc == Reading && s' == WithPc(s, c, WantRemove)
    case LockSend(c) =>
      c < |s.conns| && s.conns[c].pc.WantSend? && s.lock == None
      && var m := s.conns[c].pc.message;
         s' == WithPc(s, c, Sending(m, 0)).(lock := Some(Handler(c)), log := s.log + [Entry(c, m)])
    case Write(c, k) =>
      c < |s.conns| && s.conns[c].pc.Sending? && s.conns[c].pc.i < |s.socks|
      && k < |s.conns| && IsOpen(s.conns[k]) && s.conns[k].fd == s.socks[s.conns[c].pc.i]
      && var (m, i) := (s.conns[c].pc.message, s.conns[c].pc.i);
         s' == WithPc(s.(conns := s.conns[k := s.conns[k].(sent := s.conns[k].sent + [Entry(c, m)])]), c, Sending(m, i + 1))
    case UnlockSend(c) =>
      c < |s.conns| && s.conns[c].pc.Sending? && s.conns[c].pc.i == |s.socks|
      && s' == WithPc(s, c, Reading).(lock := None)
    case LockRemove(c) =>
      c < |s.conns| && s.conns[c].pc == WantRemove && s.lock == None
      && s' == WithPc(s, c, Removing).(lock := Some(Handler(c)))
    case Remove(c) =>
      c < |s.conns| && s.conns[c].pc == Removing
      && s' == s.(socks := Removal(s.socks, s.conns[c].sock), members := Removal(s.members, c),
                  conns := s.conns[c := s.conns[c].(pc := Removed, stop := Some(|s.log|))])
    case UnlockRemove(c) =>
      c < |s.conns| && s.conns[c].pc == Removed && s' == WithPc(s, c, Closing).(lock := None)
    case Close(c) => c < |s.conns| && s.conns[c].pc == Closing && s' == WithPc(s, c, Closed)
  }

  predicate ByMain(l: Label) {
    l.Accept? || l.MainLock? || l.MainAppend? || l.MainUnlock? || l.Spawn?
  }

  /** The thread that takes a step. */
  function Actor(l: Label): (t: Thread)
    ensures l.Accept? || l.MainLock? || l.MainAppend? || l.MainUnlock? || l.Spawn? <==> t == Main
    ensures t.Handler? ==> !(l.Accept? || l.MainLock? || l.MainAppend? || l.MainUnlock? || l.Spawn?) && l.c == t.c
  {
    if ByMain(l) then Main else Handler(l.c)
  }

  predicate Init(s: State) {
    s.main == Accepting && s.conns == [] && s.socks == [] && s.members == [] && s.lock == None && s.log == []
  }

  /** A run: states joined by labelled steps of any thread. */
  ghost predicate Run(ss: seq<State>, ls: seq<Label>) {
    |ss| == |ls| + 1 && Init(ss[0]) && forall i :: 0 <= i < |ls| ==> Step(ss[i], ls[i], ss[i + 1])
  }

  // The invariant, part by part.

  /** The array holds the descriptors of the members, who are in accept order. */
  ghost predicate Mirrors(s: State) {
    |s.socks| == |s.members|
    && (forall j :: 0 <= j < |s.members| ==> s.members[j] < |s.conns| && s.conns[s.members[j]].fd == s.socks[j])
    && (forall i, j :: 0 <= i < j < |s.members| ==> s.members[i] < s.members[j])
  }

  /** A connection is a member from its registration to its removal. */
  ghost predicate Membership(s: State) {
    forall c :: 0 <= c < |s.conns| ==> (c in s.members <==> s.conns[c].start.Some? && s.conns[c].stop.None?)
  }

  /** How far a connection has come, by what its handler and the main thread are doing. */
  ghost predicate Stages(s: State) {
    (s.main != Accepting ==> s.conns != [] && s.conns[|s.conns| - 1].fd == s.clntSock)
    && forall c :: 0 <= c < |s.conns| ==> Stage(s, c)
  }

  ghost predicate Stage(s: State, c: nat)
    requires c < |s.conns|
  {
    var k := s.conns[c];
    (k.pc == Unspawned <==> s.main != Accepting && c == |s.conns| - 1)
    && (k.start.Some? <==> (k.pc == Unspawned ==> s.main in {Registered, Spawning}))
    && (k.stop.Some? <==> k.pc in {Removed, Closing, Closed})
    && (k.pc == Starting ==> k.arg == k.fd)
    && (k.pc !in {Unspawned, Starting} ==> k.sock == k.fd)
  }

  /** Open descriptors are distinct. */
  ghost predicate Distinct(s: State) {
    forall c, d :: 0 <= c < d < |s.conns| && IsOpen(s.conns[c]) && IsOpen(s.conns[d]) ==> s.conns[c].fd != s.conns[d].fd
  }

  predicate Critical(pc: HandlerPc) {
    pc.Sending? || pc == Removing || pc == Removed
  }

  /** The mutex is held by exactly the thread that is in a critical section. */
  ghost predicate Locking(s: State) {
    (s.lock == Some(Main) <==> s.main in {Registering, Registered})
    && (s.lock.Some? && s.lock.value.Handler? ==> s.lock.value.c < |s.conns|)
    && forall c :: 0 <= c < |s.conns| ==> (s.lock == Some(Handler(c)) <==> Critical(s.conns[c].pc))
  }

  /** A broadcast under way is the last log entry, and has reached position `i` of the array. */
  ghost predicate Current(s: State) {
    forall c :: 0 <= c < |s.conns| && s.conns[c].pc.Sending? ==> IsCurrent(s, c)
  }

  predicate IsCurrent(s: State, c: nat)
    requires c < |s.conns| && s.conns[c].pc.Sending?
  {
    s.log != [] && s.log[|s.log| - 1] == Entry(c, s.conns[c].pc.message) && s.conns[c].pc.i <= |s.socks|
  }

  /** How many log entries have been written to the member at position `j`. */
  function Reached(s: State, j: nat): nat {
    if s.log != [] && s.lock.Some? && s.lock.value.Handler? && s.lock.value.c < |s.conns|
       && s.conns[s.lock.value.c].pc.Sending? && s.conns[s.lock.value.c].pc.i <= j
    then |s.log| - 1 else |s.log|
  }

  ghost predicate IsSlice(sent: seq<Entry>, log: seq<Entry>, lo: nat, hi: nat) {
    lo <= hi <= |log| && sent == log[lo..hi]
  }

  /** What was written to each client so far is a contiguous slice of the log. */
  ghost predicate Delivered(s: State) {
    (forall c :: 0 <= c < |s.conns| && s.conns[c].start.None? ==> s.conns[c].sent == [])
    && (forall c :: 0 <= c < |s.conns| && s.conns[c].start.Some? && s.conns[c].stop.Some? ==>
         IsSlice(s.conns[c].sent, s.log, s.conns[c].start.value, s.conns[c].stop.value))
    && (forall j :: 0 <= j < |s.members| ==> MemberDelivered(s, j))
  }

  ghost predicate MemberDelivered(s: State, j: nat)
    requires j < |s.members|
  {
    s.members[j] < |s.conns|
    && var k := s.conns[s.members[j]];
       k.start.Some? && IsSlice(k.sent, s.log, k.start.value, Reached(s, j))
  }

  /** The messages a sender has in the log. */
  function From(log: seq<Entry>, c: nat): seq<Message> {
    if log == [] then []
    else if log[|log| - 1].sender == c then From(log[..|log| - 1], c) + [log[|log| - 1].message]
    else From(log[..|log| - 1], c)
  }

  function Asked(s: State, c: nat): seq<Message>
    requires c < |s.conns|
  {
    if s.conns[c].pc.WantSend? then From(s.log, c) + [s.conns[c].pc.message] else From(s.log, c)
  }

  /** The log holds each sender's requests in order; the newest may still be waiting for the mutex. */
  ghost predicate Ordered(s: State) {
    (forall c :: 0 <= c < |s.conns| ==> s.conns[c].requests == Asked(s, c))
    && forall c :: |s.conns| <= c ==> From(s.log, c) == []
  }

  ghost predicate Inv(s: State) {
    Mirrors(s) && Membership(s) && Stages(s) && Distinct(s) && Locking(s) && Current(s) && Delivered(s) && Ordered(s)
  }

  // Each part is kept by every step.

  lemma {:induction false} RemovesOwnEntry(s: State, c: nat)
    requires Mirrors(s) && Membership(s) && Stages(s) && Distinct(s)
    requires c < |s.conns| && s.conns[c].pc == Removing
    ensures c in s.members
    ensures forall j :: 0 <= j < |s.members| && s.members[j] == c ==>
      Removal(s.socks, s.conns[c].sock) == s.socks[..j] + s.socks[j + 1..]
      && Removal(s.members, c) == s.members[..j] + s.members[j + 1..]
  {
    hide Removal;
    assert Stage(s, c);
    forall j | 0 <= j < |s.members| && s.members[j] == c
      ensures Removal(s.socks, s.conns[c].sock) == s.socks[..j] + s.socks[j + 1..]
      ensures Removal(s.members, c) == s.members[..j] + s.members[j + 1..]
    {
      forall i | 0 <= i < j ensures s.socks[i] != s.conns[c].sock && s.members[i] != c {
        var d := s.members[i];
        assert d in s.members;
        assert Stage(s, d);
      }
      assert s.conns[c].sock !in s.socks[..j];
      RemovalAt(s.socks, s.conns[c].sock, j);
      RemovalAt(s.members, c, j);
    }
  }

  lemma {:induction false} MirrorsKept(s: State, l: Label, s': State)
    requires Inv(s) && Step(s, l, s')
    ensures Mirrors(s')
  {
    hide Locking, Current, Delivered, Ordered, Removal;
    if l.Remove? {
      RemoveMirrors(s, l.c, s');
    } else if l.MainAppend? {
      AppendMirrors(s, s');
    } else {
      hide Membership, Distinct, Step, Stage;
      SamePlaces(s, l, s');
      if s.conns != [] {
        assert Stage(s, |s.conns| - 1);
      }
      DescriptorsKept(s, l, s');
    }
  }

  lemma RemoveMirrors(s: State, c: nat, s': State)
    requires Inv(s) && Step(s, Remove(c), s')
    ensures Mirrors(s')
  {
    hide Locking, Current, Delivered, Ordered, Removal, Membership, Stages, Distinct, Step;
    RemoveStep(s, c, s');
    RemovesOwnEntry(s, c);
    var at :| 0 <= at < |s.members| && s.members[at] == c;
    ShiftedMirrors(s, at, s');
  }

  lemma ShiftedMirrors(s: State, at: nat, s': State)
    requires Mirrors(s) && at < |s.members| && |s'.conns| == |s.conns|
    requires s'.members == s.members[..at] + s.members[at + 1..] && s'.socks == s.socks[..at] + s.socks[at + 1..]
    requires forall k :: 0 <= k < |s.conns| ==> s'.conns[k].fd == s.conns[k].fd
    ensures Mirrors(s')
  {
    forall j | 0 <= j < |s'.members|
      ensures s'.members[j] == s.members[Before(at, j)] && s'.socks[j] == s.socks[Before(at, j)]
    {
      ShiftedAt(s.members, at, j);
      ShiftedAt(s.socks, at, j);
    }
  }

  lemma RemoveStep(s: State, c: nat, s': State)
    requires Step(s, Remove(c), s')
    ensures c < |s.conns| && s.conns[c].pc == Removing
    ensures s'.socks == Removal(s.socks, s.conns[c].sock) && s'.members == Removal(s.members, c)
    ensures |s'.conns| == |s.conns| && forall k :: 0 <= k < |s.conns| ==>
      s'.conns[k].fd == s.conns[k].fd && s'.conns[k].start == s.conns[k].start
      && (if k == c then s'.conns[k].stop.Some? else s'.conns[k].stop == s.conns[k].stop)
  {
    hide Removal;
  }

  /** The old position of the element at position `j` after position `at` was removed. */
  function Before(at: nat, j: nat): nat {
    if j < at then j else j + 1
  }

  lemma ShiftedAt<T>(s: seq<T>, at: nat, j: nat)
    requires at < |s| && j < |s| - 1
    ensures (s[..at] + s[at + 1..])[j] == s[Before(at, j)]
  {
  }

  lemma AppendMirrors(s: State, s': State)
    requires Inv(s) && Step(s, MainAppend, s')
    ensures Mirrors(s')
  {
    hide Locking, Current, Delivered, Ordered, Distinct;
    assert Stage(s, |s.conns| - 1);
    LastIsNotMember(s);
  }

  lemma LastIsNotMember(s: State)
    requires Membership(s) && Mirrors(s) && Stages(s) && s.main == Registering
    ensures forall j :: 0 <= j < |s.members| ==> s.members[j] < |s.conns| - 1
  {
    forall j | 0 <= j < |s.members| ensures s.members[j] < |s.conns| - 1 {
      assert s.members[j] in s.members;
      assert Stage(s, s.members[j]);
    }
  }

  lemma {:induction false} MembershipKept(s: State, l: Label, s': State)
    requires Inv(s) && Step(s, l, s')
    ensures Membership(s')
  {
    hide Locking, Current, Delivered, Ordered, Distinct, Step, Stages;
    if l.Remove? {
      RemoveMembership(s, l.c, s');
    } else if l.MainAppend? {
      AppendMembership(s, s');
    } else {
      SamePlaces(s, l, s');
      assert forall d: nat :: d in s.members ==> d < |s.conns|;
    }
  }

  lemma RemoveMembership(s: State, c: nat, s': State)
    requires Inv(s) && Step(s, Remove(c), s')
    ensures Membership(s')
  {
    hide Locking, Current, Delivered, Ordered, Removal, Distinct, Step;
    RemoveStep(s, c, s');
    RemovesOwnEntry(s, c);
    assert Stage(s, c);
    var at :| 0 <= at < |s.members| && s.members[at] == c;
    assert forall i :: 0 <= i < |s.members| && i != at ==> s.members[i] != c;
    RemovalMembers(s.members, at);
  }

  lemma AppendMembership(s: State, s': State)
    requires Inv(s) && Step(s, MainAppend, s')
    ensures Membership(s')
  {
    hide Locking, Current, Delivered, Ordered, Distinct;
    LastIsNotMember(s);
    assert Stage(s, |s.conns| - 1);
  }

  /** Only registration and removal change who is a member. */
  lemma SamePlaces(s: State, l: Label, s': State)
    requires Step(s, l, s') && !l.MainAppend? && !l.Remove?
    ensures s'.members == s.members && s'.socks == s.socks && |s.conns| <= |s'.conns|
    ensures forall c :: 0 <= c < |s.conns| ==> s'.conns[c].start == s.conns[c].start && s'.conns[c].stop == s.conns[c].stop
    ensures forall c :: |s.conns| <= c < |s'.conns| ==> s'.conns[c].start.None?
  {
    hide IsOpen;
  }

  lemma {:induction false} StagesKept(s: State, l: Label, s': State)
    requires Inv(s) && Step(s, l, s')
    ensures Stages(s')
  {
    hide Locking, Current, Delivered, Ordered, Distinct, Mirrors, Membership, Stage, Step;
    LastConnKept(s, l, s');
    forall c | 0 <= c < |s'.conns| ensures Stage(s', c) {
      if c < |s.conns| {
        assert Stage(s, c) && Stage(s, |s.conns| - 1);
        OldStageKept(s, l, s', c);
      } else {
        NewStage(s, l, s', c);
      }
    }
  }

  lemma OldStageKept(s: State, l: Label, s': State, c: nat)
    requires Step(s, l, s') && c < |s.conns| <= |s'.conns| && Stage(s, c) && Stage(s, |s.conns| - 1)
    requires s.main != Accepting ==> s.conns[|s.conns| - 1].fd == s.clntSock
    ensures Stage(s', c)
  {
    if ByMain(l) {
      StageKeptByMain(s, l, s', c);
    } else {
      StageKeptByHandler(s, l, s', c);
    }
  }

  lemma StageKeptByMain(s: State, l: Label, s': State, c: nat)
    requires Step(s, l, s') && ByMain(l) && c < |s.conns| <= |s'.conns| && Stage(s, c) && Stage(s, |s.conns| - 1)
    requires s.main != Accepting ==> s.conns[|s.conns| - 1].fd == s.clntSock
    ensures Stage(s', c)
  {
    hide IsOpen;
  }

  lemma StageKeptByHandler(s: State, l: Label, s': State, c: nat)
    requires Step(s, l, s') && !ByMain(l) && c < |s.conns| && Stage(s, c)
    ensures c < |s'.conns| && Stage(s', c)
  {
    hide Removal, IsOpen;
    OthersUntouched(s, l, s', c);
  }

  /** A handler changes its own connection, and of another at most what was written to it. */
  lemma OthersUntouched(s: State, l: Label, s': State, c: nat)
    requires Step(s, l, s') && !ByMain(l) && c < |s.conns|
    ensures s'.main == s.main && s'.clntSock == s.clntSock && |s'.conns| == |s.conns|
    ensures l.c != c ==> s'.conns[c] == s.conns[c].(sent := s'.conns[c].sent)
  {
    hide Removal, IsOpen;
  }

  lemma NewStage(s: State, l: Label, s': State, c: nat)
    requires Step(s, l, s') && |s.conns| <= c < |s'.conns|
    ensures Stage(s', c)
  {
    hide Removal;
  }

  lemma LastConnKept(s: State, l: Label, s': State)
    requires Step(s, l, s') && (s.main != Accepting ==> s.conns != [] && s.conns[|s.conns| - 1].fd == s.clntSock)
    ensures |s.conns| <= |s'.conns|
    ensures s'.main != Accepting ==> s'.conns != [] && s'.conns[|s'.conns| - 1].fd == s'.clntSock
  {
    if !ByMain(l) {
      hide Step;
      DescriptorsKeptByHandler(s, l, s');
    }
  }

  lemma {:induction false} DistinctKept(s: State, l: Label, s': State)
    requires Inv(s) && Step(s, l, s')
    ensures Distinct(s')
  {
    hide Locking, Current, Delivered, Ordered, Mirrors, Membership, Step, IsOpen, Stage;
    if s.conns != [] {
      assert Stage(s, |s.conns| - 1);
    }
    DescriptorsKept(s, l, s');
  }

  /** No step changes a descriptor or reopens one, and accept adds one that is not open. */
  lemma DescriptorsKept(s: State, l: Label, s': State)
    requires Step(s, l, s') && (s.conns != [] ==> Stage(s, |s.conns| - 1))
    ensures |s.conns| <= |s'.conns| <= |s.conns| + 1
    ensures forall c :: 0 <= c < |s.conns| ==>
      s'.conns[c].fd == s.conns[c].fd && (IsOpen(s'.conns[c]) ==> IsOpen(s.conns[c]))
    ensures |s'.conns| > |s.conns| ==> forall c :: 0 <= c < |s.conns| ==>
      IsOpen(s.conns[c]) ==> s'.conns[|s.conns|].fd != s.conns[c].fd
  {
    if ByMain(l) {
      DescriptorsKeptByMain(s, l, s');
    } else {
      DescriptorsKeptByHandler(s, l, s');
    }
  }

  lemma DescriptorsKeptByMain(s: State, l: Label, s': State)
    requires Step(s, l, s') && ByMain(l) && (s.conns != [] ==> Stage(s, |s.conns| - 1))
    ensures |s.conns| <= |s'.conns| <= |s.conns| + 1
    ensures forall c :: 0 <= c < |s.conns| ==>
      s'.conns[c].fd == s.conns[c].fd && (IsOpen(s'.conns[c]) ==> IsOpen(s.conns[c]))
    ensures |s'.conns| > |s.conns| ==> forall c :: 0 <= c < |s.conns| ==>
      IsOpen(s.conns[c]) ==> s'.conns[|s.conns|].fd != s.conns[c].fd
  {
  }

  lemma DescriptorsKeptByHandler(s: State, l: Label, s': State)
    requires Step(s, l, s') && !ByMain(l)
    ensures |s'.conns| == |s.conns| && s'.main == s.main && s'.clntSock == s.clntSock
    ensures forall c :: 0 <= c < |s.conns| ==>
      s'.conns[c].fd == s.conns[c].fd && (IsOpen(s'.conns[c]) ==> IsOpen(s.conns[c]))
  {
    hide Removal;
  }

  lemma {:induction false} LockingKept(s: State, l: Label, s': State)
    requires Inv(s) && Step(s, l, s')
    ensures Locking(s')
  {
    hide Current, Delivered, Ordered, Mirrors, Membership, Distinct, Step, Critical, Stage;
    OwnerKept(s, l, s');
    forall c | 0 <= c < |s'.conns| ensures s'.lock == Some(Handler(c)) <==> Critical(s'.conns[c].pc) {
      if c < |s.conns| {
        assert Stage(s, c);
        if ByMain(l) {
          LockingKeptByMain(s, l, s', c);
        } else {
          LockingKeptByHandler(s, l, s', c);
        }
      } else {
        NewIsNotCritical(s, l, s', c);
      }
    }
  }

  lemma OwnerKept(s: State, l: Label, s': State)
    requires Locking(s) && Step(s, l, s')
    ensures s'.lock == Some(Main) <==> s'.main in {Registering, Registered}
    ensures s'.lock.Some? && s'.lock.value.Handler? ==> s'.lock.value.c < |s.conns| <= |s'.conns|
  {
    hide Removal, IsOpen;
  }

  lemma LockingKeptByMain(s: State, l: Label, s': State, c: nat)
    requires Locking(s) && Step(s, l, s') && ByMain(l) && c < |s.conns| && Stage(s, c)
    ensures c < |s'.conns| && (s'.lock == Some(Handler(c)) <==> Critical(s'.conns[c].pc))
  {
    hide IsOpen;
    assert s.lock == Some(Handler(c)) <==> Critical(s.conns[c].pc);
    assert s'.conns[c].pc == s.conns[c].pc || (l.Spawn? && !Critical(s.conns[c].pc));
    assert l.MainLock? || l.MainUnlock? || s'.lock == s.lock;
  }

  lemma LockingKeptByHandler(s: State, l: Label, s': State, c: nat)
    requires Locking(s) && Step(s, l, s') && !ByMain(l) && c < |s.conns|
    ensures c < |s'.conns| && (s'.lock == Some(Handler(c)) <==> Critical(s'.conns[c].pc))
  {
    hide Removal, IsOpen;
    OthersUntouched(s, l, s', c);
    assert s.lock == Some(Handler(c)) <==> Critical(s.conns[c].pc);
    assert l.c < |s.conns| && (s.lock == Some(Handler(l.c)) <==> Critical(s.conns[l.c].pc));
  }

  lemma NewIsNotCritical(s: State, l: Label, s': State, c: nat)
    requires Locking(s) && Step(s, l, s') && |s.conns| <= c < |s'.conns|
    ensures s'.lock != Some(Handler(c)) && !Critical(s'.conns[c].pc)
  {
    hide Removal, IsOpen;
  }

  lemma {:induction false} CurrentKept(s: State, l: Label, s': State)
    requires Inv(s) && Step(s, l, s')
    ensures Current(s')
  {
    hide Delivered, Ordered, Mirrors, Membership, Stages, Distinct, Step, Locking, IsCurrent;
    forall c | 0 <= c < |s'.conns| && s'.conns[c].pc.Sending? ensures IsCurrent(s', c) {
      if ByMain(l) {
        CurrentKeptByMain(s, l, s', c);
      } else {
        CurrentKeptByHandler(s, l, s', c);
      }
    }
  }

  lemma CurrentKeptByMain(s: State, l: Label, s': State, c: nat)
    requires Current(s) && Locking(s) && Step(s, l, s') && ByMain(l) && c < |s'.conns| && s'.conns[c].pc.Sending?
    ensures IsCurrent(s', c)
  {
    hide IsOpen;
  }

  lemma CurrentKeptByHandler(s: State, l: Label, s': State, c: nat)
    requires Current(s) && Locking(s) && Step(s, l, s') && !ByMain(l) && c < |s'.conns| && s'.conns[c].pc.Sending?
    ensures IsCurrent(s', c)
  {
    hide IsOpen, Removal;
    assert l.c < |s.conns| == |s'.conns|;
    OthersUntouched(s, l, s', c);
    assert s.lock == Some(Handler(c)) <==> Critical(s.conns[c].pc);
    assert s.lock == Some(Handler(l.c)) <==> Critical(s.conns[l.c].pc);
  }

  lemma {:induction false} OrderedKept(s: State, l: Label, s': State)
    requires Inv(s) && Step(s, l, s')
    ensures Ordered(s')
  {
    hide Step, From, Delivered, Mirrors, Membership, Distinct, Current, Locking, Stages;
    if l.LockSend? {
      LockSendOrdered(s, l.c, s');
    } else {
      forall c | 0 <= c < |s'.conns| ensures s'.conns[c].requests == Asked(s', c) {
        OrderKeptFor(s, l, s', c);
      }
      SameLog(s, l, s');
    }
  }

  lemma SameLog(s: State, l: Label, s': State)
    requires Step(s, l, s') && !l.LockSend?
    ensures s'.log == s.log && |s'.conns| >= |s.conns|
  {
    hide Removal, IsOpen;
  }

  lemma OrderKeptFor(s: State, l: Label, s': State, c: nat)
    requires Inv(s) && Step(s, l, s') && !l.LockSend? && c < |s'.conns|
    ensures s'.conns[c].requests == Asked(s', c)
  {
    hide Delivered, Mirrors, Membership, Distinct, Current, Locking, Asked, Step;
    if c < |s.conns| {
      assert s.conns[c].requests == Asked(s, c);
      assert Stage(s, |s.conns| - 1);
      if ByMain(l) {
        OrderKeptByMain(s, l, s', c);
      } else {
        OrderKeptByHandler(s, l, s', c);
      }
    } else {
      assert From(s.log, c) == [];
      NewHasNoRequests(s, l, s', c);
    }
  }

  lemma OrderKeptByMain(s: State, l: Label, s': State, c: nat)
    requires Step(s, l, s') && ByMain(l) && c < |s.conns| && Stage(s, |s.conns| - 1) && s.conns[c].requests == Asked(s, c)
    ensures c < |s'.conns| && s'.conns[c].requests == Asked(s', c)
  {
    hide IsOpen, From;
  }

  lemma OrderKeptByHandler(s: State, l: Label, s': State, c: nat)
    requires Step(s, l, s') && !ByMain(l) && !l.LockSend? && c < |s.conns| && s.conns[c].requests == Asked(s, c)
    ensures c < |s'.conns| && s'.conns[c].requests == Asked(s', c)
  {
    hide IsOpen, Removal, From;
    OthersUntouched(s, l, s', c);
  }

  lemma NewHasNoRequests(s: State, l: Label, s': State, c: nat)
    requires Step(s, l, s') && |s.conns| <= c < |s'.conns| && From(s.log, c) == []
    ensures s'.conns[c].requests == Asked(s', c)
  {
    hide IsOpen, Removal, From;
  }

  lemma LockSendOrdered(s: State, c: nat, s': State)
    requires Ordered(s) && Step(s, LockSend(c), s')
    ensures Ordered(s')
  {
    hide From;
    var e := Entry(c, s.conns[c].pc.message);
    forall d ensures From(s.log + [e], d) == if d == c then From(s.log, d) + [e.message] else From(s.log, d) {
      FromGrows(s.log, e, d);
    }
  }

  lemma FromGrows(log: seq<Entry>, e: Entry, c: nat)
    ensures From(log + [e], c) == if e.sender == c then From(log, c) + [e.message] else From(log, c)
    ensures From([], c) == []
  {
    assert (log + [e])[..|log|] == log;
  }

  lemma SliceGrows(sent: seq<Entry>, log: seq<Entry>, lo: nat, hi: nat, e: Entry)
    requires IsSlice(sent, log, lo, hi)
    ensures IsSlice(sent, log + [e], lo, hi)
  {
    assert (log + [e])[lo..hi] == log[lo..hi];
  }

  lemma {:induction false} LogGrowthDelivers(s: State, c: nat, s': State)
    requires Inv(s) && Step(s, LockSend(c), s')
    ensures Delivered(s')
  {
    hide IsSlice, Ordered, Current, Distinct, Membership, Stages;
    var e := Entry(c, s.conns[c].pc.message);
    forall d | 0 <= d < |s'.conns| && s'.conns[d].start.Some? && s'.conns[d].stop.Some?
      ensures IsSlice(s'.conns[d].sent, s'.log, s'.conns[d].start.value, s'.conns[d].stop.value)
    {
      SliceGrows(s.conns[d].sent, s.log, s.conns[d].start.value, s.conns[d].stop.value, e);
    }
    forall j | 0 <= j < |s'.members| ensures MemberDelivered(s', j) {
      assert MemberDelivered(s, j);
      var k := s.conns[s.members[j]];
      SliceGrows(k.sent, s.log, k.start.value, |s.log|, e);
    }
  }

  /** A write inside the loop reaches the next member of the array, and nobody else. */
  lemma {:induction false} WriteGoesToMember(s: State, c: nat, k: nat, s': State)
    requires Inv(s) && Step(s, Write(c, k), s')
    ensures s.conns[c].pc.i < |s.members| && k == s.members[s.conns[c].pc.i]
  {
    hide Delivered, Ordered, Current, Locking;
    var m := s.members[s.conns[c].pc.i];
    assert m in s.members;
    assert Stage(s, m);
  }

  lemma {:induction false} WriteDelivers(s: State, c: nat, k: nat, s': State)
    requires Inv(s) && Step(s, Write(c, k), s')
    ensures Delivered(s')
  {
    hide Ordered, Distinct, Stages, Locking, IsSlice, Step, Reached, Membership;
    WriteStep(s, c, k, s');
    WriteGoesToMember(s, c, k, s');
    ReachAdvances(s, c, k, s');
    var i := s.conns[c].pc.i;
    forall j | 0 <= j < |s'.members| ensures MemberDelivered(s', j) {
      assert MemberDelivered(s, j);
      if j == i {
        var m := s.conns[k];
        LastEntryCompletes(m.sent, s.log, m.start.value);
      } else {
        assert s.members[j] != k;
      }
    }
    WriteSparesOthers(s, k, s');
  }

  lemma WriteStep(s: State, c: nat, k: nat, s': State)
    requires Step(s, Write(c, k), s') && Current(s)
    ensures c < |s.conns| && s.conns[c].pc.Sending?
    ensures s'.log == s.log && s'.members == s.members && |s'.conns| == |s.conns| && k < |s.conns| && s.log != []
    ensures forall d :: 0 <= d < |s.conns| ==>
      s'.conns[d].start == s.conns[d].start && s'.conns[d].stop == s.conns[d].stop
      && s'.conns[d].sent == if d == k then s.conns[d].sent + [s.log[|s.log| - 1]] else s.conns[d].sent
  {
    hide IsOpen;
  }

  lemma ReachAdvances(s: State, c: nat, k: nat, s': State)
    requires Step(s, Write(c, k), s') && Locking(s) && s.log != []
    ensures forall j: nat :: Reached(s', j) == if j == s.conns[c].pc.i then |s.log| else Reached(s, j)
    ensures Reached(s, s.conns[c].pc.i) == |s.log| - 1
  {
    hide IsOpen;
    assert s.lock == Some(Handler(c)) <==> Critical(s.conns[c].pc);
  }

  /** Those who are not members keep what they were sent. */
  lemma WriteSparesOthers(s: State, k: nat, s': State)
    requires Delivered(s) && Membership(s) && k in s.members && s'.log == s.log && |s'.conns| == |s.conns|
    requires forall d :: 0 <= d < |s.conns| ==>
      s'.conns[d].start == s.conns[d].start && s'.conns[d].stop == s.conns[d].stop
      && (d != k ==> s'.conns[d].sent == s.conns[d].sent)
    ensures forall d :: 0 <= d < |s'.conns| && s'.conns[d].start.None? ==> s'.conns[d].sent == []
    ensures forall d :: 0 <= d < |s'.conns| && s'.conns[d].start.Some? && s'.conns[d].stop.Some? ==>
      IsSlice(s'.conns[d].sent, s'.log, s'.conns[d].start.value, s'.conns[d].stop.value)
  {
    hide IsSlice, Reached;
  }

  lemma LastEntryCompletes(sent: seq<Entry>, log: seq<Entry>, lo: nat)
    requires log != [] && IsSlice(sent, log, lo, |log| - 1)
    ensures IsSlice(sent + [log[|log| - 1]], log, lo, |log|)
  {
  }

  lemma {:induction false} AppendDelivers(s: State, s': State)
    requires Inv(s) && Step(s, MainAppend, s')
    ensures Delivered(s')
  {
    hide Ordered, Distinct, Current, Mirrors;
    var n := |s.conns| - 1;
    assert Stage(s, n);
    LastIsNotMember(s);
    forall j | 0 <= j < |s'.members| ensures MemberDelivered(s', j) {
      if j < |s.members| {
        assert MemberDelivered(s, j);
      }
    }
  }

  lemma NobodySends(s: State, c: nat, s': State)
    requires Locking(s) && Step(s, Remove(c), s')
    ensures forall j :: Reached(s, j) == |s.log|
    ensures forall j :: Reached(s', j) == |s.log|
  {
    hide Removal;
    assert s.lock == Some(Handler(c)) <==> Critical(s.conns[c].pc);
  }

  lemma {:induction false} RemoveDelivers(s: State, c: nat, s': State)
    requires Inv(s) && Step(s, Remove(c), s')
    ensures Delivered(s')
  {
    hide Ordered, Current, IsSlice, Removal, Distinct, Reached, Locking, Membership;
    RemovesOwnEntry(s, c);
    NobodySends(s, c, s');
    var at :| 0 <= at < |s.members| && s.members[at] == c;
    assert MemberDelivered(s, at);
    assert Stage(s, c);
    forall j | 0 <= j < |s'.members| ensures MemberDelivered(s', j) {
      ShiftedAt(s.members, at, j);
      assert MemberDelivered(s, Before(at, j));
      assert s.members[Before(at, j)] != c;
    }
  }

  /** Steps that write nothing, log nothing and leave the array alone deliver nothing. */
  lemma {:induction false} OthersDeliver(s: State, l: Label, s': State)
    requires Inv(s) && Step(s, l, s') && !l.LockSend? && !l.Write? && !l.MainAppend? && !l.Remove?
    ensures Delivered(s')
  {
    hide Ordered, Current, IsSlice, Distinct, Membership, Removal, Delivered;
    SameHistory(s, l, s');
    forall j | 0 <= j < |s.members| ensures Reached(s', j) == Reached(s, j) {
      ReachKept(s, l, s', j);
    }
    HistoryDelivers(s, s');
  }

  predicate SamePast(k: Conn, k': Conn) {
    k'.sent == k.sent && k'.start == k.start && k'.stop == k.stop
  }

  lemma SameHistory(s: State, l: Label, s': State)
    requires Stages(s) && Step(s, l, s') && !l.LockSend? && !l.Write? && !l.MainAppend? && !l.Remove?
    ensures s'.log == s.log && s'.socks == s.socks && s'.members == s.members && |s.conns| <= |s'.conns|
    ensures forall c :: 0 <= c < |s.conns| ==> SamePast(s.conns[c], s'.conns[c])
    ensures forall c :: |s.conns| <= c < |s'.conns| ==> s'.conns[c].sent == [] && s'.conns[c].start.None?
  {
    hide Stages, IsOpen;
  }

  lemma ReachKept(s: State, l: Label, s': State, j: nat)
    requires Mirrors(s) && Stages(s) && Locking(s) && Step(s, l, s') && j < |s.members|
    requires !l.LockSend? && !l.Write? && !l.MainAppend? && !l.Remove?
    ensures Reached(s', j) == Reached(s, j)
  {
    hide IsOpen;
    if s.conns != [] {
      assert Stage(s, |s.conns| - 1);
    }
  }

  lemma HistoryDelivers(s: State, s': State)
    requires Delivered(s) && s'.log == s.log && s'.members == s.members && |s.conns| <= |s'.conns|
    requires forall c :: 0 <= c < |s.conns| ==> SamePast(s.conns[c], s'.conns[c])
    requires forall c :: |s.conns| <= c < |s'.conns| ==> s'.conns[c].sent == [] && s'.conns[c].start.None?
    requires forall j :: 0 <= j < |s.members| ==> Reached(s', j) == Reached(s, j)
    ensures Delivered(s')
  {
    hide IsSlice, Reached;
    forall j | 0 <= j < |s'.members| ensures MemberDelivered(s', j) {
      assert MemberDelivered(s, j);
    }
  }

  lemma {:induction false} StepKeeps(s: State, l: Label, s': State)
    requires Inv(s) && Step(s, l, s')
    ensures Inv(s')
  {
    hide Step, Mirrors, Membership, Stages, Distinct, Locking, Current, Delivered, Ordered;
    MirrorsKept(s, l, s');
    MembershipKept(s, l, s');
    StagesKept(s, l, s');
    DistinctKept(s, l, s');
    LockingKept(s, l, s');
    CurrentKept(s, l, s');
    OrderedKept(s, l, s');
    match l
    case LockSend(c) => LogGrowthDelivers(s, c, s');
    case Write(c, k) => WriteDelivers(s, c, k, s');
    case MainAppend => AppendDelivers(s, s');
    case Remove(c) => RemoveDelivers(s, c, s');
    case _ => OthersDeliver(s, l, s');
  }

  /** Every state of every run satisfies the invariant. */
  lemma {:induction false} RunsKeep(ss: seq<State>, ls: seq<Label>, i: nat)
    requires Run(ss, ls) && i < |ss|
    ensures Inv(ss[i])
  {
    hide Inv, Step;
    if i == 0 {
      InitHolds(ss[0]);
    } else {
      RunsKeep(ss, ls, i - 1);
      assert Step(ss[i - 1], ls[i - 1], ss[i - 1 + 1]);
      StepKeeps(ss[i - 1], ls[i - 1], ss[i]);
    }
  }

  lemma InitHolds(s: State)
    requires Init(s)
    ensures Inv(s)
  {
  }
}
