/** The store's client (hw6_client.c): its three messages, and what becomes of each in the server. */
module StoreClient {
  import opened Wrappers
  import opened CTypes
  import opened Frame
  import opened Line
  import opened Store
  import opened StoreSafety
  import opened StoreTheorems
  import opened StoreReplies

  /** The client refuses an id whose string is not four bytes long. */
  predicate ValidId(id: bytes) {
    |id| == ID_SIZE && id[ID_SIZE - 1] == NUL && NUL !in id[..ID_SIZE - 1]
  }

  function Key(id: bytes): bytes
    requires ValidId(id)
  {
    id[..ID_SIZE - 1]
  }

  /** `writev` gathers mode and id, and for a save the whole request buffer. */
  function SaveMessage(id: bytes, buf: bytes): bytes {
    SAVE + id + buf
  }

  function LoadMessage(id: bytes): bytes {
    LOAD + id
  }

  lemma Parts(m: bytes, id: bytes, buf: bytes)
    requires |m| == MOD_SIZE && |id| == ID_SIZE
    ensures var w := m + id + buf;
      w[..MOD_SIZE] == m && w[MOD_SIZE..MOD_SIZE + ID_SIZE] == id && w[MOD_SIZE + ID_SIZE..] == buf
  {
  }

  lemma IdString(id: bytes)
    requires ValidId(id)
    ensures CStr(id) == Key(id) && Terminated(id)
  {
    hide CStr;
    CStrIs(id, ID_SIZE - 1);
  }

  /** A save message is dispatched as a save of exactly the client's request, which fits up to seven operands. */
  lemma {:induction false} SaveArrives(p: Parent, id: bytes, buf: bytes, f: Request)
    requires p.Valid() && ValidId(id) && |buf| == BUF_SIZE && WellFormed(f) && Encode(f) <= buf
    ensures var q := Dispatch(Scatter(p, SaveMessage(id, buf)));
      q.Valid() && q.pc == SaveMode && CStr(q.id) == Key(id) && q.Request() == f && q.table == p.table && q.cnt == p.cnt
      && (|f.operands| <= 7 && p.cnt < DATA_MAX ==> Fits(q))
  {
    hide Overwrite, CStr, LineOf, Decode, Matches;
    Parts(SAVE, id, buf);
    OverwriteAll(p.mode, SAVE);
    OverwriteAll(p.id, id);
    OverwriteAll(p.result, buf);
    IdString(id);
    DecodeEncode(f, buf);
    if |f.operands| <= 7 {
      LineLength(f);
    }
  }

  /** A load message is dispatched as a load of the client's id, and leaves the request buffer alone. */
  lemma {:induction false} LoadArrives(p: Parent, id: bytes)
    requires p.Valid() && ValidId(id)
    ensures var q := Dispatch(Scatter(p, LoadMessage(id)));
      q == p.(pc := LoadMode, mode := LOAD, id := id) && CStr(q.id) == Key(id)
      && (|Matches(p.table, id, p.cnt)| < BUF_SIZE ==> q.Valid() && Fits(q))
  {
    hide CStr, LineOf, Matches;
    ModesDiffer();
    var m := LoadMessage(id);
    assert m[..MOD_SIZE] == LOAD && m[MOD_SIZE..] == id;
    assert Overwrite(p.mode, 0, LOAD) == LOAD && Overwrite(p.id, 0, id) == id && Overwrite(p.result, 0, []) == p.result;
    IdString(id);
  }

  /** A quit message is dispatched as a quit and changes nothing else. */
  lemma {:induction false} QuitArrives(p: Parent)
    requires p.Valid()
    ensures Dispatch(Scatter(p, QUIT)) == p.(pc := QuitMode, mode := QUIT)
  {
    ModesDiffer();
    assert QUIT[..MOD_SIZE] == QUIT;
    assert Overwrite(p.mode, 0, QUIT) == QUIT && Overwrite(p.id, 0, []) == p.id && Overwrite(p.result, 0, []) == p.result;
  }

  // What becomes of a message.

  ghost predicate SaveUnderWay(s: State, log: seq<Event>, key: bytes, f: Request) {
    s.p.Valid() && s.p.pc in {SaveMode, SaveCalc, SaveRecord} && s.log == log && CStr(s.p.id) == key
    && Count(s.p.result) >= 1 && s.p.Request() == f
  }

  lemma SaveStep(cap: nat, s: State, s': State, log: seq<Event>, key: bytes, f: Request)
    requires SaveUnderWay(s, log, key, f) && Next(cap, s, s')
    ensures if s'.p.pc == Idle then s'.log == log + [Saved(key, f)] else SaveUnderWay(s', log, key, f)
  {
    hide CStr, Decode, Overwrite, TableReply, LineOf, FillRow, HasRoom, Taken, Left;
  }

  ghost predicate LoadUnderWay(s: State, log: seq<Event>, key: bytes) {
    s.p.Valid() && s.p.pc in {LoadMode, LoadId, LoadWait} && s.log == log && CStr(s.p.id) == key
  }

  lemma LoadStep(cap: nat, s: State, s': State, log: seq<Event>, key: bytes)
    requires LoadUnderWay(s, log, key) && Next(cap, s, s')
    ensures if s'.p.pc == Idle then |s'.log| == |log| + 1 && s'.log[..|log|] == log
                                    && s'.log[|log|].Loaded? && s'.log[|log|].key == key
            else LoadUnderWay(s', log, key)
  {
    hide CStr, Decode, Overwrite, TableReply, LineOf, FillRow, HasRoom, Taken, Left;
  }

  /** The parent serves the client it received from at step `i` until step `j`. */
  ghost predicate Serves(ss: seq<State>, i: nat, j: nat) {
    i < j < |ss| && forall k :: i < k < j ==> ss[k].p.pc != Idle
  }

  lemma {:induction false} SaveGoesThrough(cap: nat, ss: seq<State>, i: nat, j: nat, log: seq<Event>, key: bytes, f: Request)
    requires Run(cap, ss) && Serves(ss, i, j) && SaveUnderWay(ss[i + 1], log, key, f)
    ensures if ss[j].p.pc == Idle then ss[j].log == log + [Saved(key, f)] else SaveUnderWay(ss[j], log, key, f)
    decreases j
  {
    hide Run, Next;
    if j > i + 1 {
      hide SaveUnderWay;
      SaveGoesThrough(cap, ss, i, j - 1, log, key, f);
      RunSteps(cap, ss, j - 1);
      SaveStep(cap, ss[j - 1], ss[j], log, key, f);
    }
  }

  /** However the processes interleave, a client's save ends as the save of its own id and request, and no other event. */
  lemma {:induction false} ClientSaveIsSaved(cap: nat, ss: seq<State>, i: nat, j: nat, id: bytes, buf: bytes, f: Request)
    requires Run(cap, ss) && i < j < |ss| && ss[j].p.pc == Idle && (forall k :: i < k < j ==> ss[k].p.pc != Idle)
    requires ValidId(id) && |buf| == BUF_SIZE && WellFormed(f) && Encode(f) <= buf
    requires Receive(ss[i], ss[i + 1], SaveMessage(id, buf))
    ensures ss[j].log == ss[i].log + [Saved(Key(id), f)]
  {
    hide Run, Scatter, Dispatch, CStr, Decode, LineOf, Encode, Matches;
    SaveArrives(ss[i].p, id, buf, f);
    assert Count(ss[i + 1].p.result) >= 1 by {
      ResultArrives(ss[i].p, id, buf, f);
    }
    SaveGoesThrough(cap, ss, i, j, ss[i].log, Key(id), f);
  }

  lemma ResultArrives(p: Parent, id: bytes, buf: bytes, f: Request)
    requires p.Valid() && |id| == ID_SIZE && |buf| == BUF_SIZE && WellFormed(f) && Encode(f) <= buf
    ensures Count(Dispatch(Scatter(p, SaveMessage(id, buf))).result) >= 1
  {
    hide Overwrite, Decode;
    Parts(SAVE, id, buf);
    OverwriteAll(p.result, buf);
    DecodeEncode(f, buf);
  }

  lemma {:induction false} LoadGoesThrough(cap: nat, ss: seq<State>, i: nat, j: nat, log: seq<Event>, key: bytes)
    requires Run(cap, ss) && Serves(ss, i, j) && LoadUnderWay(ss[i + 1], log, key)
    ensures if ss[j].p.pc == Idle then |ss[j].log| == |log| + 1 && ss[j].log[..|log|] == log
                                       && ss[j].log[|log|].Loaded? && ss[j].log[|log|].key == key
            else LoadUnderWay(ss[j], log, key)
    decreases j
  {
    hide Run, Next;
    if j > i + 1 {
      hide LoadUnderWay;
      LoadGoesThrough(cap, ss, i, j - 1, log, key);
      RunSteps(cap, ss, j - 1);
      LoadStep(cap, ss[j - 1], ss[j], log, key);
    }
  }

  /** A client's load, when the parent is done with it, was answered with what the atomic store held at its arrival. */
  lemma {:induction false} ClientLoadIsAnswered(cap: nat, ss: seq<State>, i: nat, j: nat, id: bytes)
    requires Run(cap, ss) && i < j < |ss| && ss[j].p.pc == Idle && (forall k :: i < k < j ==> ss[k].p.pc != Idle) && ValidId(id)
    requires Receive(ss[i], ss[i + 1], LoadMessage(id))
    ensures var key := Key(id);
      ss[j].log == ss[i].log + [Loaded(key, AtomicReply(Lines(After(ss[i].log), key), key))]
  {
    hide Run, Scatter, Dispatch, CStr, Matches, After, AtomicReply, LineOf;
    LoadArrives(ss[i].p, id);
    var log, key := ss[i].log, Key(id);
    LoadGoesThrough(cap, ss, i, j, log, key);
    RunsRefineTheAtomicStore(cap, ss, j);
    assert ss[j].log == log + [ss[j].log[|log|]];
    assert AtomicStep(After(ss[j].log[..|log|]), ss[j].log[|log|], After(ss[j].log[..|log| + 1]));
  }

  // Every client can be served.

  lemma {:induction false} Continues(cap: nat, run: seq<State>, path: seq<State>)
    requires Run(cap, run) && Path(cap, path) && Next(cap, run[|run| - 1], path[0])
    ensures Run(cap, run + path)
  {
    hide Init, Next;
    var ss, n := run + path, |run|;
    forall i | 0 <= i < |ss| - 1 ensures Next(cap, ss[i], ss[i + 1]) {
      if i < n - 1 {
        assert Next(cap, run[i], run[i + 1]);
      } else if i >= n {
        assert Next(cap, path[i - n], path[i - n + 1]);
      }
    }
  }

  /** The parent, when it is free, can receive and serve a client, and then is free again. */
  lemma {:induction false} ServiceRuns(cap: nat, run: seq<State>, m: bytes, p: Parent) returns (ss: seq<State>)
    requires Run(cap, run) && run[|run| - 1].p.pc == Idle && run[|run| - 1].quit.None? && cap >= RECORD_SIZE
    requires Receive(run[|run| - 1], run[|run| - 1].(p := p), m) && p.pc != Idle
    ensures Run(cap, ss) && run < ss && ss[|run|] == run[|run| - 1].(p := p) && ss[|ss| - 1].p.pc == Idle
    ensures forall k :: |run| <= k < |ss| - 1 ==> ss[k].p.pc != Idle
  {
    hide Inv, Receive, Run, ParentStep, ChildStep;
    RunHasState(cap, run);
    var s := run[|run| - 1];
    var t := s.(p := p);
    assert Next(cap, s, t);
    RunsKeep(cap, run, |run| - 1);
    StepKeeps(cap, s, t);
    var path := ServiceReturns(cap, t);
    Continues(cap, run, path);
    ss := run + path;
  }

  lemma RunHasState(cap: nat, run: seq<State>)
    requires Run(cap, run)
    ensures |run| > 0
  {
  }

  /** Whenever the parent is free and has a record left, any client's save of up to seven operands can be served. */
  lemma {:induction false} AnySaveCanBeServed(cap: nat, run: seq<State>, id: bytes, buf: bytes, f: Request) returns (ss: seq<State>)
    requires Run(cap, run) && run[|run| - 1].p.pc == Idle && run[|run| - 1].quit.None? && cap >= 105
    requires run[|run| - 1].p.cnt < 100
    requires ValidId(id) && |buf| == 1024 && WellFormed(f) && |f.operands| <= 7 && Encode(f) <= buf
    ensures Run(cap, ss) && run < ss && ss[|ss| - 1].p.pc == Idle
    ensures ss[|ss| - 1].log == run[|run| - 1].log + [Saved(Key(id), f)]
  {
    hide Run, Scatter, Dispatch, Encode, Key, Fits;
    RunHasState(cap, run);
    var s := run[|run| - 1];
    IdleParentIsValid(cap, run);
    SaveArrives(s.p, id, buf, f);
    var p := Dispatch(Scatter(s.p, SaveMessage(id, buf)));
    assert Receive(s, s.(p := p), SaveMessage(id, buf));
    ss := ServiceRuns(cap, run, SaveMessage(id, buf), p);
    ClientSaveIsSaved(cap, ss, |run| - 1, |ss| - 1, id, buf, f);
  }

  lemma IdleParentIsValid(cap: nat, run: seq<State>)
    requires Run(cap, run)
    ensures |run| > 0 && run[|run| - 1].p.Valid() && run[|run| - 1].p.cnt <= 100
  {
    hide Run, Inv;
    RunHasState(cap, run);
    RunsKeep(cap, run, |run| - 1);
    CountsAreOrdered(run[|run| - 1]);
  }

  /** Whenever the parent is free, any client's load whose reply fits the buffer can be served. */
  lemma {:induction false} AnyLoadCanBeServed(cap: nat, run: seq<State>, id: bytes) returns (ss: seq<State>)
    requires Run(cap, run) && run[|run| - 1].p.pc == Idle && run[|run| - 1].quit.None? && cap >= 105
    requires ValidId(id) && |AtomicReply(Lines(After(run[|run| - 1].log), Key(id)), Key(id))| < 1024
    ensures Run(cap, ss) && run < ss && ss[|ss| - 1].p.pc == Idle
    ensures var log, key := run[|run| - 1].log, Key(id);
      ss[|ss| - 1].log == log + [Loaded(key, AtomicReply(Lines(After(log), key), key))]
  {
    hide Run, Scatter, Dispatch, Key, Fits, After, AtomicReply, Lines;
    RunHasState(cap, run);
    var s := run[|run| - 1];
    IdleParentIsValid(cap, run);
    MatchesFit(cap, run, id);
    LoadArrives(s.p, id);
    var p := Dispatch(Scatter(s.p, LoadMessage(id)));
    assert Receive(s, s.(p := p), LoadMessage(id));
    ss := ServiceRuns(cap, run, LoadMessage(id), p);
    ClientLoadIsAnswered(cap, ss, |run| - 1, |ss| - 1, id);
  }

  lemma MatchesFit(cap: nat, run: seq<State>, id: bytes)
    requires Run(cap, run) && ValidId(id)
    requires |AtomicReply(Lines(After(run[|run| - 1].log), Key(id)), Key(id))| < 1024
    ensures |run| > 0 && run[|run| - 1].p.cnt <= |run[|run| - 1].p.table|
    ensures |Matches(run[|run| - 1].p.table, id, run[|run| - 1].p.cnt)| < 1024
  {
    hide Run, After, AtomicReply, Matches, Ready, InStep, Quitting, AtomicRun, Recorded, Saves;
    RunHasState(cap, run);
    var s := run[|run| - 1];
    RunsKeep(cap, run, |run| - 1);
    IdString(id);
    TableAnswers(s.p.table, s.log, id, s.p.cnt);
  }

  /** A message with any other mode is received and ignored: only the parent's buffers change. */
  lemma OtherMessagesAreIgnored(s: State, m: bytes)
    requires s.p.Valid() && s.p.pc == Idle && 1 <= |m| <= 1034
    requires Scatter(s.p, m).mode != Ascii("save") + [0] && Scatter(s.p, m).mode != Ascii("load") + [0]
             && Scatter(s.p, m).mode != Ascii("quit") + [0]
    ensures Receive(s, s.(p := Scatter(s.p, m)), m)
  {
    hide Overwrite;
    StoreWords();
    assert Dispatch(Scatter(s.p, m)) == Scatter(s.p, m);
  }

  /** `readv` fills mode, id and data one after the other, and leaves what the message does not reach. */
  lemma {:induction false} ScatterSpelled(p: Parent, m: bytes)
    requires p.Valid() && |m| <= 1034
    ensures var q := Scatter(p, m);
      q.mode + q.id + q.result == Overwrite(p.mode + p.id + p.result, 0, m)
      && q == p.(mode := q.mode, id := q.id, result := q.result)
  {
    var q := Scatter(p, m);
    var was, now := p.mode + p.id + p.result, q.mode + q.id + q.result;
    forall k | 0 <= k < |was| ensures now[k] == if k < |m| then m[k] else was[k] {
      if k < MOD_SIZE {
      } else if k < MOD_SIZE + ID_SIZE {
        assert now[k] == q.id[k - MOD_SIZE];
      } else {
        assert now[k] == q.result[k - MOD_SIZE - ID_SIZE];
      }
    }
  }

  /** What the client accepts as an id and puts on the wire. */
  lemma ClientMessages(id: bytes, buf: bytes)
    ensures ValidId(id) <==> |id| == 5 && id[4] as int == 0 && forall k :: 0 <= k < 4 ==> id[k] as int != 0
    ensures ValidId(id) ==> Key(id) == id[..4]
    ensures SaveMessage(id, buf) == Ascii("save") + [0] + id + buf && LoadMessage(id) == Ascii("load") + [0] + id
  {
    StoreWords();
    if |id| == 5 && id[4] as int == 0 && forall k :: 0 <= k < 4 ==> id[k] as int != 0 {
      assert forall k :: 0 <= k < 4 ==> id[..4][k] == id[k];
    } else if |id| == 5 && exists k :: 0 <= k < 4 && id[k] as int == 0 {
      var k :| 0 <= k < 4 && id[k] as int == 0;
      assert id[..4][k] == 0;
    }
  }

  // A load that comes after a quit.

  const BLANK: Row := seq(RECORD_SIZE, _ => NUL)

  /** A server that has just forked. */
  function Forked(): (s: State)
    ensures Init(s)
  {
    State(Parent(Idle, seq(MOD_SIZE, _ => NUL), seq(ID_SIZE, _ => NUL), seq(BUF_SIZE, _ => NUL), 0, seq(DATA_MAX, _ => BLANK), 0),
          Child(AwaitMode, seq(MOD_SIZE, _ => NUL), seq(ID_SIZE, _ => NUL), seq(DATA_MAX, _ => BLANK), 0),
          [], [], [], None)
  }

  /** The parent after it served a quit and then received a load; it has two writes to make. */
  lemma {:induction false} QuitThenLoad(cap: nat, id: bytes) returns (ss: seq<State>)
    requires cap >= RECORD_SIZE && ValidId(id)
    ensures Run(cap, ss) && var s := ss[|ss| - 1];
      s.p.Valid() && s.p.pc == LoadMode && s.p.mode == LOAD && s.p.id == id
      && s.a == QUIT && s.log == [Quitted] && s.quit == Some(0)
  {
    hide Scatter, Dispatch, CStr;
    var s0 := Forked();
    QuitArrives(s0.p);
    var s1 := s0.(p := Dispatch(Scatter(s0.p, QUIT)));
    assert Receive(s0, s1, QUIT);
    var s2 := s1.(p := s1.p.(pc := Idle), a := [] + QUIT, log := [] + [Quitted], quit := Some(0));
    assert ParentStep(cap, s1, s2);
    LoadArrives(s2.p, id);
    var s3 := s2.(p := Dispatch(Scatter(s2.p, LoadMessage(id))));
    assert Matches(s2.p.table, id, 0) == [];
    assert Receive(s2, s3, LoadMessage(id));
    ss := [s0, s1, s2, s3];
    assert Next(cap, s0, s1) && Next(cap, s1, s2) && Next(cap, s2, s3);
  }

  /** A concrete run: a quit, then a load from another client, which waits forever. */
  lemma {:induction false} LoadAfterQuitHangs(cap: nat, id: bytes) returns (ss: seq<State>)
    requires cap >= RECORD_SIZE && ValidId(id)
    ensures Run(cap, ss) && ss[|ss| - 1].p.pc == LoadWait && ss[|ss| - 1].log == [Quitted]
    ensures forall path: seq<State> :: Path(cap, path) && path[0] == ss[|ss| - 1] ==> path[|path| - 1].p.pc == LoadWait
  {
    hide Next, Inv;
    var head := QuitThenLoad(cap, id);
    var s := head[|head| - 1];
    var t := s.(p := s.p.(pc := LoadId), a := s.a + s.p.mode);
    var u := t.(p := t.p.(pc := LoadWait), a := t.a + t.p.id);
    assert ParentStep(cap, s, t) && ParentStep(cap, t, u);
    ss := head + [t, u];
    ExtendRun(cap, head, t, u);
    RunsKeep(cap, ss, |ss| - 1);
    forall path: seq<State> | Path(cap, path) && path[0] == ss[|ss| - 1] ensures path[|path| - 1].p.pc == LoadWait {
      QuitBlocksLoads(cap, path);
    }
  }

  lemma ExtendRun(cap: nat, head: seq<State>, t: State, u: State)
    requires Run(cap, head) && ParentStep(cap, head[|head| - 1], t) && ParentStep(cap, t, u)
    ensures Run(cap, head + [t, u])
  {
    hide Init, ParentStep;
    var ss, n := head + [t, u], |head|;
    forall i | 0 <= i < |ss| - 1 ensures Next(cap, ss[i], ss[i + 1]) {
      if i < n - 1 {
        assert Next(cap, head[i], head[i + 1]);
      }
    }
  }
}
