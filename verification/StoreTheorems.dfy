/** The store server over whole runs: refinement, agreement of the two tables, and progress before a quit. */
module StoreTheorems {
  import opened Wrappers
  import opened CTypes
  import opened Frame
  import opened Line
  import opened Store
  import opened StoreSafety

  // Refinement.

  /** What the clients of any run see is a run of the atomic store. */
  lemma {:induction false} RunsRefineTheAtomicStore(cap: nat, ss: seq<State>, i: nat)
    requires Run(cap, ss) && i < |ss|
    ensures AtomicRun(ss[i].log)
    ensures i > 0 ==> ss[i - 1].log <= ss[i].log
  {
    hide Next, Run, AtomicRun, InStep, Quitting, Ready, Recorded, Saves;
    RunsKeep(cap, ss, i);
    if i > 0 {
      assert Next(cap, ss[i - 1], ss[i - 1 + 1]) by {
        RunSteps(cap, ss, i - 1);
      }
      LogOnlyGrows(cap, ss[i - 1], ss[i]);
    }
  }

  lemma RunSteps(cap: nat, ss: seq<State>, i: nat)
    requires Run(cap, ss) && i < |ss| - 1
    ensures Next(cap, ss[i], ss[i + 1])
  {
    hide Next, Init;
  }

  lemma LogOnlyGrows(cap: nat, s: State, s': State)
    requires Next(cap, s, s')
    ensures s.log <= s'.log
  {
    hide Scatter, Dispatch, Fits, Compute, AfterMode, Overwrite, Taken, Left, Asked, LineOf, TableReply, CStr, HasRoom;
  }

  /**
   In every run, the reply to a load is the concatenation of `id: line` over all saves with that id
   handled before it, in order, and is `Not exist` exactly when there were none.
   */
  lemma {:induction false} RepliesCollectEarlierSaves(cap: nat, ss: seq<State>, i: nat, k: nat)
    requires Run(cap, ss) && i < |ss| && k < |ss[i].log| && ss[i].log[k].Loaded?
    ensures var e, lines := ss[i].log[k], LinesOf(Saves(ss[i].log[..k]), ss[i].log[k].key);
      e.reply == (if lines == [] then NOT_EXIST else Render(e.key, lines))
      && (e.reply == NOT_EXIST <==> !exists j :: 0 <= j < k && ss[i].log[j].Saved? && ss[i].log[j].key == e.key)
  {
    hide Next, Run, After, Saves, LinesOf, Render;
    var log := ss[i].log;
    var key := log[k].key;
    RunsRefineTheAtomicStore(cap, ss, i);
    assert AtomicStep(After(log[..k]), log[k], After(log[..k + 1]));
    StoreHoldsSavedLines(log[..k], key);
    var lines := LinesOf(Saves(log[..k]), key);
    NoLinesIffNoSaves(log[..k], key);
    if lines != [] {
      RenderHasColon(key, lines);
      assert COLON !in NOT_EXIST;
    }
  }

  lemma {:induction false} NoLinesIffNoSaves(log: seq<Event>, key: bytes)
    ensures LinesOf(Saves(log), key) == [] <==> !exists j :: 0 <= j < |log| && log[j].Saved? && log[j].key == key
  {
    hide SavedLine;
    if log != [] {
      var n := |log| - 1;
      NoLinesIffNoSaves(log[..n], key);
      assert log == log[..n] + [log[n]];
      LogGrows(log[..n], log[n]);
      var saves := Saves(log[..n]);
      if log[n].Saved? {
        assert (saves + [(log[n].key, log[n].request)])[..|saves|] == saves;
      } else {
        assert saves + [] == saves;
      }
      assert forall j :: 0 <= j < n ==> log[..n][j] == log[j];
    }
  }

  lemma RenderHasColon(key: bytes, lines: seq<bytes>)
    requires lines != []
    ensures COLON in Render(key, lines)
  {
    var e := Entry(key, lines[|lines| - 1]);
    assert e[|key|] == COLON;
    assert COLON in e;
  }

  /** Every line in the child's table was printed for a saved request, whose text and result it states. */
  lemma {:induction false} StoredLinesAreTrue(cap: nat, ss: seq<State>, i: nat, k: nat)
    requires Run(cap, ss) && i < |ss| && k < ss[i].c.cnt
    ensures var s := ss[i];
      |s.c.table| == DATA_MAX && s.c.cnt <= |Saves(s.log)| && s.c.cnt <= DATA_MAX
      && var (key, f) := Saves(s.log)[k];
      WellFormed(f) && CStr(s.c.table[k][..5]) == key && CStr(s.c.table[k][5..]) == LineOf(f)
      && ((forall c :: c in f.operators ==> IsSeparator(c)) ==>
            ReadLine(LineOf(f)).Some? && Consistent(ReadLine(LineOf(f)).value) && Reread(ReadLine(LineOf(f)).value) == f)
  {
    hide Run, InStep, Quitting, Ready, AtomicRun, LineOf, ReadLine, Consistent, Reread, WellFormed, IsSeparator, CStr;
    var s := ss[i];
    RunsKeep(cap, ss, i);
    assert s.c.table[k] == s.c.table[..s.c.cnt][k] == s.p.table[..s.c.cnt][k] == s.p.table[k];
    var f := Saves(s.log)[k].1;
    if forall c :: c in f.operators ==> IsSeparator(c) {
      LinesAreConsistent(f);
    }
  }

  // Agreement and the reply pipe.

  /** Drained, the two tables hold the same records. */
  lemma {:induction false} DrainedTablesAgree(cap: nat, ss: seq<State>, i: nat)
    requires Run(cap, ss) && i < |ss| && ss[i].quit.None?
    requires ss[i].p.pc == Idle && ss[i].c.pc == AwaitMode && ss[i].a == []
    ensures ss[i].c.cnt == ss[i].p.cnt && ss[i].p.cnt <= |ss[i].p.table| && ss[i].c.cnt <= |ss[i].c.table|
    ensures ss[i].c.table[..ss[i].c.cnt] == ss[i].p.table[..ss[i].p.cnt]
  {
    hide Run, Ready, AtomicRun, Recorded, Saves;
    var s := ss[i];
    RunsKeep(cap, ss, i);
    if s.c.cnt < s.p.cnt {
      CommandsHead(s.p.table, s.c.cnt, s.p.cnt, []);
      assert false;
    }
  }

  /**
   In every run before a quit, what the child has in hand and what is in pipe A are the saves it has
   not yet processed, in order, and then the command the parent is writing or waiting for; and the
   child's next read returns exactly one block that the parent wrote.
   */
  lemma {:induction false} PipeStaysFramed(cap: nat, ss: seq<State>, i: nat)
    requires Run(cap, ss) && i < |ss| && ss[i].quit.None?
    ensures var s := ss[i];
      s.c.cnt <= s.p.cnt && s.p.Valid() && Unread(s) == Commands(s.p.table, s.c.cnt, s.p.cnt) + Open(s)
      && (s.a != [] ==>
            match s.c.pc
            case AwaitMode =>
              Taken(s.a, MOD_SIZE) == if s.c.cnt < s.p.cnt || s.p.pc in {SaveCalc, SaveRecord} then SAVE else LOAD
            case AwaitRecord => s.c.cnt < s.p.cnt && Taken(s.a, RECORD_SIZE) == s.p.table[s.c.cnt]
            case AwaitId => s.p.pc == LoadWait && Taken(s.a, ID_SIZE) == s.p.id
            case Answering => false
            case Done => false)
  {
    hide Run, Ready, AtomicRun, Recorded, Saves, Unread, Commands, Open;
    RunsKeep(cap, ss, i);
    if ss[i].a != [] {
      ReadsAreWholeWrites(ss[i]);
    }
  }

  /** Once a quit is written, the child processes exactly the saves before it, stops, and answers nothing more. */
  lemma {:induction false} QuitComesAfterItsSaves(cap: nat, ss: seq<State>, i: nat)
    requires Run(cap, ss) && i < |ss| && ss[i].quit.Some?
    ensures var s, q := ss[i], ss[i].quit.value;
      s.c.cnt <= q <= s.p.cnt && s.b == [] && s.c.pc != AwaitId && s.c.pc != Answering
      && (s.c.pc == AwaitMode ==> Taken(s.a, MOD_SIZE) == if s.c.cnt < q then SAVE else QUIT)
      && (s.c.pc == AwaitRecord ==> s.c.cnt < q && q <= |s.p.table| && Taken(s.a, RECORD_SIZE) == s.p.table[s.c.cnt])
      && (s.c.pc == Done ==> s.c.cnt == q)
  {
    hide Run, Ready, AtomicRun, Recorded, Saves, Unread, Commands;
    RunsKeep(cap, ss, i);
    if ss[i].c.pc != Done {
      ReadsBeforeStopping(ss[i], ss[i].quit.value);
    }
  }

  /** Pipe B is empty between loads and never holds anything but the one reply the parent waits for. */
  lemma {:induction false} ReplyPipeHoldsOneReply(cap: nat, ss: seq<State>, i: nat)
    requires Run(cap, ss) && i < |ss| && ss[i].b != []
    ensures var s := ss[i];
      s.p.pc == LoadWait && s.p.Valid() && s.b == TableReply(s.p.table, s.p.id, s.p.cnt) && |s.b| < BUF_SIZE
  {
    hide Run, AtomicRun, Recorded, Saves, Unread, Commands, Matches;
    RunsKeep(cap, ss, i);
  }

  // Progress.

  /** An upper bound on the steps left before the processes must wait for a client. */
  function Work(s: State): nat {
    300 * (match s.p.pc
           case Idle => 0
           case SaveMode => 3
           case SaveCalc => 2
           case SaveRecord => 1
           case LoadMode => 3
           case LoadId => 2
           case LoadWait => 1
           case QuitMode => 1)
    + 2 * |s.a| + (if s.c.pc == Answering then 1 else 0)
  }

  /** Without new requests the two processes come to rest: every step of either uses up work. */
  lemma StepsUseUpWork(cap: nat, s: State, s': State)
    requires ParentStep(cap, s, s') || ChildStep(s, s')
    ensures Work(s') < Work(s)
  {
    hide FillRow, Overwrite, Asked, LineOf, TableReply, CStr, HasRoom;
  }

  ghost predicate CanStep(cap: nat, s: State) {
    exists s' :: ParentStep(cap, s, s') || ChildStep(s, s')
  }

  lemma ChildCanStep(cap: nat, s: State)
    requires s.c.Valid() && s.c.pc != Done && (s.a != [] || s.c.pc == Answering)
    requires s.c.pc == AwaitRecord ==> s.c.cnt < DATA_MAX
    ensures CanStep(cap, s)
  {
    hide Overwrite, TableReply, Taken, Left, ParentStep;
    var c := s.c;
    var s' := match c.pc
      case AwaitMode => s.(c := AfterMode(c.(mode := Overwrite(c.mode, 0, Taken(s.a, MOD_SIZE)))), a := Left(s.a, MOD_SIZE))
      case AwaitRecord =>
        s.(c := c.(pc := AwaitMode, cnt := c.cnt + 1,
                   table := c.table[c.cnt := Overwrite(c.table[c.cnt], 0, Taken(s.a, RECORD_SIZE))]),
           a := Left(s.a, RECORD_SIZE))
      case AwaitId => s.(c := c.(pc := Answering, id := Overwrite(c.id, 0, Taken(s.a, ID_SIZE))), a := Left(s.a, ID_SIZE))
      case Answering => s.(c := c.(pc := AwaitMode), b := s.b + TableReply(c.table, c.id, c.cnt))
      case Done => s;
    assert ChildStep(s, s');
  }

  /** The child has something to read, or an answer to write. */
  lemma ChildGoesOn(cap: nat, s: State)
    requires Inv(s) && s.quit.None? && (s.a != [] || s.c.pc == Answering)
    ensures CanStep(cap, s)
  {
    hide Commands, Unread, Recorded, Ready, AtomicRun, Saves, TableReply, CanStep;
    if s.c.pc != Answering {
      ReadsAreWholeWrites(s);
    }
    ChildCanStep(cap, s);
  }

  lemma ParentWrites(cap: nat, s: State, block: bytes)
    requires Inv(s) && HasRoom(cap, s.a, block)
    requires s.p.pc in {SaveMode, LoadMode, QuitMode} ==> block == s.p.mode
    requires s.p.pc == LoadId ==> block == s.p.id
    requires s.p.pc == SaveRecord ==> block == s.p.table[s.p.cnt]
    requires s.p.pc in {SaveMode, LoadMode, QuitMode, LoadId, SaveRecord}
    ensures CanStep(cap, s)
  {
    hide Commands, Unread, Recorded, AtomicRun, Saves, TableReply, InStep, Quitting, LineOf, Asked, HasRoom, ChildStep;
    var p := s.p;
    var s' := match p.pc
      case SaveMode => s.(p := p.(pc := SaveCalc), a := s.a + p.mode)
      case SaveRecord =>
        s.(p := p.(pc := Idle, cnt := p.cnt + 1), a := s.a + p.table[p.cnt], log := s.log + [Saved(CStr(p.id), p.Request())])
      case LoadMode => s.(p := p.(pc := LoadId), a := s.a + p.mode)
      case LoadId => s.(p := p.(pc := LoadWait), a := s.a + p.id)
      case _ => s.(p := p.(pc := Idle), a := s.a + p.mode, log := s.log + [Quitted],
                   quit := if s.quit.None? then Some(p.cnt) else s.quit);
    assert ParentStep(cap, s, s');
  }

  lemma ParentComputes(cap: nat, s: State)
    requires Inv(s) && s.p.pc == SaveCalc
    ensures CanStep(cap, s)
  {
    hide Commands, Unread, Recorded, AtomicRun, Saves, TableReply, InStep, Quitting, LineOf, Asked, Compute, ChildStep;
    assert ParentStep(cap, s, s.(p := Compute(s.p)));
  }

  lemma ParentAnswers(cap: nat, s: State)
    requires Inv(s) && s.p.pc == LoadWait && s.b != []
    ensures CanStep(cap, s)
  {
    hide Commands, Unread, Recorded, AtomicRun, Saves, TableReply, InStep, Quitting, ChildStep, Taken, Left, Ready;
    assert ParentStep(cap, s, s.(p := s.p.(pc := Idle), b := Left(s.b, BUF_SIZE),
                                 log := s.log + [Loaded(CStr(s.p.id), Taken(s.b, BUF_SIZE))]));
  }

  /** The parent waits for an answer that has not arrived. */
  ghost predicate Waiting(s: State) {
    Inv(s) && s.quit.None? && s.p.pc == LoadWait && s.b == []
  }

  lemma WaitingChildGoesOn(cap: nat, s: State)
    requires Waiting(s)
    ensures CanStep(cap, s)
  {
    hide Recorded, Ready, AtomicRun, Saves, CanStep;
    assert |Unread(s)| >= MOD_SIZE + ID_SIZE;
    ChildGoesOn(cap, s);
  }

  /** Before a quit no state is stuck: the parent is free for the next client, or one of the two can move. */
  lemma {:induction false} NeverStuckBeforeQuit(cap: nat, ss: seq<State>, i: nat)
    requires Run(cap, ss) && i < |ss| && ss[i].quit.None? && cap >= RECORD_SIZE
    ensures ss[i].p.pc == Idle || exists s' :: ParentStep(cap, ss[i], s') || ChildStep(ss[i], s')
  {
    hide Run, Inv;
    RunsKeep(cap, ss, i);
    SomeoneGoesOn(cap, ss[i]);
  }

  lemma SomeoneGoesOn(cap: nat, s: State)
    requires Inv(s) && s.quit.None? && cap >= RECORD_SIZE
    ensures s.p.pc == Idle || CanStep(cap, s)
  {
    hide Commands, Unread, Recorded, AtomicRun, Saves, TableReply, InStep, Quitting, CanStep, ChildStep, ParentStep, Ready;
    if s.p.pc == SaveCalc {
      ParentComputes(cap, s);
    } else if s.p.pc == LoadWait {
      if s.b == [] {
        WaitingChildGoesOn(cap, s);
      } else {
        ParentAnswers(cap, s);
      }
    } else if s.p.pc != Idle {
      var block := if s.p.pc == LoadId then s.p.id
                   else if s.p.pc == SaveRecord && s.p.cnt < DATA_MAX then s.p.table[s.p.cnt] else s.p.mode;
      if s.p.pc == SaveRecord {
        RecordHasSlot(s);
      }
      if HasRoom(cap, s.a, block) {
        ParentWrites(cap, s, block);
      } else {
        assert s.a != [];
        ChildGoesOn(cap, s);
      }
    }
  }

  lemma RecordHasSlot(s: State)
    requires Inv(s) && s.p.pc == SaveRecord
    ensures s.p.cnt < DATA_MAX
  {
    hide Commands, Unread, Recorded, AtomicRun, Saves, TableReply, InStep, Quitting, LineOf, RowKey, RowLine;
  }

  /** At rest before a quit, every save has reached the child and every load has been answered. */
  lemma {:induction false} RestMeansDrained(cap: nat, ss: seq<State>, i: nat)
    requires Run(cap, ss) && i < |ss| && ss[i].quit.None? && cap >= RECORD_SIZE
    requires forall s' :: !ParentStep(cap, ss[i], s') && !ChildStep(ss[i], s')
    ensures var s := ss[i];
      s.p.pc == Idle && s.a == s.b == [] && s.c.cnt == s.p.cnt && s.p.cnt <= |s.p.table| && s.c.cnt <= |s.c.table|
      && s.c.table[..s.c.cnt] == s.p.table[..s.p.cnt]
  {
    hide Run, Recorded, AtomicRun, Saves, TableReply, ChildStep, ParentStep, Ready, Commands;
    var s := ss[i];
    RunsKeep(cap, ss, i);
    NeverStuckBeforeQuit(cap, ss, i);
    if s.a != [] || s.c.pc == Answering {
      ChildGoesOn(cap, s);
    }
    NoReplyUnlessWaiting(s);
    if s.c.cnt < s.p.cnt {
      CommandsHead(s.p.table, s.c.cnt, s.p.cnt, Open(s));
    } else {
      assert Commands(s.p.table, s.c.cnt, s.p.cnt) == [] by {
        NoCommands(s.p.table, s.c.cnt);
      }
    }
    DrainedTablesAgree(cap, ss, i);
  }

  // The rendezvous on pipe B.

  /** How many steps the child takes until the answer is in pipe B. */
  function ChildTurns(s: State): nat
    requires s.c.cnt <= s.p.cnt
  {
    match s.c.pc
    case AwaitMode => 2 * (s.p.cnt - s.c.cnt) + 3
    case AwaitRecord => 2 * (s.p.cnt - s.c.cnt) + 2
    case AwaitId => 2
    case Answering => 1
    case Done => 0
  }

  lemma OnlyTheChildMoves(cap: nat, s: State, s': State)
    requires Waiting(s) && Next(cap, s, s')
    ensures ChildStep(s, s') && s'.p == s.p && s'.quit == s.quit
  {
    hide Commands, Unread, Recorded, AtomicRun, Saves, TableReply, InStep, Quitting, Ready, Overwrite, Taken, Left;
  }

  lemma CountsAreOrdered(s: State)
    requires Inv(s)
    ensures s.c.cnt <= s.p.cnt && s.p.Valid() && s.c.Valid()
  {
    hide Commands, Unread, Recorded, AtomicRun, Saves, TableReply, InStep, Quitting, Ready;
  }

  /** While the parent waits only the child can move, and every move brings the answer one step closer. */
  lemma {:induction false} EveryTurnCounts(cap: nat, s: State, s': State)
    requires Waiting(s) && Next(cap, s, s')
    ensures s.c.cnt <= s.p.cnt && s'.c.cnt <= s'.p.cnt && s'.p == s.p && s.p.Valid()
    ensures ChildTurns(s) > 1 ==> Waiting(s') && ChildTurns(s') == ChildTurns(s) - 1
    ensures ChildTurns(s) <= 1 ==> s'.b == TableReply(s.p.table, s.p.id, s.p.cnt)
  {
    hide Inv, Commands, Overwrite, Taken, Left, TableReply, Next;
    StepKeeps(cap, s, s');
    OnlyTheChildMoves(cap, s, s');
    CountsAreOrdered(s);
    CountsAreOrdered(s');
    match s.c.pc
    case AwaitMode =>
      ModeIsRead(s, s');
      ReadsAreWholeWrites(s);
      ModesDiffer();
    case AwaitRecord => RecordIsRead(s, s');
    case AwaitId => assert ChildStep(s, s');
    case Answering => AnswerArrives(s, s');
    case Done => ChildStops(s, s');
  }

  lemma AnswerArrives(s: State, s': State)
    requires Waiting(s) && ChildStep(s, s') && s.c.pc == Answering
    ensures s.p.Valid() && s'.b == TableReply(s.p.table, s.p.id, s.p.cnt)
  {
    hide Ready, AtomicRun, Recorded, Saves, InStep, Matches;
    AnswersTheOpenLoad(s);
    MatchesFrame(s.c.table, s.p.table, s.p.id, s.p.cnt);
    TableReplyNotEmpty(s.c.table, s.p.table, s.p.id, s.p.cnt);
    var r := TableReply(s.p.table, s.p.id, s.p.cnt);
    assert [] + r == r;
  }

  /** In every run the answer to a load is in pipe B exactly `ChildTurns` steps later, and not before. */
  lemma {:induction false} AnswerArrivesOnTime(cap: nat, ss: seq<State>, i: nat, k: nat)
    requires Run(cap, ss) && i < |ss| && ss[i].p.pc == LoadWait && ss[i].quit.None? && ss[i].b == []
    ensures ss[i].p.Valid() && ss[i].c.cnt <= ss[i].p.cnt
            && 1 <= ChildTurns(ss[i]) <= 2 * (ss[i].p.cnt - ss[i].c.cnt) + 3
    ensures 1 <= k <= ChildTurns(ss[i]) && i + k < |ss| ==>
      ss[i + k].p == ss[i].p
      && ss[i + k].b == if k == ChildTurns(ss[i]) then TableReply(ss[i].p.table, ss[i].p.id, ss[i].p.cnt) else []
  {
    hide Run, Inv, TableReply;
    RunsKeep(cap, ss, i);
    CountsAreOrdered(ss[i]);
    TurnsLeft(ss[i]);
    if 1 <= k <= ChildTurns(ss[i]) && i + k < |ss| {
      AnswerAfterTurns(cap, ss, i, k);
    }
  }

  lemma TurnsLeft(s: State)
    requires Waiting(s) && s.c.cnt <= s.p.cnt
    ensures 1 <= ChildTurns(s) <= 2 * (s.p.cnt - s.c.cnt) + 3
  {
    hide Commands, Recorded, AtomicRun, Saves, TableReply, Quitting, Ready;
    var u := Unread(s);
    assert |u| >= MOD_SIZE + ID_SIZE;
    if s.c.pc == AwaitId || s.c.pc == Answering {
      assert s.c.cnt <= s.p.cnt;
    }
  }

  lemma {:induction false} AnswerAfterTurns(cap: nat, ss: seq<State>, i: nat, k: nat)
    requires Run(cap, ss) && i < |ss| && Waiting(ss[i]) && ss[i].c.cnt <= ss[i].p.cnt
    requires 1 <= k <= ChildTurns(ss[i]) && i + k < |ss|
    ensures ss[i + k].p == ss[i].p && ss[i].p.Valid()
    ensures ss[i + k].b ==
      if k == ChildTurns(ss[i]) then TableReply(ss[i].p.table, ss[i].p.id, ss[i].p.cnt) else []
    decreases k
  {
    hide Run, Next, Waiting, TableReply, ChildTurns;
    RunSteps(cap, ss, i);
    var s, s' := ss[i], ss[i + 1];
    EveryTurnCounts(cap, s, s');
    if k > 1 {
      AnswerAfterTurns(cap, ss, i + 1, k - 1);
      assert i + 1 + (k - 1) == i + k;
    } else if ChildTurns(s) > 1 {
      assert s'.b == [] by {
        NotYet(s');
      }
    }
  }

  lemma NotYet(s: State)
    requires Waiting(s)
    ensures s.b == []
  {
    hide Inv;
  }

  // Service of a client ends on every path.

  ghost predicate Path(cap: nat, ss: seq<State>) {
    ss != [] && forall i :: 0 <= i < |ss| - 1 ==> Next(cap, ss[i], ss[i + 1])
  }

  /** The parent is serving a client all along. */
  ghost predicate Busy(ss: seq<State>) {
    forall i :: 0 <= i < |ss| ==> ss[i].p.pc != Idle
  }

  /**
   From a reachable state before a quit, every path with more than `Work` steps passes through a state
   in which the parent is free; and a path on which it has not been free yet can be continued.
   */
  lemma {:induction false} EveryServiceEnds(cap: nat, run: seq<State>, i: nat, ss: seq<State>)
    requires Run(cap, run) && i < |run| && run[i].quit.None? && cap >= RECORD_SIZE
    requires Path(cap, ss) && ss[0] == run[i]
    ensures Work(run[i]) <= 901 + 2 * |run[i].a|
    ensures |ss| - 1 > Work(run[i]) ==> exists j :: 0 <= j < |ss| && ss[j].p.pc == Idle
    ensures (forall j :: 0 <= j < |ss| ==> ss[j].p.pc != Idle) ==>
            var s := ss[|ss| - 1]; exists s' :: ParentStep(cap, s, s') || ChildStep(s, s')
  {
    hide Run, Inv, Next, Work;
    RunsKeep(cap, run, i);
    WorkIsBounded(run[i]);
    if Busy(ss) {
      BusyPath(cap, ss);
      SomeoneGoesOn(cap, ss[|ss| - 1]);
    }
  }

  lemma WorkIsBounded(s: State)
    ensures Work(s) <= 901 + 2 * |s.a|
  {
  }

  lemma {:induction false} BusyPath(cap: nat, ss: seq<State>)
    requires Path(cap, ss) && Busy(ss) && Inv(ss[0]) && ss[0].quit.None?
    ensures var s := ss[|ss| - 1]; Inv(s) && s.quit.None? && |ss| - 1 + Work(s) <= Work(ss[0])
  {
    hide Inv, Next, Work;
    if |ss| > 1 {
      var n := |ss| - 1;
      var s, s' := ss[n - 1], ss[n - 1 + 1];
      assert Next(cap, s, s');
      forall i | 0 <= i < n - 1 ensures Next(cap, ss[..n][i], ss[..n][i + 1]) {
        assert Next(cap, ss[i], ss[i + 1]);
      }
      BusyPath(cap, ss[..n]);
      BusyStep(cap, s, s');
      StepKeeps(cap, s, s');
      StepsUseUpWork(cap, s, s');
    }
  }

  /** No client is received while one is served, and a quit ends its own service. */
  lemma BusyStep(cap: nat, s: State, s': State)
    requires Next(cap, s, s') && s.p.pc != Idle && s'.p.pc != Idle
    ensures (ParentStep(cap, s, s') || ChildStep(s, s')) && s'.quit == s.quit
  {
    hide Compute, Overwrite, TableReply, Taken, Left, HasRoom, Asked, LineOf;
  }

  /** Before a quit a service that is under way has a path to its end. */
  lemma {:induction false} ServiceReturns(cap: nat, s: State) returns (ss: seq<State>)
    requires Inv(s) && s.quit.None? && s.p.pc != Idle && cap >= RECORD_SIZE
    ensures Path(cap, ss) && ss[0] == s && ss[|ss| - 1].p.pc == Idle
    ensures forall j :: 0 <= j < |ss| - 1 ==> ss[j].p.pc != Idle
    decreases Work(s)
  {
    hide Next, Inv, Work, ParentStep, ChildStep;
    SomeoneGoesOn(cap, s);
    var s' :| ParentStep(cap, s, s') || ChildStep(s, s');
    StepIsNext(cap, s, s');
    StepKeeps(cap, s, s');
    StepsUseUpWork(cap, s, s');
    if s'.p.pc == Idle {
      ss := [s, s'];
    } else {
      BusyStep(cap, s, s');
      var rest := ServiceReturns(cap, s');
      ss := [s] + rest;
      forall i | 0 <= i < |ss| - 1 ensures Next(cap, ss[i], ss[i + 1]) {
        if i > 0 {
          assert Next(cap, rest[i - 1], rest[i - 1 + 1]);
        }
      }
    }
  }

  // A load is answered iff no quit came before it.

  lemma {:induction false} QuitBlocksLoads(cap: nat, ss: seq<State>)
    requires Path(cap, ss) && Inv(ss[0]) && ss[0].quit.Some? && ss[0].p.pc == LoadWait
    ensures var s := ss[|ss| - 1]; Inv(s) && s.quit.Some? && s.p.pc == LoadWait
  {
    hide Next, Inv;
    if |ss| > 1 {
      var n := |ss| - 1;
      assert Next(cap, ss[n - 1], ss[n - 1 + 1]);
      forall i | 0 <= i < n - 1 ensures Next(cap, ss[..n][i], ss[..n][i + 1]) {
        assert Next(cap, ss[i], ss[i + 1]);
      }
      QuitBlocksLoads(cap, ss[..n]);
      StepKeeps(cap, ss[n - 1], ss[n]);
      StillWaiting(cap, ss[n - 1], ss[n]);
    }
  }

  lemma StillWaiting(cap: nat, s: State, s': State)
    requires Inv(s) && s.quit.Some? && s.p.pc == LoadWait && Next(cap, s, s')
    ensures s'.quit.Some? && s'.p.pc == LoadWait
  {
    hide Commands, Unread, Recorded, AtomicRun, Saves, TableReply, InStep, Ready, Overwrite, Taken, Left;
  }

  lemma {:induction false} LoadsReturnBeforeQuit(cap: nat, s: State) returns (ss: seq<State>)
    requires Inv(s) && s.quit.None? && s.p.pc == LoadWait
    ensures Path(cap, ss) && ss[0] == s && ss[|ss| - 1].p.pc == Idle
    decreases Work(s)
  {
    hide Next, Inv, Work;
    assert CanStep(cap, s) by {
      if s.b == [] {
        WaitingChildGoesOn(cap, s);
      } else {
        ParentAnswers(cap, s);
      }
    }
    var s' :| ParentStep(cap, s, s') || ChildStep(s, s');
    StepIsNext(cap, s, s');
    StepKeeps(cap, s, s');
    StepsUseUpWork(cap, s, s');
    NextFromLoad(cap, s, s');
    if s'.p.pc == Idle {
      ss := [s, s'];
    } else {
      var rest := LoadsReturnBeforeQuit(cap, s');
      ss := [s] + rest;
      forall i | 0 <= i < |ss| - 1 ensures Next(cap, ss[i], ss[i + 1]) {
        if i > 0 {
          assert Next(cap, rest[i - 1], rest[i - 1 + 1]);
        }
      }
    }
  }

  lemma StepIsNext(cap: nat, s: State, s': State)
    requires ParentStep(cap, s, s') || ChildStep(s, s')
    ensures Next(cap, s, s')
  {
    hide ParentStep, ChildStep;
  }

  lemma NextFromLoad(cap: nat, s: State, s': State)
    requires s.p.pc == LoadWait && (ParentStep(cap, s, s') || ChildStep(s, s'))
    ensures s'.quit == s.quit && s'.p.pc in {LoadWait, Idle}
  {
    hide Overwrite, Taken, Left, TableReply;
  }

  /** From a reachable state with a load outstanding, an answer can still come iff no quit was written. */
  lemma {:induction false} LoadReturnsIffNoQuit(cap: nat, ss: seq<State>, i: nat)
    requires Run(cap, ss) && i < |ss| && ss[i].p.pc == LoadWait
    ensures (exists path: seq<State> :: Path(cap, path) && path[0] == ss[i] && path[|path| - 1].p.pc == Idle) <==>
            ss[i].quit.None?
  {
    hide Run, Inv, Next;
    var s := ss[i];
    RunsKeep(cap, ss, i);
    if s.quit.None? {
      var path := LoadsReturnBeforeQuit(cap, s);
    } else if path: seq<State> :| Path(cap, path) && path[0] == s && path[|path| - 1].p.pc == Idle {
      QuitBlocksLoads(cap, path);
    }
  }
}
