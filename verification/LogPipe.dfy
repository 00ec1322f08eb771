/**
 The log pipe of the forking server (hw5_server.c): each worker writes one line with its process id
 into a pipe that all share, and one logger copies what it reads into a file.
 */
module LogPipe {
  import opened Wrappers
  import opened CTypes
  import opened Frame
  import opened Calculator
  import opened Line
  import opened TextLines

  /** The size of a worker's line buffer and of the logger's. */
  const MAX: nat := 1024

  /** "<pid>: " */
  function Prefix(pid: int32): bytes {
    Dec(pid as int) + [COLON, SPACE]
  }

  function WorkerLine(pid: int32, f: Request): (s: bytes)
    requires WellFormed(f)
    ensures s != []
  {
    Prefix(pid) + LineOf(f)
  }

  /** A worker without a request was told a count that is not positive: it leaves without writing. */
  datatype Worker = Worker(pid: int32, request: Option<Request>, done: bool)

  /** `written` names the workers in the order of their writes. */
  datatype State = State(workers: seq<Worker>, pipe: bytes, log: bytes, written: seq<nat>)

  predicate Proper(w: Worker) {
    w.request.Some? ==> WellFormed(w.request.value) && |WorkerLine(w.pid, w.request.value)| < MAX
  }

  function Output(w: Worker): bytes
    requires Proper(w)
  {
    if w.request.Some? then WorkerLine(w.pid, w.request.value) else []
  }

  predicate Init(s: State) {
    s == State([], [], [], [])
  }

  /** Process ids may be used again. */
  predicate Forks(s: State, s': State, w: Worker) {
    Proper(w) && !w.done && s' == s.(workers := s.workers + [w])
  }

  predicate Active(s: State, i: nat) {
    i < |s.workers| && Proper(s.workers[i]) && !s.workers[i].done
  }

  /** The write is whole, since a line is not longer than the system's bound on atomic writes; it waits for room. */
  predicate Writes(capacity: nat, s: State, s': State, i: nat) {
    Active(s, i) && s.workers[i].request.Some? && |s.pipe| + |Output(s.workers[i])| <= capacity
    && s' == s.(workers := s.workers[i := s.workers[i].(done := true)],
                pipe := s.pipe + Output(s.workers[i]),
                written := s.written + [i])
  }

  predicate Leaves(s: State, s': State, i: nat) {
    Active(s, i) && s.workers[i].request.None?
    && s' == s.(workers := s.workers[i := s.workers[i].(done := true)])
  }

  /** The logger holds a writing end itself, so its read never reports the end of the pipe. */
  predicate Logs(s: State, s': State, k: nat) {
    1 <= k <= |s.pipe| && k <= MAX && s' == s.(log := s.log + s.pipe[..k], pipe := s.pipe[k..])
  }

  ghost predicate Progress(capacity: nat, s: State, s': State) {
    (exists i: nat :: Writes(capacity, s, s', i)) || (exists i: nat :: Leaves(s, s', i)) || (exists k: nat :: Logs(s, s', k))
  }

  ghost predicate Next(capacity: nat, s: State, s': State) {
    Progress(capacity, s, s') || exists w :: Forks(s, s', w)
  }

  ghost predicate Run(capacity: nat, ss: seq<State>) {
    ss != [] && Init(ss[0]) && forall t :: 0 <= t < |ss| - 1 ==> Next(capacity, ss[t], ss[t + 1])
  }

  // Conservation.

  ghost predicate Sound(s: State) {
    (forall i :: 0 <= i < |s.workers| ==> Proper(s.workers[i]))
    && (forall j :: 0 <= j < |s.written| ==> s.written[j] < |s.workers|)
  }

  /** The lines in the order of their writes. */
  ghost function Lines(s: State): (r: seq<bytes>)
    requires Sound(s)
    ensures |r| == |s.written|
  {
    seq(|s.written|, j requires 0 <= j < |s.written| => Output(s.workers[s.written[j]]))
  }

  ghost predicate Wrote(s: State, i: nat) {
    i < |s.workers| && s.workers[i].done && s.workers[i].request.Some?
  }

  /** The writers are exactly the workers that had a request and are done, each once. */
  ghost predicate WritersKnown(s: State) {
    (forall i: nat :: i in s.written <==> Wrote(s, i))
    && (forall j, k :: 0 <= j < k < |s.written| ==> s.written[j] != s.written[k])
  }

  ghost predicate Inv(s: State) {
    Sound(s) && WritersKnown(s) && s.log + s.pipe == Concat(Lines(s))
  }

  lemma {:induction false} WriteKeeps(capacity: nat, s: State, s': State, i: nat)
    requires Inv(s) && Writes(capacity, s, s', i)
    ensures Inv(s')
  {
    hide Proper, Output, Concat;
    assert !Wrote(s, i);
    assert WritersKnown(s') by {
      forall k: nat ensures k in s'.written <==> Wrote(s', k) {
        assert k in s'.written <==> k in s.written || k == i;
        assert k != i ==> (Wrote(s', k) <==> Wrote(s, k));
      }
    }
    SoundAfter(s, s', i);
    var l := Output(s.workers[i]);
    assert Lines(s') == Lines(s) + [l];
    ConcatAppend(Lines(s), l);
    assert (s.log + s.pipe) + l == s.log + (s.pipe + l);
  }

  /** Finishing a worker changes no line. */
  lemma SoundAfter(s: State, s': State, i: nat)
    requires Sound(s) && i < |s.workers| && s'.workers == s.workers[i := s.workers[i].(done := true)]
    requires s'.written == s.written || s'.written == s.written + [i]
    ensures Sound(s')
    ensures forall k :: 0 <= k < |s.workers| ==> Output(s'.workers[k]) == Output(s.workers[k])
  {
    hide WorkerLine;
    forall k | 0 <= k < |s.workers| ensures Proper(s'.workers[k]) && Output(s'.workers[k]) == Output(s.workers[k]) {
      assert Proper(s.workers[k]);
    }
  }

  lemma {:induction false} LeaveKeeps(s: State, s': State, i: nat)
    requires Inv(s) && Leaves(s, s', i)
    ensures Inv(s')
  {
    hide Proper, Output, Concat;
    assert WritersKnown(s') by {
      forall k: nat ensures k in s'.written <==> Wrote(s', k) {
        assert Wrote(s', k) <==> Wrote(s, k);
      }
    }
    SoundAfter(s, s', i);
    assert Lines(s') == Lines(s);
  }

  lemma {:induction false} ForkKeeps(s: State, s': State, w: Worker)
    requires Inv(s) && Forks(s, s', w)
    ensures Inv(s')
  {
    hide Proper, Output, Concat;
    forall i: nat ensures i in s'.written <==> Wrote(s', i) {
      assert Wrote(s', i) <==> Wrote(s, i);
    }
    assert Lines(s') == Lines(s);
  }

  lemma {:induction false} LogKeeps(s: State, s': State, k: nat)
    requires Inv(s) && Logs(s, s', k)
    ensures Inv(s')
  {
    hide Proper, Output, Concat;
    forall i: nat ensures i in s'.written <==> Wrote(s', i) {
      assert Wrote(s', i) <==> Wrote(s, i);
    }
    assert s.pipe == s.pipe[..k] + s.pipe[k..];
    assert s.log + (s.pipe[..k] + s.pipe[k..]) == s'.log + s'.pipe;
    assert Lines(s') == Lines(s);
  }

  lemma {:induction false} RunsKeep(capacity: nat, ss: seq<State>, t: nat)
    requires Run(capacity, ss) && t < |ss|
    ensures Inv(ss[t])
  {
    hide Writes, Leaves, Logs, Forks;
    if t > 0 {
      hide Inv;
      RunsKeep(capacity, ss, t - 1);
      var s, s' := ss[t - 1], ss[t - 1 + 1];
      assert Next(capacity, s, s');
      if i: nat :| Writes(capacity, s, s', i) {
        WriteKeeps(capacity, s, s', i);
      } else if i: nat :| Leaves(s, s', i) {
        LeaveKeeps(s, s', i);
      } else if k: nat :| Logs(s, s', k) {
        LogKeeps(s, s', k);
      } else {
        var w :| Forks(s, s', w);
        ForkKeeps(s, s', w);
      }
    }
  }

  /**
   At every moment the log followed by the pipe is the whole lines of the workers that have written,
   in the order of their writes, each once: none is lost, split or duplicated.
   */
  lemma {:induction false} LogAndPipeHoldWholeLines(capacity: nat, ss: seq<State>, t: nat)
    requires Run(capacity, ss) && t < |ss|
    ensures Sound(ss[t]) && ss[t].log + ss[t].pipe == Concat(Lines(ss[t])) && |ss[t].pipe| <= capacity
    ensures var s := ss[t];
      forall j | 0 <= j < |s.written| ::
        s.written[j] < |s.workers| && var w := s.workers[s.written[j]];
        w.request.Some? && WellFormed(w.request.value)
        && Lines(s)[j] == Dec(w.pid as int) + [':' as int as byte, ' ' as int as byte] + LineOf(w.request.value)
    ensures var s := ss[t];
      (forall i: nat :: i in s.written <==> i < |s.workers| && s.workers[i].done && s.workers[i].request.Some?)
      && (forall j, k :: 0 <= j < k < |s.written| ==> s.written[j] != s.written[k])
  {
    hide Run, Concat, Proper, Output;
    RunsKeep(capacity, ss, t);
    PipeStaysWithinCapacity(capacity, ss, t);
    var s := ss[t];
    forall i: nat ensures i in s.written <==> i < |s.workers| && s.workers[i].done && s.workers[i].request.Some? {
      assert i in s.written <==> Wrote(s, i);
    }
    forall j | 0 <= j < |s.written|
      ensures s.written[j] < |s.workers| &&
        var w := s.workers[s.written[j]];
        w.request.Some? && WellFormed(w.request.value)
        && Lines(s)[j] == Dec(w.pid as int) + [58, 32] + LineOf(w.request.value)
    {
      WrittenText(s, j);
    }
  }

  lemma WrittenText(s: State, j: nat)
    requires Sound(s) && WritersKnown(s) && j < |s.written|
    ensures var w := s.workers[s.written[j]];
      w.request.Some? && WellFormed(w.request.value)
      && Lines(s)[j] == Dec(w.pid as int) + [58, 32] + LineOf(w.request.value)
  {
    hide LineOf, Dec;
    var i := s.written[j];
    assert i in s.written && Wrote(s, i) && Proper(s.workers[i]);
  }

  lemma {:induction false} PipeStaysWithinCapacity(capacity: nat, ss: seq<State>, t: nat)
    requires Run(capacity, ss) && t < |ss|
    ensures |ss[t].pipe| <= capacity
  {
    hide Output;
    if t > 0 {
      PipeStaysWithinCapacity(capacity, ss, t - 1);
      assert Next(capacity, ss[t - 1], ss[t - 1 + 1]);
    }
  }

  /** Who a worker is and what it was asked never change, and what was written or logged stays. */
  lemma {:induction false} HistoryIsKept(capacity: nat, s: State, s': State)
    requires Next(capacity, s, s')
    ensures |s.workers| <= |s'.workers| && s.written <= s'.written && s.log <= s'.log
    ensures forall i :: 0 <= i < |s.workers| ==>
      s'.workers[i].pid == s.workers[i].pid && s'.workers[i].request == s.workers[i].request
      && (s.workers[i].done ==> s'.workers[i].done)
  {
    hide Output, Proper;
  }

  // What can happen.

  lemma RunsStartEmpty(capacity: nat)
    ensures Run(capacity, [State([], [], [], [])])
  {
  }

  /** Any client can come at any time, as long as the text of its worker fits the 1024 bytes of its buffer. */
  lemma AnyClientCanCome(capacity: nat, s: State, w: Worker)
    requires !w.done
    requires w.request.Some? ==> WellFormed(w.request.value) && |Dec(w.pid as int)| + 2 + |LineOf(w.request.value)| < 1024
    ensures Next(capacity, s, s.(workers := s.workers + [w]))
  {
    hide LineOf, Dec;
    assert Forks(s, s.(workers := s.workers + [w]), w);
  }

  /** Any worker that is not done can write when its text has room, or leave when it has none. */
  lemma AnyWorkerCanFinish(capacity: nat, ss: seq<State>, t: nat, i: nat)
    requires Run(capacity, ss) && t < |ss| && i < |ss[t].workers| && !ss[t].workers[i].done
    ensures var s, w := ss[t], ss[t].workers[i];
      var left := s.workers[i := w.(done := true)];
      match w.request
      case None => Next(capacity, s, s.(workers := left))
      case Some(f) =>
        WellFormed(f) && var text := Dec(w.pid as int) + [58, 32] + LineOf(f);
        |s.pipe| + |text| <= capacity ==>
          Next(capacity, s, s.(workers := left, pipe := s.pipe + text, written := s.written + [i]))
  {
    hide Run, LineOf, Dec;
    RunsKeep(capacity, ss, t);
    var s, w := ss[t], ss[t].workers[i];
    assert Proper(w);
    var left := s.workers[i := w.(done := true)];
    match w.request
    case None => assert Leaves(s, s.(workers := left), i);
    case Some(f) =>
      var text := Dec(w.pid as int) + [58, 32] + LineOf(f);
      if |s.pipe| + |text| <= capacity {
        assert Writes(capacity, s, s.(workers := left, pipe := s.pipe + text, written := s.written + [i]), i);
      }
  }

  /** The logger's read may return any part of the pipe up to 1024 bytes. */
  lemma AnyChunkCanBeLogged(capacity: nat, s: State, k: nat)
    requires 1 <= k <= |s.pipe| && k <= 1024
    ensures Next(capacity, s, s.(log := s.log + s.pipe[..k], pipe := s.pipe[k..]))
  {
    assert Logs(s, s.(log := s.log + s.pipe[..k], pipe := s.pipe[k..]), k);
  }

  // Reading the log back.

  lemma WorkerLineIsALine(pid: int32, f: Request)
    requires WellFormed(f) && NEWLINE !in f.operators
    ensures IsLine(WorkerLine(pid, f))
  {
    hide Dec, LineOf;
    LineIsACString(f);
    DecBytes(pid as int);
    var l, line := WorkerLine(pid, f), LineOf(f);
    assert l[..|l| - 1] == Prefix(pid) + line[..|line| - 1];
  }

  /** A worker's line tells its process id, and then its request's line. */
  lemma {:induction false} LineNamesItsWorker(pid: int32, f: Request)
    requires WellFormed(f)
    ensures WorkerLine(pid, f) == Dec(pid as int) + [':' as int as byte, ' ' as int as byte] + LineOf(f)
    ensures ReadNumber(WorkerLine(pid, f)) == Some((pid as int, [':' as int as byte, ' ' as int as byte] + LineOf(f)))
  {
    hide Dec, LineOf, ReadNumber;
    var rest := [COLON, SPACE] + LineOf(f);
    NumberRoundTrip(pid as int, rest);
    assert WorkerLine(pid, f) == Dec(pid as int) + rest;
  }

  /** No operator is a newline. */
  predicate Plain(w: Worker) {
    w.request.Some? ==> NEWLINE !in w.request.value.operators
  }

  ghost predicate PlainWriters(s: State)
    requires Sound(s)
  {
    forall j :: 0 <= j < |s.written| ==> Plain(s.workers[s.written[j]])
  }

  lemma WrittenLinesAreLines(s: State)
    requires Inv(s) && PlainWriters(s)
    ensures forall j :: 0 <= j < |s.written| ==> IsLine(Lines(s)[j])
  {
    hide IsLine, WorkerLine, Concat;
    forall j | 0 <= j < |s.written| ensures IsLine(Lines(s)[j]) {
      var i := s.written[j];
      assert i in s.written && Plain(s.workers[i]) && Wrote(s, i);
      WorkerLineIsALine(s.workers[i].pid, s.workers[i].request.value);
    }
  }

  /**
   When no operator is a newline, the complete lines of the log file are at every moment the first
   of the lines written, and what follows them is a proper start of the next; once the pipe is
   empty they are all.
   */
  lemma {:induction false} LogReadsBack(capacity: nat, ss: seq<State>, t: nat)
    requires Run(capacity, ss) && t < |ss| && Sound(ss[t]) && PlainWriters(ss[t])
    ensures Split(ss[t].log) <= Lines(ss[t])
    ensures ss[t].pipe == [] <==> Split(ss[t].log) == Lines(ss[t])
    ensures ss[t].pipe == [] ==> Unfinished(ss[t].log) == []
    ensures ss[t].pipe != [] ==> Unfinished(ss[t].log) < Lines(ss[t])[|Split(ss[t].log)|]
  {
    hide Run, Concat, Split, Unfinished, IsLine, Sound, WritersKnown, PlainWriters;
    RunsKeep(capacity, ss, t);
    var s := ss[t];
    WrittenLinesAreLines(s);
    assert s.log == (s.log + s.pipe)[..|s.log|];
    assert s.pipe == [] <==> s.log == s.log + s.pipe;
    PrefixSplits(Lines(s), s.log);
  }

  /** Each complete line of the log file names a worker, and is that worker's line. */
  lemma {:induction false} LogLinesNameTheirWorkers(capacity: nat, ss: seq<State>, t: nat, j: nat)
    requires Run(capacity, ss) && t < |ss| && Sound(ss[t]) && PlainWriters(ss[t]) && j < |Split(ss[t].log)|
    ensures var s := ss[t];
      j < |s.written| && s.written[j] < |s.workers| && var w := s.workers[s.written[j]];
      w.done && w.request.Some? && WellFormed(w.request.value)
      && Split(s.log)[j] == Dec(w.pid as int) + [58, 32] + LineOf(w.request.value)
      && ReadNumber(Split(s.log)[j]) == Some((w.pid as int, [58, 32] + LineOf(w.request.value)))
  {
    hide Run, Concat, Split, Sound, PlainWriters, ReadNumber, LineOf, Dec;
    LogReadsBack(capacity, ss, t);
    LogAndPipeHoldWholeLines(capacity, ss, t);
    var w := ss[t].workers[ss[t].written[j]];
    assert Split(ss[t].log)[j] == Lines(ss[t])[j];
    assert ss[t].written[j] in ss[t].written;
    LineNamesItsWorker(w.pid, w.request.value);
  }

  lemma OpTextStarts(op: byte, x: int32)
    requires op != NUL
    ensures OpText(op, x) != [] && OpText(op, x)[0] == op
  {
    hide Dec;
  }

  lemma {:induction false} OperatorIsPrinted(f: Request, j: nat, k: nat)
    requires WellFormed(f) && j < k <= |f.operators| && f.operators[j] == NEWLINE
    ensures NEWLINE in Text(f, k)
  {
    hide OpText;
    var added := OpText(f.operators[k - 1], f.operands[k]);
    InEither(NEWLINE, Text(f, k - 1), added);
    if j < k - 1 {
      OperatorIsPrinted(f, j, k - 1);
    } else {
      OpTextStarts(f.operators[k - 1], f.operands[k]);
      assert added[0] in added;
    }
  }

  lemma NewlinesOfWorkerLine(pid: int32, f: Request)
    requires WellFormed(f)
    ensures Newlines(WorkerLine(pid, f)) >= if NEWLINE in f.operators then 2 else 1
  {
    hide Dec, Text, Evaluate;
    var text := Expression(f);
    var rest := [EQUALS] + Dec(Evaluate(f) as int) + [NEWLINE];
    assert WorkerLine(pid, f) == Prefix(pid) + (text + rest);
    NewlinesAdd(Prefix(pid), text + rest);
    NewlinesAdd(text, rest);
    assert rest[|rest| - 1] == NEWLINE;
    NewlineIsCounted(rest);
    if NEWLINE in f.operators {
      var j :| 0 <= j < |f.operators| && f.operators[j] == NEWLINE;
      OperatorIsPrinted(f, j, |f.operators|);
      NewlineIsCounted(text);
    }
  }

  /** With the pipe empty, the log file reads back as the lines written iff no writer had a newline for an operator. */
  lemma {:induction false} LogReadsBackIffPlain(capacity: nat, ss: seq<State>, t: nat)
    requires Run(capacity, ss) && t < |ss| && ss[t].pipe == []
    ensures Sound(ss[t]) && (Split(ss[t].log) == Lines(ss[t]) <==> PlainWriters(ss[t]))
  {
    hide Run, Concat, Split, WorkerLine, Newlines;
    RunsKeep(capacity, ss, t);
    var s := ss[t];
    if PlainWriters(s) {
      LogReadsBack(capacity, ss, t);
    } else {
      var bad :| 0 <= bad < |s.written| && !Plain(s.workers[s.written[bad]]);
      forall j | 0 <= j < |s.written| ensures Newlines(Lines(s)[j]) >= if j == bad then 2 else 1 {
        var i := s.written[j];
        assert i in s.written && Wrote(s, i);
        NewlinesOfWorkerLine(s.workers[i].pid, s.workers[i].request.value);
      }
      assert s.log == s.log + s.pipe;
      NewlinesOfLines(Lines(s));
      SplitCountsNewlines(s.log);
      assert Newlines(Lines(s)[bad]) >= 2;
    }
  }

  // Progress.

  /** Without new clients the server comes to rest exactly when every worker is done and the pipe is empty. */
  lemma {:induction false} RestMeansLogged(capacity: nat, ss: seq<State>, t: nat)
    requires Run(capacity, ss) && t < |ss| && capacity >= 1024
    ensures var s := ss[t];
      (forall s' :: !Progress(capacity, s, s')) <==> s.pipe == [] && forall i :: 0 <= i < |s.workers| ==> s.workers[i].done
    ensures Sound(ss[t]) && (ss[t].pipe == [] ==> ss[t].log == Concat(Lines(ss[t])))
  {
    hide Run, Concat, Output, Lines;
    RunsKeep(capacity, ss, t);
    var s := ss[t];
    if s.pipe != [] {
      var s' := s.(log := s.log + s.pipe[..1], pipe := s.pipe[1..]);
      assert Logs(s, s', 1);
      assert Progress(capacity, s, s');
    } else {
      assert s.log + [] == s.log;
      if i: nat :| i < |s.workers| && !s.workers[i].done {
        WorkerGoesOn(capacity, s, i);
      }
    }
  }

  lemma WorkerGoesOn(capacity: nat, s: State, i: nat)
    requires Sound(s) && s.pipe == [] && capacity >= MAX && i < |s.workers| && !s.workers[i].done
    ensures exists s' :: Progress(capacity, s, s')
  {
    hide WorkerLine;
    var w := s.workers[i];
    assert Proper(w);
    var left := s.(workers := s.workers[i := w.(done := true)]);
    if w.request.None? {
      assert Leaves(s, left, i);
      assert Progress(capacity, s, left);
    } else {
      var s' := left.(pipe := s.pipe + Output(w), written := s.written + [i]);
      assert Writes(capacity, s, s', i);
      assert Progress(capacity, s, s');
    }
  }

  /** Steps that the workers present and the logger can still take. */
  function Pending(ws: seq<Worker>): nat
    requires forall i :: 0 <= i < |ws| ==> Proper(ws[i])
  {
    if ws == [] then 0
    else Pending(ws[..|ws| - 1]) + if ws[|ws| - 1].done then 0 else 1 + |Output(ws[|ws| - 1])|
  }

  lemma {:induction false} PendingDrops(ws: seq<Worker>, i: nat)
    requires i < |ws| && !ws[i].done && forall k :: 0 <= k < |ws| ==> Proper(ws[k])
    ensures var ws' := ws[i := ws[i].(done := true)];
      (forall k :: 0 <= k < |ws'| ==> Proper(ws'[k])) && Pending(ws') + 1 + |Output(ws[i])| == Pending(ws)
  {
    hide WorkerLine;
    var n := |ws| - 1;
    var w' := ws[i].(done := true);
    assert Proper(w');
    if i == n {
      assert ws[i := w'][..n] == ws[..n];
    } else {
      PendingDrops(ws[..n], i);
      assert ws[i := w'][..n] == ws[..n][i := w'];
    }
  }

  /** Every step but a fork uses up work, so lines wait for room and for the logger only finitely often. */
  lemma {:induction false} StepsUseUpWork(capacity: nat, s: State, s': State)
    requires Inv(s) && Progress(capacity, s, s')
    ensures Sound(s') && Pending(s'.workers) + |s'.pipe| < Pending(s.workers) + |s.pipe|
  {
    hide Proper, Output, Concat, Lines, WritersKnown, Pending;
    if i: nat :| Writes(capacity, s, s', i) {
      PendingDrops(s.workers, i);
      SoundAfter(s, s', i);
    } else if i: nat :| Leaves(s, s', i) {
      PendingDrops(s.workers, i);
      SoundAfter(s, s', i);
    }
  }

  // What fits the line buffer.

  lemma WorkerLineLength(pid: int32, f: Request)
    requires WellFormed(f) && pid > 0
    ensures |WorkerLine(pid, f)| <= 12 * |f.operands| + 24
  {
    hide Digits, LineOf;
    LineLength(f);
    PidLength(pid);
  }

  lemma PidLength(pid: int32)
    requires pid > 0
    ensures |Dec(pid as int)| <= 10
  {
    hide Digits;
    DigitsLength(pid as int, 10) by {
      assert Pow(10, 10) == 10_000_000_000 by {
        TenToTheTenth();
      }
    }
  }

  /** With 83 operands a worker's line always fits its buffer, terminator included; with 84 it may not. */
  lemma {:induction false} EightyThreeOperandsAlwaysFit(n: nat)
    requires 1 <= n <= 127
    ensures (forall f, pid: int32 :: WellFormed(f) && |f.operands| == n && pid > 0 ==> |WorkerLine(pid, f)| < MAX) <==> n <= 83
  {
    hide WorkerLine;
    if n <= 83 {
      forall f, pid: int32 | WellFormed(f) && |f.operands| == n && pid > 0 ensures |WorkerLine(pid, f)| < MAX {
        WorkerLineLength(pid, f);
      }
    } else {
      LongWorkerLine(n);
    }
  }

  lemma LongWorkerLine(n: nat)
    requires 84 <= n <= 127
    ensures WellFormed(Smallest(n)) && |Smallest(n).operands| == n && |WorkerLine(10, Smallest(n))| >= MAX
  {
    hide LineOf;
    LongestLine(n);
    assert |Digits(10)| == 2;
  }

  // The worker.

  /** `sprintf(buf + strlen(buf), …)` */
  method Append(buf: array<byte>, text: bytes)
    requires |CStr(buf[..])| + |text| < buf.Length
    modifies buf
    ensures CStr(buf[..]) == old(CStr(buf[..])) + CStr(text + [NUL])
  {
    hide CStr, Overwrite;
    SprintfAppends(buf[..], text);
    Sprintf(buf, |CStr(buf[..])|, text);
  }

  /** The buffer has room for whatever the worker prints into it, also behind a NUL operator. */
  predicate Room(pid: int32, f: Request, size: nat)
    requires WellFormed(f)
  {
    |Prefix(pid)| + |Expression(f)| + 13 < size
  }

  /** One operator: read, applied, printed. */
  method Step(s: ByteStream, x: int32, r: int32, buf: array<byte>, ghost pid: int32, ghost f: Request, ghost i: nat)
    returns (r': int32)
    requires WellFormed(f) && i < |f.operators| && Room(pid, f, buf.Length)
    requires s.pos < |s.data| && s.data[s.pos] == f.operators[i] && x == f.operands[i + 1]
    requires r == Fold(f, i) && CStr(buf[..]) == Prefix(pid) + Text(f, i)
    modifies s, buf
    ensures s.pos == old(s.pos) + 1
    ensures r' == Fold(f, i + 1) && CStr(buf[..]) == Prefix(pid) + Text(f, i + 1)
  {
    hide Dec, CStr, OpText, Prefix;
    var operator := s.Read(1);
    r' := Apply(operator[0], r, x);
    DecLength(x);
    TextGrows(f, i, |f.operators|);
    OpTextIsPrinted(operator[0], x);
    Append(buf, [operator[0]] + Dec(x as int));
    assert Prefix(pid) + (Text(f, i) + OpText(operator[0], x)) == Prefix(pid) + Text(f, i) + OpText(operator[0], x);
  }

  method FoldAndPrint(s: ByteStream, operand: array<int32>, opCount: nat, buf: array<byte>, ghost pid: int32, ghost f: Request)
    returns (r: int32)
    requires WellFormed(f) && |f.operands| == opCount <= operand.Length && operand[..opCount] == f.operands
    requires s.pos + opCount - 1 <= |s.data| && s.data[s.pos..s.pos + opCount - 1] == f.operators
    requires Room(pid, f, buf.Length) && CStr(buf[..]) == Prefix(pid) + Dec(operand[0] as int)
    modifies s, buf
    ensures s.pos == old(s.pos) + opCount - 1
    ensures r == Evaluate(f) && CStr(buf[..]) == Prefix(pid) + Expression(f)
  {
    hide Dec, CStr, OpText, Prefix, Apply;
    ghost var start := s.pos;
    r := operand[0];
    assert operand[0] == operand[..opCount][0];
    for i := 0 to opCount - 1
      invariant s.pos == start + i
      invariant operand[..opCount] == f.operands
      invariant r == Fold(f, i) && CStr(buf[..]) == Prefix(pid) + Text(f, i)
    {
      assert s.data[s.pos] == s.data[start..start + opCount - 1][i] && operand[i + 1] == operand[..opCount][i + 1];
      r := Step(s, operand[i + 1], r, buf, pid, f, i);
    }
  }

  /** The worker: the result for its client, and the line for the pipe. */
  method ServeClient(s: ByteStream, pid: int32, buf: array<byte>) returns (reply: Answer, line: bytes)
    requires s.pos < |s.data| && (Count(s.data[s.pos..]) >= 1 ==> Decodable(s.data[s.pos..])) && |Dec(pid as int)| + 14 < buf.Length
    requires Count(s.data[s.pos..]) >= 1 ==>
      |Dec(pid as int)| + |Expression(Decode(s.data[s.pos..]))| + 15 < buf.Length
    modifies s, buf
    ensures Count(old(s.data[s.pos..])) <= 0 ==> reply == Refused && line == [] && s.pos == old(s.pos) + 1
    ensures Count(old(s.data[s.pos..])) >= 1 ==>
              var f := Decode(old(s.data[s.pos..]));
              reply == Result(Evaluate(f)) && line == Dec(pid as int) + [58, 32] + LineOf(f)
              && s.pos == old(s.pos) + 5 * |f.operands|
  {
    hide Evaluate, Dec, CStr, Overwrite, Expression, LineOf;
    ghost var start := s.pos;
    var c := s.Read(1);
    var opCount := SignedChar(c[0]);
    if opCount <= 0 {
      reply, line := Refused, [];
    } else {
      ghost var f := Decode(s.data[start..]);
      var r := ServeRequest(s, opCount, pid, buf, f);
      reply, line := Result(r), CStr(buf[..]);
    }
  }

  /** The part of the worker that runs for a positive count, which it has just read. */
  method ServeRequest(s: ByteStream, opCount: nat, pid: int32, buf: array<byte>, ghost f: Request) returns (r: int32)
    requires 1 <= s.pos <= |s.data| && Decodable(s.data[s.pos - 1..]) && f == Decode(s.data[s.pos - 1..])
    requires opCount == |f.operands| && Room(pid, f, buf.Length) && |Prefix(pid)| + 12 < buf.Length
    modifies s, buf
    ensures s.pos == old(s.pos) + 5 * opCount - 1
    ensures r == Evaluate(f) && CStr(buf[..]) == WorkerLine(pid, f)
  {
    hide Evaluate, Prefix, Dec, CStr, Overwrite, Decode, Expression;
    ghost var start := s.pos - 1;
    var operand := ReadStreamOperands(s, opCount);
    OperatorsAhead(s.data, start);
    DecLength(operand[0]);
    PrintStart(buf, pid, operand[0]);
    r := FoldAndPrint(s, operand, opCount, buf, pid, f);
    PrintEnd(buf, r);
    LineInParts(Prefix(pid), Expression(f), [EQUALS], Dec(r as int), [NEWLINE]);
  }

  lemma LineInParts(p: bytes, e: bytes, c: bytes, d: bytes, n: bytes)
    ensures p + e + (c + d + n) == p + (e + c + d + n)
  {
  }

  method PrintStart(buf: array<byte>, pid: int32, x: int32)
    requires |Prefix(pid)| + |Dec(x as int)| < buf.Length
    modifies buf
    ensures CStr(buf[..]) == Prefix(pid) + Dec(x as int)
  {
    hide Dec, CStr;
    var text := Prefix(pid) + Dec(x as int);
    Sprintf(buf, 0, text);
    DecBytes(pid as int);
    DecBytes(x as int);
    assert buf[..][|text|] == NUL && buf[..][..|text|] == text;
    CStrIs(buf[..], |text|);
  }

  method PrintEnd(buf: array<byte>, r: int32)
    requires |CStr(buf[..])| + 13 < buf.Length
    modifies buf
    ensures CStr(buf[..]) == old(CStr(buf[..])) + ([EQUALS] + Dec(r as int) + [NEWLINE])
  {
    hide Dec, CStr;
    var text := [EQUALS] + Dec(r as int) + [NEWLINE];
    DecLength(r);
    DecBytes(r as int);
    assert NUL !in text && (text + [NUL])[..|text|] == text;
    CStrIs(text + [NUL], |text|);
    Append(buf, text);
  }
}
