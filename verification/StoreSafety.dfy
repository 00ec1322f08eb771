/** What every step of the store server keeps: the pipe stays framed, and the trace is a run of the atomic store. */
module StoreSafety {
  import opened Wrappers
  import opened CTypes
  import opened Frame
  import opened Line
  import opened Store

  // Framing: the bytes the child has yet to read against the commands the parent has issued.

  /** The save commands for records `i` to `j - 1`. */
  function Commands(table: seq<Row>, i: nat, j: nat): bytes
    requires i <= j <= |table|
    decreases j - i
  {
    if i == j then [] else SAVE + (table[i] + Commands(table, i + 1, j))
  }

  /** What the child has read of a command it has not finished. */
  function Held(c: Child): bytes {
    match c.pc
    case AwaitMode => []
    case AwaitRecord => SAVE
    case AwaitId => LOAD
    case Answering => LOAD + c.id
    case Done => []
  }

  function Unread(s: State): bytes {
    Held(s.c) + s.a
  }

  /** What the parent has written of a command it has not finished, or whose answer is outstanding. */
  function Open(s: State): bytes {
    match s.p.pc
    case SaveCalc => SAVE
    case SaveRecord => SAVE
    case LoadId => LOAD
    case LoadWait => if s.b == [] then LOAD + s.p.id else []
    case _ => []
  }

  ghost predicate InStep(s: State)
    requires s.p.Valid() && s.c.cnt <= s.p.cnt
  {
    s.c.pc != Done
    && Unread(s) == Commands(s.p.table, s.c.cnt, s.p.cnt) + Open(s)
    && (s.b != [] ==> s.p.pc == LoadWait && s.c.pc == AwaitMode && s.a == [] && s.c.cnt == s.p.cnt
                      && s.b == TableReply(s.p.table, s.p.id, s.p.cnt))
  }

  /** After a quit was written the child reads the saves before it, then the quit, and nothing more. */
  ghost predicate Quitting(s: State, q: nat)
    requires s.p.Valid()
  {
    s.c.cnt <= q <= s.p.cnt && s.b == []
    && (if s.c.pc == Done then s.c.cnt == q else Commands(s.p.table, s.c.cnt, q) + QUIT <= Unread(s))
  }

  ghost predicate Ready(p: Parent)
    requires p.Valid()
  {
    (p.pc in {SaveMode, SaveCalc} ==> Terminated(p.id) && p.cnt < DATA_MAX && |LineOf(p.Request())| < REQ_SIZE)
    && (p.pc == SaveMode ==> p.mode == SAVE)
    && (p.pc == SaveRecord ==> p.cnt < DATA_MAX && RowKey(p.table[p.cnt]) == CStr(p.id)
                               && RowLine(p.table[p.cnt]) == LineOf(p.Request()))
    && (p.pc in {LoadMode, LoadId, LoadWait} ==> Terminated(p.id) && |Matches(p.table, p.id, p.cnt)| < BUF_SIZE)
    && (p.pc == LoadMode ==> p.mode == LOAD)
    && (p.pc == QuitMode ==> p.mode == QUIT)
  }

  /** The saves of a log, in order. */
  function Saves(log: seq<Event>): seq<(bytes, Request)> {
    if log == [] then []
    else
      var e := log[|log| - 1];
      Saves(log[..|log| - 1]) + (if e.Saved? then [(e.key, e.request)] else [])
  }

  ghost predicate Recorded(table: seq<Row>, saves: seq<(bytes, Request)>) {
    |saves| <= |table| && forall k :: 0 <= k < |saves| ==>
      WellFormed(saves[k].1) && RowKey(table[k]) == saves[k].0 && RowLine(table[k]) == LineOf(saves[k].1)
  }

  ghost predicate Inv(s: State) {
    s.p.Valid() && s.c.Valid() && Ready(s.p)
    && s.c.cnt <= s.p.cnt && s.c.table[..s.c.cnt] == s.p.table[..s.c.cnt]
    && (s.quit.None? ==> InStep(s))
    && (s.quit.Some? ==> Quitting(s, s.quit.value))
    && |Saves(s.log)| == s.p.cnt && Recorded(s.p.table, Saves(s.log))
    && AtomicRun(s.log)
  }

  // The commands in the pipe.

  lemma {:induction false} CommandsHead(table: seq<Row>, i: nat, j: nat, tail: bytes)
    requires i < j <= |table|
    ensures var s := Commands(table, i, j) + tail;
      s == SAVE + (table[i] + (Commands(table, i + 1, j) + tail))
      && |s| >= MOD_SIZE + RECORD_SIZE && s[..MOD_SIZE] == SAVE && s[MOD_SIZE] == table[i][0]
  {
    hide LineOf;
    var r, rest := table[i], Commands(table, i + 1, j);
    assert (SAVE + (r + rest)) + tail == SAVE + (r + (rest + tail));
  }

  lemma {:induction false} CommandsAppend(table: seq<Row>, i: nat, j: nat)
    requires i <= j < |table|
    ensures Commands(table, i, j + 1) == Commands(table, i, j) + SAVE + table[j]
    decreases j - i
  {
    if i == j {
      assert Commands(table, j + 1, j + 1) == [];
      assert SAVE + (table[j] + []) == [] + SAVE + table[j];
    } else {
      CommandsAppend(table, i + 1, j);
      var r, rest := table[i], Commands(table, i + 1, j);
      assert SAVE + (r + (rest + SAVE + table[j])) == SAVE + (r + rest) + SAVE + table[j];
    }
  }

  lemma {:induction false} CommandsFrame(t: seq<Row>, u: seq<Row>, i: nat, j: nat)
    requires i <= j <= |t| == |u| && forall k :: i <= k < j ==> t[k] == u[k]
    ensures Commands(t, i, j) == Commands(u, i, j)
    decreases j - i
  {
    hide Commands;
    if i == j {
      NoCommands(t, i);
      NoCommands(u, i);
    } else {
      CommandsFrame(t, u, i + 1, j);
      FirstCommand(t, i, j);
      FirstCommand(u, i, j);
    }
  }

  lemma FirstCommand(table: seq<Row>, i: nat, j: nat)
    requires i < j <= |table|
    ensures Commands(table, i, j) == SAVE + (table[i] + Commands(table, i + 1, j))
  {
  }

  lemma {:induction false} MatchesFrame(t: seq<Row>, u: seq<Row>, id: bytes, n: nat)
    requires n <= |t| && n <= |u| && t[..n] == u[..n]
    ensures Matches(t, id, n) == Matches(u, id, n)
  {
    hide RowKey, RowLine, Entry, CStr;
    if n > 0 {
      assert t[..n - 1] == t[..n][..n - 1] && u[..n - 1] == u[..n][..n - 1];
      assert t[n - 1] == t[..n][n - 1] == u[..n][n - 1] == u[n - 1];
      MatchesFrame(t, u, id, n - 1);
    }
  }

  /** Before a quit, whatever the child reads next is one whole block the parent wrote. */
  lemma {:induction false} ReadsAreWholeWrites(s: State)
    requires Inv(s) && s.quit.None? && s.a != []
    ensures s.c.pc == AwaitMode ==>
      |s.a| >= MOD_SIZE &&
      s.a[..MOD_SIZE] == if s.c.cnt < s.p.cnt || s.p.pc in {SaveCalc, SaveRecord} then SAVE else LOAD
    ensures s.c.pc == AwaitRecord ==>
      s.c.cnt < s.p.cnt && |s.a| >= RECORD_SIZE && s.a[..RECORD_SIZE] == s.p.table[s.c.cnt]
    ensures s.c.pc == AwaitId ==>
      s.c.cnt == s.p.cnt && s.p.pc == LoadWait && s.a == s.p.id
    ensures s.c.pc != Answering && s.c.pc != Done
  {
    hide Recorded, Ready, AtomicRun, Saves;
    HeldStart(s);
    if s.c.cnt < s.p.cnt {
      CommandsHead(s.p.table, s.c.cnt, s.p.cnt, Open(s));
    } else {
      assert Commands(s.p.table, s.c.cnt, s.p.cnt) == [];
      assert Unread(s) == Open(s);
      OpenStart(s);
    }
  }

  lemma OpenStart(s: State)
    requires s.p.Valid()
    ensures Open(s) == [] || Open(s) == SAVE || Open(s) == LOAD || Open(s) == LOAD + s.p.id
    ensures Open(s) != [] ==> Open(s)[..MOD_SIZE] == (if s.p.pc in {SaveCalc, SaveRecord} then SAVE else LOAD)
    ensures Open(s) == LOAD + s.p.id <==> s.p.pc == LoadWait && s.b == []
    ensures Open(s) != [] && |Open(s)| > MOD_SIZE ==> Open(s)[MOD_SIZE..] == s.p.id
    ensures SAVE != LOAD
  {
    assert SAVE[0] != LOAD[0];
  }

  lemma HeldStart(s: State)
    requires s.c.Valid()
    ensures s.c.pc == AwaitRecord ==> Unread(s)[..MOD_SIZE] == SAVE && Unread(s)[MOD_SIZE..] == s.a
    ensures s.c.pc == AwaitId ==> Unread(s)[..MOD_SIZE] == LOAD && Unread(s)[MOD_SIZE..] == s.a
    ensures s.c.pc == Answering ==> Unread(s)[..MOD_SIZE] == LOAD && |Unread(s)| >= MOD_SIZE + ID_SIZE
    ensures s.c.pc == AwaitMode ==> Unread(s) == s.a
  {
  }

  // The trace.

  lemma {:induction false} RunExtends(log: seq<Event>, e: Event)
    requires AtomicRun(log) && AtomicStep(After(log), e, After(log + [e]))
    ensures AtomicRun(log + [e])
  {
    hide After, AtomicStep;
    var l := log + [e];
    forall i | 0 <= i < |l| ensures AtomicStep(After(l[..i]), l[i], After(l[..i + 1])) {
      if i < |log| {
        assert l[..i] == log[..i] && l[..i + 1] == log[..i + 1] && l[i] == log[i];
      } else {
        assert l[..i] == log && l[..i + 1] == l;
      }
    }
  }

  lemma LogGrows(log: seq<Event>, e: Event)
    ensures Saves(log + [e]) == Saves(log) + (if e.Saved? then [(e.key, e.request)] else [])
    ensures e.Saved? ==> After(log + [e]) == After(log)[e.key := Lines(After(log), e.key) + [SavedLine(e.request)]]
    ensures !e.Saved? ==> After(log + [e]) == After(log)
  {
    hide SavedLine;
    assert (log + [e])[..|log|] == log;
  }

  /** The lines saved under a key, in order. */
  function LinesOf(saves: seq<(bytes, Request)>, key: bytes): seq<bytes> {
    if saves == [] then []
    else
      var (k, f) := saves[|saves| - 1];
      LinesOf(saves[..|saves| - 1], key) + (if k == key then [SavedLine(f)] else [])
  }

  /** The store maps a key to all lines saved under it, in the order they were saved. */
  lemma {:induction false} StoreHoldsSavedLines(log: seq<Event>, key: bytes)
    ensures Lines(After(log), key) == LinesOf(Saves(log), key)
  {
    hide SavedLine;
    if log != [] {
      var n := |log| - 1;
      assert log == log[..n] + [log[n]];
      LogGrows(log[..n], log[n]);
      StoreHoldsSavedLines(log[..n], key);
      if log[n].Saved? {
        var saves := Saves(log[..n]);
        assert (saves + [(log[n].key, log[n].request)])[..|saves|] == saves;
      } else {
        assert Saves(log[..n]) + [] == Saves(log[..n]);
      }
    }
  }

  /** A scan of the table renders the lines saved under the id. */
  lemma {:induction false} ScanRenders(table: seq<Row>, saves: seq<(bytes, Request)>, id: bytes, n: nat)
    requires Recorded(table, saves) && n <= |saves|
    ensures Matches(table, id, n) == Render(CStr(id), LinesOf(saves[..n], CStr(id)))
  {
    hide RowKey, RowLine, Entry, CStr, LineOf;
    if n > 0 {
      ScanRenders(table, saves, id, n - 1);
      assert saves[..n][..n - 1] == saves[..n - 1];
      var before := LinesOf(saves[..n - 1], CStr(id));
      assert SavedLine(saves[n - 1].1) == RowLine(table[n - 1]);
      if saves[n - 1].0 == CStr(id) {
        assert (before + [RowLine(table[n - 1])])[..|before|] == before;
      } else {
        assert before + [] == before;
        assert Matches(table, id, n) == Matches(table, id, n - 1) + [];
      }
    } else {
      assert saves[..0] == [];
    }
  }

  lemma RenderedIsNotEmpty(key: bytes, lines: seq<bytes>)
    ensures Render(key, lines) == [] <==> lines == []
  {
    hide Entry;
  }

  /** The child's answer is the atomic store's answer. */
  lemma {:induction false} TableAnswers(table: seq<Row>, log: seq<Event>, id: bytes, n: nat)
    requires |Saves(log)| == n && Recorded(table, Saves(log))
    ensures TableReply(table, id, n) == AtomicReply(Lines(After(log), CStr(id)), CStr(id))
  {
    hide Matches, Render, LinesOf, After, Saves, CStr;
    StoreHoldsSavedLines(log, CStr(id));
    ScanRenders(table, Saves(log), id, n);
    assert Saves(log)[..n] == Saves(log);
    RenderedIsNotEmpty(CStr(id), Lines(After(log), CStr(id)));
  }

  // Every step keeps the invariant.

  lemma PrefixExtends(p: bytes, u: bytes, w: bytes)
    requires p <= u
    ensures p <= u + w
  {
  }

  /** Bytes appended to pipe A follow what is already unread. */
  lemma UnreadGrows(s: State, w: bytes)
    ensures Held(s.c) + (s.a + w) == Unread(s) + w
  {
    hide Held;
    assert Held(s.c) + (s.a + w) == Held(s.c) + s.a + w;
  }

  lemma {:induction false} ReceiveKeeps(s: State, s': State, m: bytes)
    requires Inv(s) && Receive(s, s', m)
    ensures Inv(s')
  {
    hide Overwrite, Asked, LineOf, Matches, Commands, Recorded, AtomicRun, Saves, Held, TableReply;
    assert Dispatch(Scatter(s.p, m)).table == s.p.table;
  }

  /** A write of `w` into pipe A after which the parent's open command has grown by `w`. */
  lemma {:induction false} WriteKeeps(s: State, s': State, w: bytes)
    requires Inv(s) && s'.a == s.a + w && s'.c == s.c && s'.b == s.b == [] && s'.quit == s.quit && s'.log == s.log
    requires s'.p == s.p.(pc := s'.p.pc) && Ready(s'.p)
    requires Open(s') == Open(s) + w
    ensures Inv(s')
  {
    hide Commands, Recorded, AtomicRun, Saves, Held, TableReply, Ready, Open;
    UnreadGrows(s, w);
    var u := Commands(s.p.table, s.c.cnt, s.p.cnt);
    assert u + (Open(s) + w) == (u + Open(s)) + w;
    if s.quit.Some? && s.c.pc != Done {
      PrefixExtends(Commands(s.p.table, s.c.cnt, s.quit.value) + QUIT, Unread(s), w);
    }
  }

  lemma NoReplyUnlessWaiting(s: State)
    requires Inv(s) && s.p.pc != LoadWait
    ensures s.b == []
  {
    hide Commands, Recorded, AtomicRun, Saves, Held, Ready;
  }

  lemma {:induction false} ModeOrIdKeeps(cap: nat, s: State, s': State)
    requires Inv(s) && ParentStep(cap, s, s') && s.p.pc in {SaveMode, LoadMode, LoadId}
    ensures Inv(s')
  {
    hide Inv, ParentStep, Ready, Open;
    NoReplyUnlessWaiting(s);
    ModeOrIdWritten(cap, s, s');
    WriteKeeps(s, s', if s.p.pc == LoadId then s.p.id else s.p.mode);
  }

  lemma ModeOrIdWritten(cap: nat, s: State, s': State)
    requires Inv(s) && ParentStep(cap, s, s') && s.p.pc in {SaveMode, LoadMode, LoadId} && s.b == []
    ensures var w := if s.p.pc == LoadId then s.p.id else s.p.mode;
      s' == s.(p := s.p.(pc := s'.p.pc), a := s.a + w) && Open(s') == Open(s) + w && s'.p.Valid() && Ready(s'.p)
  {
    hide Commands, Recorded, AtomicRun, Saves, LineOf, Asked, Matches, Held, InStep, Quitting;
    assert [] + s.p.mode == s.p.mode;
  }

  lemma {:induction false} ComputeKeeps(cap: nat, s: State, s': State)
    requires Inv(s) && ParentStep(cap, s, s') && s.p.pc == SaveCalc
    ensures Inv(s')
  {
    hide Commands, AtomicRun, Saves, LineOf, Matches, Held, RowKey, RowLine, CStr;
    NoReplyUnlessWaiting(s);
    var f := s.p.Request();
    assert s'.p.Request() == f by {
      hide Decode;
    }
    assert RowLine(s'.p.table[s.p.cnt]) == LineOf(f) by {
      LineIsACString(f);
      CStrOfString(LineOf(f));
    }
    forall i, j | 0 <= i <= j <= s.p.cnt ensures Commands(s'.p.table, i, j) == Commands(s.p.table, i, j) {
      CommandsFrame(s'.p.table, s.p.table, i, j);
    }
    assert s'.p.table[..s.c.cnt] == s.p.table[..s.c.cnt];
  }

  lemma CStrOfString(s: bytes)
    requires NUL !in s
    ensures CStr(s) == s
  {
    CStrAppend(s, []);
    assert s + [] == s;
  }

  lemma {:induction false} RecordKeeps(cap: nat, s: State, s': State)
    requires Inv(s) && ParentStep(cap, s, s') && s.p.pc == SaveRecord
    ensures Inv(s')
  {
    hide Commands, LineOf, Matches, Held, RowKey, RowLine, CStr, Asked, AtomicRun, Recorded, Saves, TableReply;
    NoReplyUnlessWaiting(s);
    RecordIsLogged(s);
    var r := s.p.table[s.p.cnt];
    UnreadGrows(s, r);
    if s.quit.None? {
      CommandsAppend(s.p.table, s.c.cnt, s.p.cnt);
      assert Unread(s') == Commands(s.p.table, s.c.cnt, s.p.cnt) + SAVE + r;
      assert Commands(s.p.table, s.c.cnt, s.p.cnt + 1) + [] == Commands(s.p.table, s.c.cnt, s.p.cnt + 1);
    } else if s.c.pc != Done {
      PrefixExtends(Commands(s.p.table, s.c.cnt, s.quit.value) + QUIT, Unread(s), r);
    }
  }

  /** The record about to be written is the next save of the log. */
  lemma RecordIsLogged(s: State)
    requires Inv(s) && s.p.pc == SaveRecord
    ensures var log := s.log + [Saved(CStr(s.p.id), s.p.Request())];
      |Saves(log)| == s.p.cnt + 1 && Recorded(s.p.table, Saves(log)) && AtomicRun(log)
  {
    hide Commands, LineOf, Matches, RowKey, RowLine, CStr, Asked, AtomicRun, InStep, Quitting;
    var e := Saved(CStr(s.p.id), s.p.Request());
    LogGrows(s.log, e);
    RunExtends(s.log, e);
  }

  /** The reply the parent reads is whole: it fits the buffer it is read into. */
  lemma ReplyIsReadWhole(s: State)
    requires Inv(s) && s.p.pc == LoadWait && s.b != []
    ensures s.quit.None? && s.b == TableReply(s.p.table, s.p.id, s.p.cnt)
    ensures Taken(s.b, BUF_SIZE) == s.b && Left(s.b, BUF_SIZE) == []
  {
    hide Commands, Recorded, AtomicRun, Saves, Held, Matches;
    assert |s.b| < BUF_SIZE;
  }

  lemma {:induction false} AnswerKeeps(cap: nat, s: State, s': State)
    requires Inv(s) && ParentStep(cap, s, s') && s.p.pc == LoadWait
    ensures Inv(s')
  {
    hide Commands, Matches, Held, CStr, AtomicRun, Recorded, Taken, Left, TableReply, AtomicReply;
    ReplyIsReadWhole(s);
    var e := Loaded(CStr(s.p.id), s.b);
    LogGrows(s.log, e);
    TableAnswers(s.p.table, s.log, s.p.id, s.p.cnt);
    RunExtends(s.log, e);
    assert Saves(s.log) + [] == Saves(s.log);
  }

  lemma {:induction false} QuitKeeps(cap: nat, s: State, s': State)
    requires Inv(s) && ParentStep(cap, s, s') && s.p.pc == QuitMode
    ensures Inv(s')
  {
    hide Commands, Matches, Held, CStr, AtomicRun, Recorded, TableReply;
    NoReplyUnlessWaiting(s);
    LogGrows(s.log, Quitted);
    RunExtends(s.log, Quitted);
    assert Saves(s.log) + [] == Saves(s.log);
    UnreadGrows(s, QUIT);
    if s.quit.None? {
      assert Unread(s) == Commands(s.p.table, s.c.cnt, s.p.cnt) + [];
    } else if s.c.pc != Done {
      PrefixExtends(Commands(s.p.table, s.c.cnt, s.quit.value) + QUIT, Unread(s), QUIT);
    }
  }

  /** After a quit was written, the child still reads whole blocks, and only saves and the quit. */
  lemma {:induction false} ReadsBeforeStopping(s: State, q: nat)
    requires Inv(s) && s.quit == Some(q) && s.c.pc != Done
    ensures s.c.pc == AwaitMode ==>
      |s.a| >= MOD_SIZE && s.a[..MOD_SIZE] == if s.c.cnt < q then SAVE else QUIT
    ensures s.c.pc == AwaitRecord ==>
      s.c.cnt < q && |s.a| >= RECORD_SIZE && s.a[..RECORD_SIZE] == s.p.table[s.c.cnt]
    ensures s.c.pc != AwaitId && s.c.pc != Answering
  {
    hide Recorded, Ready, AtomicRun, Saves, InStep, Commands, Held, Unread;
    HeldStart(s);
    ModesDiffer();
    QuitHead(s.p.table, s.c.cnt, q);
    var u, w := Commands(s.p.table, s.c.cnt, q) + QUIT, Unread(s);
    SameFront(u, w, MOD_SIZE);
    if s.c.pc == AwaitRecord {
      SameFront(u, w, MOD_SIZE + RECORD_SIZE);
      Within(w, MOD_SIZE, RECORD_SIZE);
      Within(u, MOD_SIZE, RECORD_SIZE);
    }
  }

  /** The saves still to be processed, and a quit behind them. */
  lemma QuitHead(table: seq<Row>, i: nat, q: nat)
    requires i <= q <= |table|
    ensures var u := Commands(table, i, q) + QUIT;
      |u| >= MOD_SIZE && u[..MOD_SIZE] == (if i < q then SAVE else QUIT)
      && (i < q ==> |u| >= MOD_SIZE + RECORD_SIZE && u[MOD_SIZE..MOD_SIZE + RECORD_SIZE] == table[i])
  {
    hide Commands;
    if i < q {
      CommandsHead(table, i, q, QUIT);
      var rest := Commands(table, i + 1, q) + QUIT;
      assert (SAVE + (table[i] + rest))[MOD_SIZE..MOD_SIZE + RECORD_SIZE] == table[i];
    } else {
      NoCommands(table, i);
      assert [] + QUIT == QUIT;
    }
  }

  lemma NoCommands(table: seq<Row>, i: nat)
    requires i <= |table|
    ensures Commands(table, i, i) == []
  {
  }

  lemma SameFront(u: bytes, w: bytes, n: nat)
    requires u <= w && n <= |u|
    ensures n <= |w| && w[..n] == u[..n]
  {
  }

  lemma Within(w: bytes, m: nat, n: nat)
    requires m + n <= |w|
    ensures w[..m + n][m..] == w[m..m + n] == w[m..][..n]
  {
  }

  lemma OverwriteAll(buf: bytes, data: bytes)
    requires |buf| == |data|
    ensures Overwrite(buf, 0, data) == data
  {
  }

  /** Reading a whole block from the pipe leaves what is unread as it was. */
  lemma BlockRead(a: bytes, n: nat)
    requires n <= |a|
    ensures Taken(a, n) == a[..n] && Left(a, n) == a[n..] && a[..n] + a[n..] == a
  {
  }

  lemma {:induction false} ModeIsRead(s: State, s': State)
    requires Inv(s) && ChildStep(s, s') && s.c.pc == AwaitMode
    ensures (s'.c.pc in {AwaitRecord, AwaitId} && Unread(s') == Unread(s))
            || (s'.c.pc == Done && s.quit.Some? && s.c.cnt >= s.quit.value)
    ensures s.a != [] && s' == s.(c := s.c.(pc := s'.c.pc, mode := s'.c.mode), a := s'.a) && s'.c.Valid()
    ensures |s.a| >= MOD_SIZE && (s'.c.pc == AwaitRecord <==> s.a[..MOD_SIZE] == SAVE)
  {
    hide Inv, Taken, Left, Overwrite;
    assert s.a != [] && s.c.Valid();
    if s.quit.None? {
      ReadsAreWholeWrites(s);
    } else {
      assert s.quit == Some(s.quit.value);
      ReadsBeforeStopping(s, s.quit.value);
    }
    BlockRead(s.a, MOD_SIZE);
    OverwriteAll(s.c.mode, s.a[..MOD_SIZE]);
    ModesDiffer();
  }

  lemma ModesDiffer()
    ensures SAVE != LOAD && SAVE != QUIT && LOAD != QUIT
  {
    assert SAVE[0] != LOAD[0] && SAVE[0] != QUIT[0] && LOAD[0] != QUIT[0];
  }

  lemma {:induction false} ChildModeKeeps(s: State, s': State)
    requires Inv(s) && ChildStep(s, s') && s.c.pc == AwaitMode
    ensures Inv(s')
  {
    hide Commands, Recorded, Ready, AtomicRun, Saves, TableReply, Unread, ChildStep;
    ModeIsRead(s, s');
  }

  lemma {:induction false} RecordIsRead(s: State, s': State)
    requires Inv(s) && ChildStep(s, s') && s.c.pc == AwaitRecord
    ensures var n := s.c.cnt;
      n < s.p.cnt <= |s.p.table| && Unread(s) == SAVE + (s.p.table[n] + s'.a)
      && s' == s.(c := s.c.(pc := AwaitMode, cnt := n + 1, table := s'.c.table), a := s'.a)
      && s'.c.Valid() && s'.c.table[..n + 1] == s.p.table[..n + 1]
    ensures s.quit.Some? ==> s.c.cnt < s.quit.value
  {
    hide Taken, Left, Overwrite, InStep, Quitting, Ready, Recorded, AtomicRun, Saves;
    if s.quit.None? {
      ReadsAreWholeWrites(s);
    } else {
      ReadsBeforeStopping(s, s.quit.value);
      assert s.c.cnt < s.p.cnt by {
        QuitIsEarlier(s);
      }
    }
    BlockRead(s.a, RECORD_SIZE);
    OverwriteAll(s.c.table[s.c.cnt], s.a[..RECORD_SIZE]);
    var n := s.c.cnt;
    assert s'.c.table[..n + 1] == s.c.table[..n] + [s.p.table[n]] == s.p.table[..n + 1];
  }

  lemma QuitIsEarlier(s: State)
    requires Inv(s) && s.quit.Some?
    ensures s.c.cnt <= s.quit.value <= s.p.cnt
  {
    hide Unread, Commands, Recorded, Ready, AtomicRun;
  }

  lemma {:induction false} ChildRecordKeeps(s: State, s': State)
    requires Inv(s) && ChildStep(s, s') && s.c.pc == AwaitRecord
    ensures Inv(s')
  {
    hide Commands, Recorded, Ready, AtomicRun, Saves, TableReply, ChildStep;
    RecordIsRead(s, s');
    var n := s.c.cnt;
    assert Unread(s') == s'.a by {
      assert [] + s'.a == s'.a;
    }
    if s.quit.None? {
      CommandsHead(s.p.table, n, s.p.cnt, Open(s));
      SameTail(s.p.table[n], s'.a, Commands(s.p.table, n + 1, s.p.cnt) + Open(s));
    } else {
      CommandsHead(s.p.table, n, s.quit.value, QUIT);
      PrefixTail(s.p.table[n], s'.a, Commands(s.p.table, n + 1, s.quit.value) + QUIT);
    }
  }

  lemma SameTail(r: bytes, x: bytes, y: bytes)
    requires SAVE + (r + x) == SAVE + (r + y)
    ensures x == y
  {
    assert x == (SAVE + (r + x))[MOD_SIZE..][|r|..];
    assert y == (SAVE + (r + y))[MOD_SIZE..][|r|..];
  }

  lemma PrefixTail(r: bytes, x: bytes, y: bytes)
    requires SAVE + (r + y) <= SAVE + (r + x)
    ensures y <= x
  {
    var k := MOD_SIZE + |r|;
    forall i | 0 <= i < |y| ensures i < |x| && y[i] == x[i] {
      assert (SAVE + (r + y))[k + i] == (SAVE + (r + x))[k + i];
    }
  }

  lemma {:induction false} ChildIdKeeps(s: State, s': State)
    requires Inv(s) && ChildStep(s, s') && s.c.pc == AwaitId
    ensures Inv(s')
  {
    hide Commands, Recorded, Ready, AtomicRun, Saves, TableReply, Taken, Left, Overwrite;
    if s.quit.Some? {
      ReadsBeforeStopping(s, s.quit.value);
    } else {
      ReadsAreWholeWrites(s);
      BlockRead(s.a, ID_SIZE);
      OverwriteAll(s.c.id, s.a[..ID_SIZE]);
      assert LOAD + s.p.id + [] == LOAD + s.p.id;
    }
  }

  /** The child answers only the load the parent waits for, with every save before it in its table. */
  lemma {:induction false} AnswersTheOpenLoad(s: State)
    requires Inv(s) && s.c.pc == Answering
    ensures s.quit.None? && s.p.pc == LoadWait && s.b == [] && s.a == [] && s.c.id == s.p.id && s.c.cnt == s.p.cnt
  {
    hide Recorded, Ready, AtomicRun, Saves, TableReply, Commands;
    if s.quit.Some? {
      ReadsBeforeStopping(s, s.quit.value);
    } else {
      HeldStart(s);
      assert SAVE[0] != LOAD[0];
      if s.c.cnt < s.p.cnt {
        CommandsHead(s.p.table, s.c.cnt, s.p.cnt, Open(s));
        assert false;
      }
      OpenStart(s);
      NoCommands(s.p.table, s.c.cnt);
      assert Unread(s) == [] + Open(s) == Open(s);
      SameId(s.c.id, s.a, s.p.id);
    }
  }

  lemma SameId(x: bytes, rest: bytes, y: bytes)
    requires |x| == |y| && LOAD + x + rest == LOAD + y
    ensures x == y && rest == []
  {
    assert |LOAD + x + rest| == |LOAD + y|;
    assert (LOAD + x + rest)[MOD_SIZE..] == x + rest;
    assert (LOAD + y)[MOD_SIZE..] == y;
  }

  lemma {:induction false} ChildAnswerKeeps(s: State, s': State)
    requires Inv(s) && ChildStep(s, s') && s.c.pc == Answering
    ensures Inv(s')
  {
    hide Recorded, Ready, AtomicRun, Saves, TableReply, Matches;
    AnswersTheOpenLoad(s);
    MatchesFrame(s.c.table, s.p.table, s.p.id, s.p.cnt);
    assert TableReply(s.c.table, s.c.id, s.c.cnt) == TableReply(s.p.table, s.p.id, s.p.cnt) != [] by {
      TableReplyNotEmpty(s.c.table, s.p.table, s.p.id, s.p.cnt);
    }
    assert [] + s'.b == s'.b;
  }

  lemma TableReplyNotEmpty(t: seq<Row>, u: seq<Row>, id: bytes, n: nat)
    requires n <= |t| && n <= |u| && Matches(t, id, n) == Matches(u, id, n)
    ensures TableReply(t, id, n) == TableReply(u, id, n) != []
  {
    hide Matches;
  }

  lemma {:induction false} StepKeeps(cap: nat, s: State, s': State)
    requires Inv(s) && Next(cap, s, s')
    ensures Inv(s')
  {
    hide Inv, Receive, ParentStep, ChildStep;
    if exists m :: Receive(s, s', m) {
      var m :| Receive(s, s', m);
      ReceiveKeeps(s, s', m);
    } else if ParentStep(cap, s, s') {
      match s.p.pc
      case Idle => ParentIdles(cap, s, s');
      case SaveMode => ModeOrIdKeeps(cap, s, s');
      case SaveCalc => ComputeKeeps(cap, s, s');
      case SaveRecord => RecordKeeps(cap, s, s');
      case LoadMode => ModeOrIdKeeps(cap, s, s');
      case LoadId => ModeOrIdKeeps(cap, s, s');
      case LoadWait => AnswerKeeps(cap, s, s');
      case QuitMode => QuitKeeps(cap, s, s');
    } else {
      match s.c.pc
      case AwaitMode => ChildModeKeeps(s, s');
      case AwaitRecord => ChildRecordKeeps(s, s');
      case AwaitId => ChildIdKeeps(s, s');
      case Answering => ChildAnswerKeeps(s, s');
      case Done => ChildStops(s, s');
    }
  }

  lemma ParentIdles(cap: nat, s: State, s': State)
    requires s.p.pc == Idle
    ensures !ParentStep(cap, s, s')
  {
  }

  lemma ChildStops(s: State, s': State)
    requires s.c.pc == Done
    ensures !ChildStep(s, s')
  {
  }

  lemma InitHolds(s: State)
    requires Init(s)
    ensures Inv(s)
  {
    assert Commands(s.p.table, 0, 0) == [];
    assert [] + s.a == [] + Open(s);
    assert s.c.table[..0] == s.p.table[..0];
  }

  /** Every state of every run satisfies the invariant. */
  lemma {:induction false} RunsKeep(cap: nat, ss: seq<State>, i: nat)
    requires Run(cap, ss) && i < |ss|
    ensures Inv(ss[i])
  {
    hide Inv, Next, Init;
    if i == 0 {
      InitHolds(ss[0]);
    } else {
      RunsKeep(cap, ss, i - 1);
      assert Next(cap, ss[i - 1], ss[i - 1 + 1]);
      StepKeeps(cap, ss[i - 1], ss[i]);
    }
  }
}
