/**
 The two-process store server (hw6_server.c). After `fork` the parent and the child keep separate
 copies of the record table; the parent writes commands into pipe A, the child answers loads on
 pipe B. Every system call is one step, and the steps of the two processes interleave freely.
 */
module Store {
  import opened Wrappers
  import opened CTypes
  import opened Frame
  import opened Line

  const MOD_SIZE: nat := 5
  const ID_SIZE: nat := 5
  const DATA_MAX: nat := 100
  const RECORD_SIZE: nat := ID_SIZE + REQ_SIZE

  const SAVE: bytes := [115, 97, 118, 101, 0]
  const LOAD: bytes := [108, 111, 97, 100, 0]
  const QUIT: bytes := [113, 117, 105, 116, 0]
  const NOT_EXIST: bytes := [78, 111, 116, 32, 101, 120, 105, 115, 116, 10]

  // The atomic store that the two processes together implement.

  /** What a client can observe: a save was done, a load was answered, the server was told to quit. */
  datatype Event = Saved(key: bytes, request: Request) | Loaded(key: bytes, reply: bytes) | Quitted

  type AtomicStore = map<bytes, seq<bytes>>

  function Lines(st: AtomicStore, key: bytes): seq<bytes> {
    if key in st then st[key] else []
  }

  /** `id: line` for every line, in order. */
  function Render(key: bytes, lines: seq<bytes>): bytes {
    if lines == [] then [] else Render(key, lines[..|lines| - 1]) + Entry(key, lines[|lines| - 1])
  }

  function Entry(key: bytes, line: bytes): (e: bytes)
    ensures e != []
  {
    key + [COLON, SPACE] + line
  }

  function AtomicReply(lines: seq<bytes>, key: bytes): bytes {
    if lines == [] then NOT_EXIST else Render(key, lines)
  }

  ghost predicate AtomicStep(st: AtomicStore, e: Event, st': AtomicStore) {
    match e
    case Saved(key, f) => WellFormed(f) && st' == st[key := Lines(st, key) + [SavedLine(f)]]
    case Loaded(key, reply) => st' == st && reply == AtomicReply(Lines(st, key), key)
    case Quitted => st' == st
  }

  function SavedLine(f: Request): bytes {
    if WellFormed(f) then LineOf(f) else []
  }

  /** The store after a log of events. */
  function After(log: seq<Event>): AtomicStore {
    if log == [] then map[]
    else
      var st := After(log[..|log| - 1]);
      match log[|log| - 1]
      case Saved(key, f) => st[key := Lines(st, key) + [SavedLine(f)]]
      case Loaded(_, _) => st
      case Quitted => st
  }

  /** `log` is a run of the atomic store: every event is a step from the store its predecessors left. */
  ghost predicate AtomicRun(log: seq<Event>) {
    forall i :: 0 <= i < |log| ==> AtomicStep(After(log[..i]), log[i], After(log[..i + 1]))
  }

  // The two address spaces.

  type Row = r: bytes | |r| == RECORD_SIZE witness seq(RECORD_SIZE, _ => NUL)

  function RowKey(r: Row): bytes {
    CStr(r[..ID_SIZE])
  }

  function RowLine(r: Row): bytes {
    CStr(r[ID_SIZE..])
  }

  /** The two `strcpy` calls that fill a record. */
  function FillRow(r: Row, id: bytes, line: bytes): (r': Row)
    requires |CStr(id)| < ID_SIZE && |CStr(line)| < REQ_SIZE
    ensures RowKey(r') == CStr(id) && RowLine(r') == CStr(line)
  {
    var k, l := StrCpy(r[..ID_SIZE], id), StrCpy(r[ID_SIZE..], line);
    assert (k + l)[..ID_SIZE] == k && (k + l)[ID_SIZE..] == l;
    k + l
  }

  datatype ParentPc = Idle | SaveMode | SaveCalc | SaveRecord | LoadMode | LoadId | LoadWait | QuitMode

  datatype Parent = Parent(pc: ParentPc, mode: bytes, id: bytes, result: bytes, first: int32, table: seq<Row>, cnt: nat)
  {
    predicate Valid() {
      |mode| == MOD_SIZE && |id| == ID_SIZE && |result| == BUF_SIZE && |table| == DATA_MAX && cnt <= DATA_MAX
    }

    /** The request that the save in progress evaluates. */
    function Request(): (f: Request)
      requires Valid()
      ensures WellFormed(f)
    {
      Asked(result, first)
    }
  }

  datatype ChildPc = AwaitMode | AwaitRecord | AwaitId | Answering | Done

  datatype Child = Child(pc: ChildPc, mode: bytes, id: bytes, table: seq<Row>, cnt: nat)
  {
    predicate Valid() {
      |mode| == MOD_SIZE && |id| == ID_SIZE && |table| == DATA_MAX && cnt <= DATA_MAX
    }
  }

  /** `quit` records how many saves had been written when the first quit was. */
  datatype State = State(p: Parent, c: Child, a: bytes, b: bytes, log: seq<Event>, quit: Option<nat>)

  function Taken(pipe: bytes, n: nat): (r: bytes)
    ensures |r| == Min(n, |pipe|)
  {
    pipe[..Min(n, |pipe|)]
  }

  function Left(pipe: bytes, n: nat): (r: bytes)
    ensures |r| == |pipe| - Min(n, |pipe|)
  {
    pipe[Min(n, |pipe|)..]
  }

  /** The concatenation a scan of the first `n` records produces. */
  function Matches(table: seq<Row>, id: bytes, n: nat): bytes
    requires n <= |table|
  {
    if n == 0 then []
    else Matches(table, id, n - 1)
         + (if CStr(id) == RowKey(table[n - 1]) then Entry(RowKey(table[n - 1]), RowLine(table[n - 1])) else [])
  }

  function TableReply(table: seq<Row>, id: bytes, n: nat): bytes
    requires n <= |table|
  {
    if Matches(table, id, n) == [] then NOT_EXIST else Matches(table, id, n)
  }

  // Steps of the parent.

  /** `readv` scatters the message over mode, id and result; the rest of each keeps its bytes. */
  function Scatter(p: Parent, m: bytes): (p': Parent)
    requires p.Valid() && |m| <= MOD_SIZE + ID_SIZE + BUF_SIZE
    ensures p'.Valid()
  {
    var i, j := Min(MOD_SIZE, |m|), Min(MOD_SIZE + ID_SIZE, |m|);
    p.(mode := Overwrite(p.mode, 0, m[..i]),
       id := Overwrite(p.id, 0, m[i..j]),
       result := Overwrite(p.result, 0, m[j..]))
  }

  function Dispatch(p: Parent): Parent {
    p.(pc := if p.mode == SAVE then SaveMode else if p.mode == LOAD then LoadMode
             else if p.mode == QUIT then QuitMode else Idle)
  }

  /** The fixed buffers are large enough for the request that was just received. */
  predicate Fits(p: Parent)
    requires p.Valid()
  {
    (p.pc == SaveMode ==> Terminated(p.id) && p.cnt < DATA_MAX && |LineOf(p.Request())| < REQ_SIZE)
    && (p.pc == LoadMode ==> Terminated(p.id) && |Matches(p.table, p.id, p.cnt)| < BUF_SIZE)
  }

  /** A client's message is read and dispatched. */
  predicate Receive(s: State, s': State, m: bytes) {
    s.p.Valid() && s.p.pc == Idle && 1 <= |m| <= MOD_SIZE + ID_SIZE + BUF_SIZE
    && var p := Dispatch(Scatter(s.p, m));
    Fits(p) && s' == s.(p := p)
  }

  /** A write into pipe A waits until the whole block has room. */
  predicate HasRoom(cap: nat, pipe: bytes, block: bytes) {
    |pipe| + |block| <= cap
  }

  /** The calculator, the reply to the client and the two `strcpy` calls. */
  function Compute(p: Parent): (p': Parent)
    requires p.Valid() && p.cnt < DATA_MAX && Terminated(p.id) && |LineOf(p.Request())| < REQ_SIZE
    ensures p'.Valid()
  {
    var f := p.Request();
    p.(pc := SaveRecord, first := f.operands[0],
       table := p.table[p.cnt := FillRow(p.table[p.cnt], p.id, LineOf(f))])
  }

  predicate ParentStep(cap: nat, s: State, s': State) {
    var p := s.p;
    p.Valid() &&
    match p.pc
    case Idle => false
    case SaveMode => HasRoom(cap, s.a, p.mode) && s' == s.(p := p.(pc := SaveCalc), a := s.a + p.mode)
    case SaveCalc =>
      p.cnt < DATA_MAX && Terminated(p.id) && |LineOf(p.Request())| < REQ_SIZE && s' == s.(p := Compute(p))
    case SaveRecord =>
      p.cnt < DATA_MAX && HasRoom(cap, s.a, p.table[p.cnt])
      && s' == s.(p := p.(pc := Idle, cnt := p.cnt + 1), a := s.a + p.table[p.cnt],
                  log := s.log + [Saved(CStr(p.id), p.Request())])
    case LoadMode => HasRoom(cap, s.a, p.mode) && s' == s.(p := p.(pc := LoadId), a := s.a + p.mode)
    case LoadId => HasRoom(cap, s.a, p.id) && s' == s.(p := p.(pc := LoadWait), a := s.a + p.id)
    case LoadWait =>
      s.b != []
      && s' == s.(p := p.(pc := Idle), b := Left(s.b, BUF_SIZE),
                  log := s.log + [Loaded(CStr(p.id), Taken(s.b, BUF_SIZE))])
    case QuitMode =>
      HasRoom(cap, s.a, p.mode)
      && s' == s.(p := p.(pc := Idle), a := s.a + p.mode, log := s.log + [Quitted],
                  quit := if s.quit.None? then Some(p.cnt) else s.quit)
  }

  // Steps of the child.

  function AfterMode(c: Child): Child {
    c.(pc := if c.mode == SAVE then AwaitRecord else if c.mode == LOAD then AwaitId
             else if c.mode == QUIT then Done else AwaitMode)
  }

  predicate ChildStep(s: State, s': State) {
    var c := s.c;
    c.Valid() &&
    match c.pc
    case AwaitMode =>
      s.a != [] && s' == s.(c := AfterMode(c.(mode := Overwrite(c.mode, 0, Taken(s.a, MOD_SIZE)))), a := Left(s.a, MOD_SIZE))
    case AwaitRecord =>
      s.a != [] && c.cnt < DATA_MAX
      && s' == s.(c := c.(pc := AwaitMode, cnt := c.cnt + 1,
                          table := c.table[c.cnt := Overwrite(c.table[c.cnt], 0, Taken(s.a, RECORD_SIZE))]),
                  a := Left(s.a, RECORD_SIZE))
    case AwaitId =>
      s.a != [] && s' == s.(c := c.(pc := Answering, id := Overwrite(c.id, 0, Taken(s.a, ID_SIZE))), a := Left(s.a, ID_SIZE))
    case Answering => s' == s.(c := c.(pc := AwaitMode), b := s.b + TableReply(c.table, c.id, c.cnt))
    case Done => false
  }

  predicate Init(s: State) {
    s.p.Valid() && s.c.Valid() && s.p.pc == Idle && s.c.pc == AwaitMode && s.p.cnt == s.c.cnt == 0
    && s.a == s.b == [] && s.log == [] && s.quit == None
  }

  ghost predicate Next(cap: nat, s: State, s': State) {
    (exists m :: Receive(s, s', m)) || ParentStep(cap, s, s') || ChildStep(s, s')
  }

  ghost predicate Run(cap: nat, ss: seq<State>) {
    ss != [] && Init(ss[0]) && forall i :: 0 <= i < |ss| - 1 ==> Next(cap, ss[i], ss[i + 1])
  }
}
