/** The code of the two processes between their system calls, each piece proved to be a step of the protocol. */
module StoreProcesses {
  import opened CTypes
  import opened Frame
  import opened Calculator
  import opened Line
  import opened Store

  class Pipe {
    var data: bytes

    constructor ()
      ensures data == []
    {
      data := [];
    }

    method Write(block: bytes)
      modifies this
      ensures data == old(data) + block
    {
      data := data + block;
    }

    method Read(n: nat) returns (block: bytes)
      requires data != []
      modifies this
      ensures block == Taken(old(data), n) && data == Left(old(data), n)
    {
      block := Taken(data, n);
      data := Left(data, n);
    }
  }

  /** A block copied into a buffer. */
  method Fill(buf: array<byte>, block: bytes)
    requires |block| <= buf.Length
    modifies buf
    ensures buf[..] == Overwrite(old(buf[..]), 0, block)
  {
    for i := 0 to |block|
      invariant buf[..] == Overwrite(old(buf[..]), 0, block[..i])
    {
      buf[i] := block[i];
      assert buf[..] == Overwrite(old(buf[..]), 0, block[..i + 1]);
    }
    assert block[..|block|] == block;
  }

  class ChildProcess {
    const mode: array<byte>
    const id: array<byte>
    const result: array<byte>
    const loadBuf: array<byte>
    const dataArray: array<Row>
    var cnt: nat

    ghost predicate Valid()
      reads this
    {
      mode.Length == MOD_SIZE && id.Length == ID_SIZE && result.Length == loadBuf.Length == BUF_SIZE
      && dataArray.Length == DATA_MAX && cnt <= DATA_MAX
      && mode != id && mode != result && mode != loadBuf && id != result && id != loadBuf && result != loadBuf
    }

    ghost function Memory(pc: ChildPc): Child
      reads this, mode, id, dataArray
    {
      Child(pc, mode[..], id[..], dataArray[..], cnt)
    }

    constructor ()
      ensures Valid() && cnt == 0 && fresh(mode) && fresh(id) && fresh(result) && fresh(loadBuf) && fresh(dataArray)
    {
      mode := new byte[MOD_SIZE](_ => NUL);
      id := new byte[ID_SIZE](_ => NUL);
      result := new byte[BUF_SIZE](_ => NUL);
      loadBuf := new byte[BUF_SIZE](_ => NUL);
      dataArray := new Row[DATA_MAX](_ => seq(RECORD_SIZE, _ => NUL));
      cnt := 0;
    }

    /** The first read of the loop and the choice it leads to. */
    method ReadMode(pipe: Pipe) returns (pc: ChildPc)
      requires Valid() && pipe.data != []
      modifies mode, pipe
      ensures Valid()
      ensures forall s: State, s': State |
        s.c == old(Memory(AwaitMode)) && s.a == old(pipe.data) && s' == s.(c := Memory(pc), a := pipe.data) ::
        ChildStep(s, s')
    {
      hide Overwrite, Taken, Left;
      var block := pipe.Read(MOD_SIZE);
      Fill(mode, block);
      pc := if mode[..] == SAVE then AwaitRecord else if mode[..] == LOAD then AwaitId
            else if mode[..] == QUIT then Done else AwaitMode;
    }

    method ReadRecord(pipe: Pipe)
      requires Valid() && pipe.data != [] && cnt < DATA_MAX
      modifies this, dataArray, pipe
      ensures Valid()
      ensures forall s: State, s': State |
        s.c == old(Memory(AwaitRecord)) && s.a == old(pipe.data) && s' == s.(c := Memory(AwaitMode), a := pipe.data) ::
        ChildStep(s, s')
    {
      hide Overwrite, Taken, Left;
      var block := pipe.Read(RECORD_SIZE);
      dataArray[cnt] := Overwrite(dataArray[cnt], 0, block);
      cnt := cnt + 1;
    }

    method ReadId(pipe: Pipe)
      requires Valid() && pipe.data != []
      modifies id, pipe
      ensures Valid()
      ensures forall s: State, s': State |
        s.c == old(Memory(AwaitId)) && s.a == old(pipe.data) && s' == s.(c := Memory(Answering), a := pipe.data) ::
        ChildStep(s, s')
    {
      hide Overwrite, Taken, Left;
      var block := pipe.Read(ID_SIZE);
      Fill(id, block);
    }

    /** The scan of the table and the write of what it found. */
    method Answer(pipe: Pipe)
      requires Valid() && |Matches(dataArray[..], id[..], cnt)| < BUF_SIZE
      modifies result, loadBuf, pipe
      ensures Valid()
      ensures forall s: State, s': State |
        s.c == old(Memory(Answering)) && s.b == old(pipe.data) && s' == s.(c := Memory(AwaitMode), b := pipe.data) ::
        ChildStep(s, s')
    {
      hide CStr, Matches, Overwrite;
      ghost var table := dataArray[..];
      ghost var key := id[..];
      forall k | 0 <= k < result.Length {
        result[k] := NUL;
      }
      CStrIs(result[..], 0);
      NoMatches(table, key);
      for i := 0 to cnt
        invariant dataArray[..] == table && id[..] == key && pipe.data == old(pipe.data)
        invariant CStr(result[..]) == Matches(table, key, i)
      {
        if CStr(id[..]) == RowKey(dataArray[i]) {
          Append(RowKey(dataArray[i]), RowLine(dataArray[i]), table, key, i);
        } else {
          MatchesStep(table, key, i);
        }
      }
      if CStr(result[..]) != [] {
        pipe.Write(CStr(result[..]));
      } else {
        pipe.Write(NOT_EXIST);
      }
    }

    /** `sprintf` into `loadBuf`, then `strcat` onto `result`. */
    method Append(key: bytes, line: bytes, ghost table: seq<Row>, ghost wanted: bytes, ghost i: nat)
      requires Valid() && i < cnt <= |table| && key == RowKey(table[i]) == CStr(wanted) && line == RowLine(table[i])
      requires CStr(result[..]) == Matches(table, wanted, i) && |Matches(table, wanted, cnt)| < BUF_SIZE
      modifies result, loadBuf
      ensures CStr(result[..]) == Matches(table, wanted, i + 1)
    {
      hide CStr, Matches, Overwrite, RowKey, RowLine;
      MatchesStep(table, wanted, i);
      MatchesGrow(table, wanted, i + 1, cnt);
      var text := Entry(key, line);
      EntryIsACString(table[i]);
      assert |text| <= |Matches(table, wanted, i + 1)|;
      CStrSprintf(loadBuf[..], text);
      Sprintf(loadBuf, 0, text);
      assert CStr(loadBuf[..]) == text;
      SprintfAppends(result[..], text);
      CStrWhole(text);
      Sprintf(result, |CStr(result[..])|, CStr(loadBuf[..]));
    }
  }

  lemma NoMatches(table: seq<Row>, id: bytes)
    ensures Matches(table, id, 0) == []
  {
  }

  lemma MatchesStep(table: seq<Row>, id: bytes, n: nat)
    requires n < |table|
    ensures Matches(table, id, n + 1) == Matches(table, id, n)
      + (if CStr(id) == RowKey(table[n]) then Entry(RowKey(table[n]), RowLine(table[n])) else [])
    ensures CStr(id) != RowKey(table[n]) ==> Matches(table, id, n + 1) == Matches(table, id, n)
  {
    hide CStr, RowKey, RowLine, Entry;
    assert Matches(table, id, n) + [] == Matches(table, id, n);
  }

  lemma {:induction false} MatchesGrow(table: seq<Row>, id: bytes, n: nat, m: nat)
    requires n <= m <= |table|
    ensures |Matches(table, id, n)| <= |Matches(table, id, m)|
  {
    hide CStr, RowKey, RowLine, Entry;
    if n < m {
      MatchesGrow(table, id, n, m - 1);
    }
  }

  lemma EntryIsACString(r: Row)
    ensures NUL !in Entry(RowKey(r), RowLine(r))
  {
    hide CStr;
  }

  lemma CStrWhole(s: bytes)
    requires NUL !in s
    ensures CStr(s + [NUL]) == s
  {
    hide CStr;
    assert (s + [NUL])[..|s|] == s;
    CStrIs(s + [NUL], |s|);
  }

  /** `sprintf` at the start of a buffer leaves exactly the text. */
  lemma CStrSprintf(b: bytes, text: bytes)
    requires |text| < |b| && NUL !in text
    ensures CStr(Overwrite(b, 0, text + [NUL])) == text
  {
    hide CStr;
    var r := Overwrite(b, 0, text + [NUL]);
    assert r[..|text|] == text && r[|text|] == NUL;
    CStrIs(r, |text|);
  }

  lemma ComputeIsAStep(p: Parent, p': Parent)
    requires p.Valid() && p.pc == SaveCalc && p.cnt < DATA_MAX && Terminated(p.id) && |LineOf(p.Request())| < REQ_SIZE
    requires p' == Compute(p)
    ensures forall cap, s: State, s': State | s.p == p && s' == s.(p := p') :: ParentStep(cap, s, s')
  {
    hide LineOf, CStr, FillRow;
  }

  class ParentProcess {
    const mode: array<byte>
    const id: array<byte>
    const result: array<byte>
    const dataArray: array<Row>
    const work: Workspace
    var cnt: nat

    ghost predicate Valid()
      reads this
    {
      mode.Length == MOD_SIZE && id.Length == ID_SIZE && result.Length == BUF_SIZE
      && dataArray.Length == DATA_MAX && cnt <= DATA_MAX && work.Valid()
      && mode != id && mode != result && id != result
      && work.buf != mode && work.buf != id && work.buf != result
      && work.operator != mode && work.operator != id && work.operator != result
    }

    ghost function Memory(pc: ParentPc): Parent
      requires Valid()
      reads this, mode, id, result, dataArray, work.operand
    {
      Parent(pc, mode[..], id[..], result[..], work.operand[0], dataArray[..], cnt)
    }

    constructor ()
      ensures Valid() && cnt == 0 && fresh(mode) && fresh(id) && fresh(result) && fresh(dataArray) && fresh(work)
    {
      mode := new byte[MOD_SIZE](_ => NUL);
      id := new byte[ID_SIZE](_ => NUL);
      result := new byte[BUF_SIZE](_ => NUL);
      dataArray := new Row[DATA_MAX](_ => seq(RECORD_SIZE, _ => NUL));
      work := new Workspace();
      cnt := 0;
    }

    /** `readv` into mode, id and result, then the comparisons that open `mode_check`. */
    method Receive(m: bytes) returns (pc: ParentPc)
      requires Valid() && 1 <= |m| <= MOD_SIZE + ID_SIZE + BUF_SIZE
      modifies mode, id, result
      ensures Valid() && Memory(pc) == Dispatch(Scatter(old(Memory(Idle)), m))
    {
      hide Overwrite;
      var i, j := Min(MOD_SIZE, |m|), Min(MOD_SIZE + ID_SIZE, |m|);
      Fill(mode, m[..i]);
      Fill(id, m[i..j]);
      Fill(result, m[j..]);
      pc := if mode[..] == SAVE then SaveMode else if mode[..] == LOAD then LoadMode
            else if mode[..] == QUIT then QuitMode else Idle;
    }

    /** The calculator, the result for the client, the rest of the line and the two `strcpy` calls. */
    method ComputeRecord() returns (opResult: int32)
      requires Valid() && cnt < DATA_MAX && Terminated(id[..])
      requires |LineOf(Asked(result[..], work.operand[0]))| < REQ_SIZE
      modifies work, work.operand, work.operator, work.buf, dataArray
      ensures Valid()
      ensures opResult == Evaluate(Asked(result[..], old(work.operand[0])))
      ensures forall cap, s: State, s': State | s.p == old(Memory(SaveCalc)) && s' == s.(p := Memory(SaveRecord)) ::
        ParentStep(cap, s, s')
    {
      hide Expression, CStr, Overwrite, Asked, Evaluate, ParentStep;
      ghost var f := Asked(result[..], work.operand[0]);
      ghost var before := Memory(SaveCalc);
      assert |Expression(f)| < |LineOf(f)|;
      work.Calculate(result);
      opResult := work.opResult;
      FinishLine(f);
      LineIsACString(f);
      dataArray[cnt] := FillRow(dataArray[cnt], id[..], CStr(work.buf[..]));
      assert dataArray[..] == before.table[cnt := dataArray[cnt]];
      ComputeIsAStep(before, Memory(SaveRecord));
    }

    /** `sprintf(buf + strlen(buf), "=%d\n", opResult)`. */
    method FinishLine(ghost f: Request)
      requires Valid() && WellFormed(f) && |LineOf(f)| < REQ_SIZE
      requires CStr(work.buf[..]) == Expression(f) && work.opResult == Evaluate(f)
      modifies work.buf
      ensures CStr(work.buf[..]) == LineOf(f)
    {
      hide Expression, CStr, Overwrite, Evaluate, Dec;
      var text := [EQUALS] + Dec(work.opResult as int) + [NEWLINE];
      DecBytes(work.opResult as int);
      SprintfAppends(work.buf[..], text);
      CStrWhole(text);
      assert Expression(f) + text == LineOf(f);
      Sprintf(work.buf, |CStr(work.buf[..])|, text);
    }
  }
}
