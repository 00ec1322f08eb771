/** What a load's reply spells, record by record, and how it reads back. */
module StoreReplies {
  import opened Wrappers
  import opened CTypes
  import opened Frame
  import opened Line
  import opened TextLines
  import opened Store
  import opened StoreSafety
  import opened StoreTheorems

  /** What stands on the wire and in the memory of both processes. */
  lemma StoreWords()
    ensures SAVE == Ascii("save") + [0] && LOAD == Ascii("load") + [0] && QUIT == Ascii("quit") + [0]
    ensures NOT_EXIST == Ascii("Not exist\n")
    ensures MOD_SIZE == 5 && ID_SIZE == 5 && REQ_SIZE == 100 && RECORD_SIZE == 105 && DATA_MAX == 100 && BUF_SIZE == 1024
  {
  }

  /** The text of one record in a reply. */
  lemma {:induction false} RenderIsConcat(key: bytes, lines: seq<bytes>) returns (texts: seq<bytes>)
    ensures |texts| == |lines| && Render(key, lines) == Concat(texts)
    ensures forall i :: 0 <= i < |lines| ==> texts[i] == key + [':' as int as byte, ' ' as int as byte] + lines[i]
  {
    if lines == [] {
      texts := [];
    } else {
      var n := |lines| - 1;
      texts := RenderIsConcat(key, lines[..n]);
      ConcatAppend(texts, Entry(key, lines[n]));
      texts := texts + [Entry(key, lines[n])];
    }
  }

  /** The atomic store's answer, spelled out. */
  lemma {:induction false} AtomicReplySpelled(lines: seq<bytes>, key: bytes) returns (texts: seq<bytes>)
    ensures |texts| == |lines|
    ensures forall i :: 0 <= i < |lines| ==> texts[i] == key + [':' as int as byte, ' ' as int as byte] + lines[i]
    ensures AtomicReply(lines, key) == if |lines| == 0 then Ascii("Not exist\n") else Concat(texts)
  {
    hide Render;
    texts := RenderIsConcat(key, lines);
    StoreWords();
  }

  /** What the atomic store holds for a key: the lines of the saves with that key, in order. */
  lemma {:induction false} StoreHoldsTheSaves(log: seq<Event>, key: bytes) returns (hits: seq<nat>)
    ensures |Lines(After(log), key)| == |hits|
    ensures forall i :: 0 <= i < |hits| ==>
      hits[i] < |log| && log[hits[i]].Saved? && log[hits[i]].key == key
      && (WellFormed(log[hits[i]].request) ==> Lines(After(log), key)[i] == LineOf(log[hits[i]].request))
    ensures forall i, j :: 0 <= i < j < |hits| ==> hits[i] < hits[j]
    ensures forall j :: 0 <= j < |log| && log[j].Saved? && log[j].key == key ==> j in hits
  {
    hide LineOf;
    if log == [] {
      hits := [];
    } else {
      var n := |log| - 1;
      hits := StoreHoldsTheSaves(log[..n], key);
      assert forall j :: 0 <= j < n ==> log[..n][j] == log[j];
      if log[n].Saved? && log[n].key == key {
        hits := hits + [n];
      }
    }
  }

  /**
   In every run, the reply to a load is `id: line` for each earlier save with that id, in order and
   with nothing else, where `line` is what the server prints for the request saved; without such a
   save it is `Not exist`.
   */
  lemma {:induction false} RepliesSpellEarlierSaves(cap: nat, ss: seq<State>, i: nat, k: nat)
    returns (hits: seq<nat>, texts: seq<bytes>)
    requires Run(cap, ss) && i < |ss| && k < |ss[i].log| && ss[i].log[k].Loaded?
    ensures var log, key := ss[i].log, ss[i].log[k].key;
      (forall j: nat :: j in hits <==> j < k && log[j].Saved? && log[j].key == key)
      && (forall x, y :: 0 <= x < y < |hits| ==> hits[x] < hits[y])
      && |texts| == |hits|
      && (forall x :: 0 <= x < |hits| ==>
            hits[x] < k && log[hits[x]].Saved? && WellFormed(log[hits[x]].request)
            && texts[x] == key + [':' as int as byte, ' ' as int as byte] + LineOf(log[hits[x]].request))
    ensures ss[i].log[k].reply == if |hits| == 0 then Ascii("Not exist\n") else Concat(texts)
  {
    hide Next, Run, After, LineOf, AtomicReply, Concat;
    var log, key := ss[i].log, ss[i].log[k].key;
    RunsRefineTheAtomicStore(cap, ss, i);
    assert AtomicStep(After(log[..k]), log[k], After(log[..k + 1]));
    var lines := Lines(After(log[..k]), key);
    hits := StoreHoldsTheSaves(log[..k], key);
    texts := AtomicReplySpelled(lines, key);
    forall x | 0 <= x < |hits|
      ensures hits[x] < k && log[hits[x]].Saved? && WellFormed(log[hits[x]].request) && lines[x] == LineOf(log[hits[x]].request)
    {
      var j := hits[x];
      assert log[..k][j] == log[j];
      assert AtomicStep(After(log[..j]), log[j], After(log[..j + 1]));
    }
    forall j: nat ensures j in hits <==> j < k && log[j].Saved? && log[j].key == key {
      if j < k {
        assert log[..k][j] == log[j];
      }
    }
  }

  /** Split at its newlines, a reply is one line `id: line` per earlier save, if no newline is in the id or an operator. */
  lemma {:induction false} RepliesReadBack(cap: nat, ss: seq<State>, i: nat, k: nat)
    returns (hits: seq<nat>)
    requires Run(cap, ss) && i < |ss| && k < |ss[i].log| && ss[i].log[k].Loaded?
    requires NEWLINE !in ss[i].log[k].key
    requires forall j | 0 <= j < k && ss[i].log[j].Saved? :: NEWLINE !in ss[i].log[j].request.operators
    ensures var log, key := ss[i].log, ss[i].log[k].key;
      (forall j: nat :: j in hits <==> j < k && log[j].Saved? && log[j].key == key)
      && (forall x, y :: 0 <= x < y < |hits| ==> hits[x] < hits[y])
      && (|hits| > 0 ==> |Split(log[k].reply)| == |hits| && Unfinished(log[k].reply) == [])
      && (|hits| > 0 ==> forall x :: 0 <= x < |hits| ==>
            hits[x] < k && log[hits[x]].Saved? && WellFormed(log[hits[x]].request)
            && Split(log[k].reply)[x] == key + [':' as int as byte, ' ' as int as byte] + LineOf(log[hits[x]].request))
  {
    hide Run, LineOf, Split, Unfinished, Concat, IsLine;
    var log, key := ss[i].log, ss[i].log[k].key;
    var texts: seq<bytes>;
    hits, texts := RepliesSpellEarlierSaves(cap, ss, i, k);
    forall x | 0 <= x < |texts| ensures IsLine(texts[x]) {
      EntryIsALine(key, log[hits[x]].request);
    }
    if |hits| > 0 {
      PrefixSplits(texts, Concat(texts));
    }
  }

  lemma EntryIsALine(key: bytes, f: Request)
    requires WellFormed(f) && NEWLINE !in key && NEWLINE !in f.operators
    ensures IsLine(key + [58, 32] + LineOf(f))
  {
    hide LineOf;
    LineIsACString(f);
    var line := LineOf(f);
    var l := key + [58, 32] + line;
    assert l[..|l| - 1] == key + [58, 32] + line[..|line| - 1];
  }

  /** The saves of a log are its save events, in order. */
  lemma {:induction false} SavesAreTheSaveEvents(log: seq<Event>) returns (hits: seq<nat>)
    ensures |hits| == |Saves(log)|
    ensures forall i :: 0 <= i < |hits| ==>
      hits[i] < |log| && log[hits[i]].Saved? && Saves(log)[i] == (log[hits[i]].key, log[hits[i]].request)
    ensures forall i, j :: 0 <= i < j < |hits| ==> hits[i] < hits[j]
    ensures forall j :: 0 <= j < |log| && log[j].Saved? ==> j in hits
  {
    hide Saves;
    if log == [] {
      hits := [];
      assert Saves([]) == [] by {
        NoSaves();
      }
    } else {
      var n := |log| - 1;
      hits := SavesAreTheSaveEvents(log[..n]);
      assert log == log[..n] + [log[n]];
      LogGrows(log[..n], log[n]);
      assert forall j :: 0 <= j < n ==> log[..n][j] == log[j];
      if log[n].Saved? {
        hits := hits + [n];
      }
    }
  }

  lemma NoSaves()
    ensures Saves([]) == []
  {
  }

  // The steps, from outside.

  /** A server starts with empty tables and pipes, whatever its buffers hold. */
  lemma ServerStarts(cap: nat, s: State)
    requires |s.p.mode| == |s.p.id| == |s.c.mode| == |s.c.id| == 5 && |s.p.result| == 1024 && |s.p.table| == |s.c.table| == 100
    requires s.p.pc == Idle && s.c.pc == AwaitMode && s.p.cnt == 0 && s.c.cnt == 0
    requires |s.a| == 0 && |s.b| == 0 && |s.log| == 0 && s.quit.None?
    ensures Run(cap, [s])
  {
  }

  /** A write never puts more into pipe A than it holds. */
  lemma {:induction false} PipeStaysWithinCapacity(cap: nat, ss: seq<State>, i: nat)
    requires Run(cap, ss) && i < |ss|
    ensures |ss[i].a| <= cap
  {
    hide Run, Init;
    if i == 0 {
      assert Init(ss[0]) by {
        StartOfRun(cap, ss);
      }
      assert |ss[0].a| == 0 by {
        StartIsEmpty(ss[0]);
      }
    } else {
      hide Next;
      PipeStaysWithinCapacity(cap, ss, i - 1);
      RunSteps(cap, ss, i - 1);
      StepStaysWithinCapacity(cap, ss[i - 1], ss[i]);
    }
  }

  lemma StartOfRun(cap: nat, ss: seq<State>)
    requires Run(cap, ss)
    ensures Init(ss[0])
  {
    hide Init, Next;
  }

  lemma StartIsEmpty(s: State)
    requires Init(s)
    ensures s.a == []
  {
  }

  lemma StepStaysWithinCapacity(cap: nat, s: State, s': State)
    requires Next(cap, s, s') && |s.a| <= cap
    ensures |s'.a| <= cap
  {
    hide Scatter, Dispatch, Fits, Compute, AfterMode, Overwrite, Asked, LineOf, TableReply, CStr;
  }

  /**
   Outside the client's message, the parent's own memory changes only by the calculator's first operand
   and the next record; its steps leave mode, id, data and earlier records alone.
   */
  lemma ParentKeepsItsMemory(cap: nat, s: State, s': State)
    requires ParentStep(cap, s, s')
    ensures s'.p == s.p.(pc := s'.p.pc, first := s'.p.first, table := s'.p.table, cnt := s'.p.cnt) && s'.c == s.c
    ensures |s'.p.table| == |s.p.table| && forall k :: 0 <= k < |s.p.table| && k != s.p.cnt ==> s'.p.table[k] == s.p.table[k]
    ensures s.p.pc != SaveCalc ==> s'.p.table == s.p.table && s'.p.first == s.p.first
    ensures s.p.pc == SaveCalc ==> WellFormed(s.p.Request()) && s'.p.first == s.p.Request().operands[0]
  {
    hide Overwrite, Asked, LineOf, TableReply, CStr, Taken, Left, FillRow;
  }

  /** A free parent receives any message that its buffers fit. */
  lemma AnyMessageIsReceived(s: State, m: bytes)
    requires s.p.Valid() && s.p.pc == Idle && 1 <= |m| <= 1034
    requires var p := Dispatch(Scatter(s.p, m));
      (p.pc == SaveMode ==> NUL in p.id && p.cnt < 100 && |LineOf(p.Request())| < 100)
      && (p.pc == LoadMode ==> NUL in p.id && |Matches(p.table, p.id, p.cnt)| < 1024)
    ensures Receive(s, s.(p := Dispatch(Scatter(s.p, m))), m)
  {
    hide Scatter, LineOf, Matches, CStr;
    var id := Dispatch(Scatter(s.p, m)).id;
    assert NUL in id ==> CStr(id) != id;
  }

  /** The two copies into a record, each of which leaves what it does not reach. */
  lemma RecordIsFilled(r: Row, id: bytes, line: bytes)
    requires |CStr(id)| < 5 && |CStr(line)| < 100
    ensures FillRow(r, id, line)[..5] == StrCpy(r[..5], id) && FillRow(r, id, line)[5..] == StrCpy(r[5..], line)
  {
    hide StrCpy, CStr;
  }
}
