/** Texts made of lines: joining them, and splitting a text at its newlines. */
module TextLines {
  import opened CTypes

  function Concat(lines: seq<bytes>): bytes {
    if lines == [] then [] else Concat(lines[..|lines| - 1]) + lines[|lines| - 1]
  }

  lemma {:induction false} ConcatAppend(lines: seq<bytes>, l: bytes)
    ensures Concat([]) == [] && Concat(lines + [l]) == Concat(lines) + l
  {
    assert (lines + [l])[..|lines|] == lines;
  }

  /** A line ends at its only newline. */
  predicate IsLine(l: bytes) {
    l != [] && l[|l| - 1] == NEWLINE && NEWLINE !in l[..|l| - 1]
  }

  /** The complete lines of a file. */
  function Split(s: bytes): seq<bytes> {
    if s == [] then [] else SplitOn(Split(s[..|s| - 1]), Unfinished(s[..|s| - 1]), s[|s| - 1])
  }

  function SplitOn(lines: seq<bytes>, l: bytes, c: byte): seq<bytes> {
    if c == NEWLINE then lines + [l + [c]] else lines
  }

  /** What follows the last newline. */
  function Unfinished(s: bytes): bytes {
    if s == [] || s[|s| - 1] == NEWLINE then [] else Unfinished(s[..|s| - 1]) + [s[|s| - 1]]
  }

  /** Bytes without a newline extend the unfinished line only. */
  lemma {:induction false} SplitExtends(s: bytes, l: bytes)
    requires NEWLINE !in l
    ensures Split(s + l) == Split(s) && Unfinished(s + l) == Unfinished(s) + l
  {
    if l == [] {
      assert s + l == s;
    } else {
      var front := l[..|l| - 1];
      assert (s + l)[..|s + l| - 1] == s + front;
      SplitExtends(s, front);
    }
  }

  /** Any prefix of a sequence of lines splits into the first of them, and a start of the next. */
  lemma {:induction false} PrefixSplits(lines: seq<bytes>, s: bytes)
    requires (forall j :: 0 <= j < |lines| ==> IsLine(lines[j])) && s <= Concat(lines)
    ensures Split(s) <= lines
    ensures s == Concat(lines) ==> Split(s) == lines && Unfinished(s) == []
    ensures s != Concat(lines) ==> |Split(s)| < |lines| && Unfinished(s) < lines[|Split(s)|]
  {
    if lines != [] {
      var n := |lines| - 1;
      var init, l := Concat(lines[..n]), lines[n];
      if s <= init {
        PrefixSplits(lines[..n], s);
        if s == init {
          assert Split(s) == lines[..n];
        }
      } else {
        PrefixSplits(lines[..n], init);
        LastLineSplits(init, l, s);
        assert lines[..n] + [l] == lines;
      }
    }
  }

  lemma {:induction false} LastLineSplits(init: bytes, l: bytes, s: bytes)
    requires IsLine(l) && init < s <= init + l && Unfinished(init) == []
    ensures s == init + l ==> Split(s) == Split(init) + [l] && Unfinished(s) == []
    ensures s != init + l ==> Split(s) == Split(init) && Unfinished(s) < l
  {
    hide Split, Unfinished;
    var front := l[..|l| - 1];
    if s == init + l {
      WholeLineSplits(init, front);
      assert l == front + [NEWLINE];
    } else {
      var tail := s[|init|..];
      assert s == init + tail && tail == front[..|tail|];
      SplitExtends(init, tail);
      assert [] + tail == tail;
    }
  }

  lemma WholeLineSplits(init: bytes, front: bytes)
    requires NEWLINE !in front && Unfinished(init) == []
    ensures var s := init + (front + [NEWLINE]);
      Split(s) == Split(init) + [front + [NEWLINE]] && Unfinished(s) == []
  {
    hide Split, Unfinished;
    SplitExtends(init, front);
    NewlineEndsLine(init + front);
    assert [] + front == front;
    assert init + (front + [NEWLINE]) == init + front + [NEWLINE];
  }

  lemma NewlineEndsLine(s: bytes)
    ensures Split(s + [NEWLINE]) == Split(s) + [Unfinished(s) + [NEWLINE]] && Unfinished(s + [NEWLINE]) == []
  {
    assert (s + [NEWLINE])[..|s|] == s;
  }

  function Newlines(s: bytes): nat {
    if s == [] then 0 else Newlines(s[..|s| - 1]) + if s[|s| - 1] == NEWLINE then 1 else 0
  }

  lemma {:induction false} SplitCountsNewlines(s: bytes)
    ensures |Split(s)| == Newlines(s)
  {
    if s != [] {
      SplitCountsNewlines(s[..|s| - 1]);
    }
  }

  lemma {:induction false} NewlinesAdd(s: bytes, t: bytes)
    ensures Newlines(s + t) == Newlines(s) + Newlines(t)
  {
    if t == [] {
      assert s + t == s;
    } else {
      NewlinesAdd(s, t[..|t| - 1]);
      assert (s + t)[..|s + t| - 1] == s + t[..|t| - 1];
    }
  }

  lemma {:induction false} NewlineIsCounted(s: bytes)
    requires NEWLINE in s
    ensures Newlines(s) >= 1
  {
    if s[|s| - 1] != NEWLINE {
      assert s == s[..|s| - 1] + [s[|s| - 1]];
      NewlineIsCounted(s[..|s| - 1]);
    }
  }

  lemma {:induction false} NewlinesOfLines(lines: seq<bytes>)
    requires forall j :: 0 <= j < |lines| ==> Newlines(lines[j]) >= 1
    ensures Newlines(Concat(lines)) >= |lines|
    ensures (exists j :: 0 <= j < |lines| && Newlines(lines[j]) >= 2) ==> Newlines(Concat(lines)) > |lines|
  {
    if lines != [] {
      var n := |lines| - 1;
      NewlinesOfLines(lines[..n]);
      NewlinesAdd(Concat(lines[..n]), lines[n]);
      if j :| 0 <= j < |lines| && Newlines(lines[j]) >= 2 && j < n {
        assert Newlines(lines[..n][j]) >= 2;
      }
    }
  }

  /** Splitting cuts a text behind each newline and loses nothing. */
  lemma {:induction false} SplitIsWhole(s: bytes)
    ensures s == Concat(Split(s)) + Unfinished(s)
    ensures forall j :: 0 <= j < |Split(s)| ==> IsLine(Split(s)[j])
    ensures forall c :: c in Unfinished(s) ==> c as int != '\n' as int
  {
    hide Concat, IsLine;
    if s != [] {
      hide Split, Unfinished;
      var front, c := s[..|s| - 1], s[|s| - 1];
      SplitIsWhole(front);
      assert s == front + [c];
      if c == NEWLINE {
        var l := Unfinished(front) + [NEWLINE];
        assert IsLine(l) by {
          UnfinishedLineEnds(Unfinished(front));
        }
        NewlineEndsLine(front);
        ConcatAppend(Split(front), l);
        assert Concat(Split(front)) + l == Concat(Split(front)) + Unfinished(front) + [NEWLINE];
      } else {
        SplitExtends(front, [c]);
        assert Concat(Split(front)) + (Unfinished(front) + [c]) == Concat(Split(front)) + Unfinished(front) + [c];
      }
    } else {
      ConcatAppend([], []);
    }
  }

  lemma UnfinishedLineEnds(l: bytes)
    requires forall c :: c in l ==> c != NEWLINE
    ensures IsLine(l + [NEWLINE])
  {
    assert (l + [NEWLINE])[..|l|] == l;
  }

  lemma LinesEndAtTheirNewline(l: bytes)
    ensures IsLine(l) <==> |l| > 0 && forall i :: 0 <= i < |l| ==> (l[i] as int == '\n' as int <==> i == |l| - 1)
  {
    if |l| > 0 && forall i :: 0 <= i < |l| ==> (l[i] as int == '\n' as int <==> i == |l| - 1) {
      assert forall i :: 0 <= i < |l| - 1 ==> l[..|l| - 1][i] == l[i];
    }
  }
}
