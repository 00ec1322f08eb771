/**
 The threaded broadcast server (test_serv.c): a main thread that accepts and registers clients, one
 handler thread per client, and a mutex around the array of client sockets. Every `write` inside the
 locked broadcast loop is its own step.
 */
module Broadcast {

  const MAX_CLNT: nat := 100

  type Message = string

  /** A broadcast in the order in which the mutex admitted it. */
  datatype Entry = Entry(sender: nat, message: Message)

  // The removal loop.

  /** The sequence without the first occurrence of `x`. */
  function Removal<T(==)>(s: seq<T>, x: T): seq<T> {
    if s == [] then [] else if s[0] == x then s[1..] else [s[0]] + Removal(s[1..], x)
  }

  lemma {:induction false} RemovalAt<T>(s: seq<T>, x: T, j: nat)
    requires j < |s| && s[j] == x && x !in s[..j]
    ensures Removal(s, x) == s[..j] + s[j + 1..]
  {
    if j == 0 {
      assert [] + s[1..] == s[1..];
    } else {
      assert s[..j][0] == s[0];
      assert x !in s[1..][..j - 1] by {
        assert s[..j][1..] == s[1..][..j - 1];
      }
      RemovalAt(s[1..], x, j - 1);
      assert s[..j] == [s[0]] + s[1..][..j - 1] && s[1..][j..] == s[j + 1..];
    }
  }

  lemma {:induction false} RemovalAbsent<T>(s: seq<T>, x: T)
    requires x !in s
    ensures Removal(s, x) == s
  {
    if s != [] {
      RemovalAbsent(s[1..], x);
    }
  }

  lemma RemovalMembers<T>(s: seq<T>, at: nat)
    requires at < |s| && forall i :: 0 <= i < |s| && i != at ==> s[i] != s[at]
    ensures forall d :: d in s[..at] + s[at + 1..] <==> d in s && d != s[at]
  {
    assert s == s[..at] + ([s[at]] + s[at + 1..]);
  }

  /** The shift that the inner loops perform: position `i` disappears. */
  method ShiftDown(socks: array<int>, i: nat, count: nat)
    requires i < count <= socks.Length
    modifies socks
    ensures socks[..count - 1] == old(socks[..i]) + old(socks[i + 1..count])
    ensures socks[count - 1..] == old(socks[count - 1..])
  {
    for j := i to count - 1
      invariant forall k :: 0 <= k < i || j <= k < socks.Length ==> socks[k] == old(socks[k])
      invariant forall k :: i <= k < j ==> socks[k] == old(socks[k + 1])
    {
      socks[j] := socks[j + 1];
    }
  }

  /** The cleanup of `handle_clnt`: find the socket, shift the rest down, count one less. */
  method RemoveSocket(socks: array<int>, count: nat, sock: int) returns (left: nat)
    requires count <= socks.Length
    modifies socks
    ensures left == (if sock in old(socks[..count]) then count - 1 else count)
    ensures socks[..left] == Removal(old(socks[..count]), sock)
  {
    hide Removal;
    ghost var was := socks[..count];
    var i := 0;
    while i < count && socks[i] != sock
      invariant i <= count && forall k :: 0 <= k < i ==> was[k] != sock
    {
      i := i + 1;
    }
    if i < count {
      assert was[i] == sock;
      RemovalAt(was, sock, i);
      ShiftDown(socks, i, count);
      assert socks[..count - 1] == was[..i] + was[i + 1..];
      left := count - 1;
    } else {
      assert sock !in was;
      RemovalAbsent(was, sock);
      left := count;
    }
  }

  /**
   `while (i++ < count - 1) socks[i] = socks[i + 1]`, which leaves position `i` itself alone. Unless
   it starts at the last position it reads entry `count`.
   */
  method ShiftLate(socks: array<int>, at: nat, count: nat)
    requires at < count <= socks.Length && (at < count - 1 ==> count < socks.Length)
    modifies socks
    ensures socks[..count - 1] ==
      if at + 1 < count then old(socks[..at + 1]) + old(socks[at + 2..count]) else old(socks[..at])
  {
    var i := at;
    var more := i < count - 1;
    i := i + 1;
    while more
      invariant at < i && (more ==> i < count < socks.Length) && (!more ==> i == count || at + 1 == i == count)
      invariant forall k :: 0 <= k <= at || i <= k < socks.Length ==> socks[k] == old(socks[k])
      invariant forall k :: at < k < i && k < count - 1 ==> socks[k] == old(socks[k + 1])
      decreases count - i, more
    {
      socks[i] := socks[i + 1];
      more := i < count - 1;
      i := i + 1;
    }
  }

  /**
   The cleanup of hw8_server.c and chat_serv.c, whose inner loop advances `i` before the first shift.
   The count drops whether or not the socket was found. On a full array the loop stays within it only
   when it has nothing to shift.
   */
  method RemoveLate(socks: array<int>, count: nat, sock: int) returns (left: int)
    requires count <= socks.Length && (0 < count == socks.Length ==> sock !in socks[..count - 1])
    modifies socks
    ensures left == count - 1
    ensures count > 0 ==> socks[..left] == LateRemoval(old(socks[..count]), sock)
  {
    hide WithoutSuccessor;
    ghost var was := socks[..count];
    var i := 0;
    while i < count && socks[i] != sock
      invariant i <= count && forall k :: 0 <= k < i ==> was[k] != sock
    {
      i := i + 1;
    }
    left := count - 1;
    if i < count {
      assert was[i] == sock;
      SuccessorAt(was, sock, i);
      assert i < count - 1 ==> socks[..count - 1][i] == sock;
      ShiftLate(socks, i, count);
      assert socks[..left] == if i + 1 < count then was[..i + 1] + was[i + 2..] else was[..i];
    } else {
      assert sock !in was;
      assert count > 0 ==> socks[..left] == was[..left];
    }
  }

  /** What the late loop leaves: without the departing socket in the array, the last entry goes instead. */
  function LateRemoval(s: seq<int>, x: int): seq<int>
    requires s != []
  {
    if x in s then WithoutSuccessor(s, x) else s[..|s| - 1]
  }

  /** The sequence without the element after the first `x`, or without `x` when it is last. */
  function WithoutSuccessor(s: seq<int>, x: int): seq<int>
    requires s != []
  {
    if s[0] == x then (if |s| == 1 then [] else [x] + s[2..])
    else if |s| == 1 then s
    else [s[0]] + WithoutSuccessor(s[1..], x)
  }

  lemma {:induction false} SuccessorAt(s: seq<int>, x: int, j: nat)
    requires j < |s| && s[j] == x && x !in s[..j]
    ensures WithoutSuccessor(s, x) == if j + 1 < |s| then s[..j + 1] + s[j + 2..] else s[..j]
  {
    if j == 0 {
      assert s[..1] == [x];
    } else {
      assert s[..j][0] == s[0];
      assert x !in s[1..][..j - 1] by {
        assert s[..j][1..] == s[1..][..j - 1];
      }
      SuccessorAt(s[1..], x, j - 1);
      assert s[..j] == [s[0]] + s[1..][..j - 1];
      if j + 1 < |s| {
        assert s[..j + 1] == [s[0]] + s[1..][..j];
        assert s[1..][j + 1..] == s[j + 2..];
        assert [s[0]] + (s[1..][..j] + s[j + 2..]) == ([s[0]] + s[1..][..j]) + s[j + 2..];
      }
    }
  }

  predicate FirstAt(s: seq<int>, x: int, j: nat) {
    j < |s| && s[j] == x && forall k :: 0 <= k < j ==> s[k] != x
  }

  lemma {:induction false} FirstExists(s: seq<int>, x: int) returns (j: nat)
    requires x in s
    ensures FirstAt(s, x, j)
  {
    if s[0] == x {
      j := 0;
    } else {
      j := FirstExists(s[1..], x);
      j := j + 1;
    }
  }

  /**
   The late loop removes the departing socket iff it is there and its first entry is the last one
   (or its successor is the same number). When it is not there, a live socket is dropped.
   */
  lemma {:induction false} LateRemovalIsCorrectIffLast(s: seq<int>, x: int)
    requires s != []
    ensures LateRemoval(s, x) == Removal(s, x) <==>
            exists j :: 0 <= j < |s| && s[j] == x && (forall k :: 0 <= k < j ==> s[k] != x) && (j == |s| - 1 || s[j + 1] == x)
  {
    hide Removal, WithoutSuccessor;
    if x in s {
      var j := FirstExists(s, x);
      LateRemovalAt(s, x, j);
    } else {
      RemovalAbsent(s, x);
    }
  }

  /** What is left, by position: all but the successor, all but the last, or all but the last live socket. */
  lemma {:induction false} LateRemovalSpelled(s: seq<int>, x: int, j: nat)
    requires s != []
    ensures j < |s| && s[j] == x && (forall k :: 0 <= k < j ==> s[k] != x) ==>
      LateRemoval(s, x) == if j + 1 < |s| then s[..j + 1] + s[j + 2..] else s[..j]
    ensures (forall k :: 0 <= k < |s| ==> s[k] != x) ==> LateRemoval(s, x) == s[..|s| - 1]
  {
    hide WithoutSuccessor;
    if j < |s| && s[j] == x && forall k :: 0 <= k < j ==> s[k] != x {
      SuccessorAt(s, x, j);
    }
  }

  lemma {:induction false} LateRemovalAt(s: seq<int>, x: int, j: nat)
    requires FirstAt(s, x, j)
    ensures WithoutSuccessor(s, x) == Removal(s, x) <==> j == |s| - 1 || s[j + 1] == x
  {
    hide Removal, WithoutSuccessor;
    RemovalAt(s, x, j);
    SuccessorAt(s, x, j);
    if j + 1 < |s| {
      if s[j + 1] == x {
        assert s[..j + 1] + s[j + 2..] == s[..j] + s[j + 1..];
      } else {
        assert (s[..j + 1] + s[j + 2..])[j] == x;
        assert (s[..j] + s[j + 1..])[j] == s[j + 1];
      }
    } else {
      assert s[..j] + s[j + 1..] == s[..j];
    }
  }

  /**
   Three clients. When the first leaves it stays and the second is dropped; when the second then
   leaves it is not found, and the third is dropped. Only the socket of the first, now closed, is left.
   */
  lemma LateRemovalCascades()
    ensures LateRemoval([3, 4, 5], 3) == [3, 5] && Removal([3, 4, 5], 3) == [4, 5]
    ensures LateRemoval([3, 5], 4) == [3]
  {
    assert 3 in [3, 4, 5] by {
      assert [3, 4, 5][0] == 3;
    }
  }
}
