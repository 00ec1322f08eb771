/**
 One round of the `select` loop (hw6_server.c, echo_selectserv.c): the scan over the descriptors that
 `select` left in the copy, while accepts and closes change the live set and the scan's own bound.
 */
module SelectRound {

  /** What serving a client's descriptor leads to; echo_selectserv.c never sees a quit. */
  datatype Handling = KeepOpen | CloseClient | QuitServer

  datatype Event = Accepted(fd: nat) | Read(fd: nat)

  /** The members of `s` below `hi`, in the order the scan meets them. */
  function Ascending(s: set<nat>, hi: nat): seq<nat> {
    if hi == 0 then [] else if hi - 1 in s then Ascending(s, hi - 1) + [hi - 1] else Ascending(s, hi - 1)
  }

  /** Every member below the bound is met exactly once, in increasing order. */
  lemma {:induction false} AscendingMeetsEachOnce(s: set<nat>, hi: nat)
    ensures forall f :: f in Ascending(s, hi) <==> f in s && f < hi
    ensures forall i, j :: 0 <= i < j < |Ascending(s, hi)| ==> Ascending(s, hi)[i] < Ascending(s, hi)[j]
  {
    if hi > 0 {
      AscendingMeetsEachOnce(s, hi - 1);
      var r := Ascending(s, hi - 1);
      forall i | 0 <= i < |r| ensures r[i] < hi - 1 {
        assert r[i] in r;
      }
    }
  }

  /** The events of a scan that meets `fds` in this order and whose accept returns `a`. */
  function Served(fds: seq<nat>, listener: nat, a: nat): (r: seq<Event>)
    ensures |r| == |fds|
  {
    seq(|fds|, i requires 0 <= i < |fds| => if fds[i] == listener then Accepted(a) else Read(fds[i]))
  }

  /** A client accepted in a round is not read in it, even when its number was given up earlier in the scan. */
  predicate NewClientWaits(events: seq<Event>, a: nat) {
    forall i, j :: 0 <= i < j < |events| && events[i] == Accepted(a) ==> events[j] != Read(a)
  }

  lemma {:induction false} AcceptedNumberIsBehindTheScan(ready: set<nat>, hi: nat, listener: nat, a: nat)
    requires forall f :: f in ready && f > listener ==> a != f
    ensures NewClientWaits(Served(Ascending(ready, hi), listener, a), a)
  {
    AscendingMeetsEachOnce(ready, hi);
    var fds := Ascending(ready, hi);
    var ev := Served(fds, listener, a);
    forall i, j | 0 <= i < j < |ev| && ev[i] == Accepted(a) ensures ev[j] != Read(a) {
      assert fds[i] == listener && fds[j] > listener && fds[j] in fds;
    }
  }

  /** Clients served below `hi` whose connection ends with the request. */
  function Ended(ready: set<nat>, handle: nat -> Handling, listener: nat, hi: nat): set<nat> {
    set f | f in ready && f < hi && f != listener && handle(f) != KeepOpen
  }

  predicate QuitSeen(ready: set<nat>, handle: nat -> Handling, listener: nat, hi: nat) {
    exists f :: f in ready && f < hi && f != listener && handle(f) == QuitServer
  }

  /** A set of descriptors after the scan has passed those below `hi`; accept returned `a`. */
  function Passed(was: set<nat>, ready: set<nat>, handle: nat -> Handling, listener: nat, a: nat, hi: nat): set<nat> {
    was - Ended(ready, handle, listener, hi) + (if listener in ready && hi > listener then {a} else {})
  }

  lemma PassedStep(was: set<nat>, ready: set<nat>, handle: nat -> Handling, listener: nat, a: nat, i: nat)
    requires i in ready && i > listener ==> a != i
    ensures Passed(was, ready, handle, listener, a, i + 1) ==
      var now := Passed(was, ready, handle, listener, a, i);
      if i !in ready then now
      else if i == listener then now + {a}
      else if handle(i) == KeepOpen then now
      else now - {i}
  {
    var e, e' := Ended(ready, handle, listener, i), Ended(ready, handle, listener, i + 1);
    if i in ready && i != listener && handle(i) != KeepOpen {
      assert e' == e + {i};
    } else {
      assert e' == e;
    }
  }

  lemma QuitStep(ready: set<nat>, handle: nat -> Handling, listener: nat, i: nat)
    ensures QuitSeen(ready, handle, listener, i + 1) <==>
      QuitSeen(ready, handle, listener, i) || (i in ready && i != listener && handle(i) == QuitServer)
  {
  }

  lemma ServedStep(ready: set<nat>, listener: nat, a: nat, i: nat)
    ensures Served(Ascending(ready, i + 1), listener, a) ==
      if i !in ready then Served(Ascending(ready, i), listener, a)
      else Served(Ascending(ready, i), listener, a) + [if i == listener then Accepted(a) else Read(i)]
  {
  }

  lemma ScanStart(was: set<nat>, ready: set<nat>, handle: nat -> Handling, listener: nat, a: nat)
    ensures Passed(was, ready, handle, listener, a, 0) == was
    ensures !QuitSeen(ready, handle, listener, 0)
    ensures Served(Ascending(ready, 0), listener, a) == []
  {
  }

  lemma BeforeAccept(was: set<nat>, ready: set<nat>, handle: nat -> Handling, listener: nat, a: nat)
    ensures Passed(was, ready, handle, listener, a, listener) == was - Ended(ready, handle, listener, listener)
  {
  }

  lemma ScanEnd(was: set<nat>, ready: set<nat>, handle: nat -> Handling, listener: nat, a: nat, top: nat, hi: nat)
    requires listener < top <= hi && forall f :: f in ready ==> f < top
    ensures Passed(was, ready, handle, listener, a, hi) ==
      was - Ended(ready, handle, listener, top) + (if listener in ready then {a} else {})
    ensures QuitSeen(ready, handle, listener, hi) <==> QuitSeen(ready, handle, listener, top)
  {
    assert Ended(ready, handle, listener, hi) == Ended(ready, handle, listener, top);
  }

  class SelectServer {
    const listener: nat
    var readSet: set<nat>
    var cpyReads: set<nat>
    var fdMax: nat
    /** The kernel's open client descriptors, and whether the listener is open. */
    var clients: set<nat>
    var listening: bool
    var events: seq<Event>

    /** At the start of a round: the live set is the listener and the open clients, all within the bound. */
    ghost predicate Valid()
      reads this
    {
      listening && listener !in clients && readSet == {listener} + clients && forall f :: f in readSet ==> f <= fdMax
    }

    constructor (listener: nat)
      ensures Valid() && this.listener == listener && readSet == {listener} && fdMax == listener
      ensures clients == {} && listening && events == []
    {
      this.listener := listener;
      readSet := {listener};
      cpyReads := {};
      fdMax := listener;
      clients := {};
      listening := true;
      events := [];
    }

    /**
     The scan. `accept` answers with a descriptor that is not open; `handle` says what each
     ready client's request leads to. A quit is only ever sent by a client, whose descriptor lies
     above the listener's.
     */
    method Round(ready: set<nat>, handle: nat -> Handling, accept: set<nat> -> nat) returns (ghost a: nat)
      requires Valid() && ready <= readSet
      requires forall open :: accept(open) !in open
      requires forall f :: f in ready && f != listener && handle(f) == QuitServer ==> f > listener
      modifies this
      ensures var open := {listener} + (set f | f in old(clients) && (f in ready && f < listener ==> handle(f) == KeepOpen));
        a == accept(open) && a !in open
      ensures var fds := Ascending(ready, old(fdMax) + 1);
        |events| == |fds| && forall i :: 0 <= i < |fds| ==> events[i] == if fds[i] == listener then Accepted(a) else Read(fds[i])
      ensures forall i, j :: 0 <= i < j < |events| && events[i] == Accepted(a) ==> events[j] != Read(a)
      ensures forall f :: f in clients <==>
        (f in old(clients) && (f in ready ==> handle(f) == KeepOpen)) || (f == a && listener in ready)
      ensures forall f :: f in readSet <==>
        f == listener || (f in old(clients) && (f in ready ==> handle(f) == KeepOpen)) || (f == a && listener in ready)
      ensures fdMax == if listener in ready && old(fdMax) < a then a else old(fdMax)
      ensures listening <==> forall f :: f in ready && f != listener ==> handle(f) != QuitServer
      ensures listener !in clients && forall f :: f in readSet ==> f <= fdMax
      ensures Valid() <==> listening
    {
      hide Passed, QuitSeen, Served, Ascending, NewClientWaits, Ended;
      ghost var was, top := clients, fdMax;
      OpenAtAccept(was, ready, handle, listener);
      a := Scan(ready, handle, accept);
      ScanMeans(was, ready, handle, listener, a, top);
      WaitingMeans(events, a);
    }

    /** The loop, step by step. */
    method Scan(ready: set<nat>, handle: nat -> Handling, accept: set<nat> -> nat) returns (ghost a: nat)
      requires Valid() && ready <= readSet
      requires forall open :: accept(open) !in open
      requires forall f :: f in ready && f != listener && handle(f) == QuitServer ==> f > listener
      modifies this
      ensures a == accept(old({listener} + clients) - Ended(ready, handle, listener, listener))
      ensures events == Served(Ascending(ready, old(fdMax) + 1), listener, a)
      ensures NewClientWaits(events, a)
      ensures var gone := Ended(ready, handle, listener, old(fdMax) + 1);
        var come := if listener in ready then {a} else {};
        clients == old(clients) - gone + come && readSet == old(readSet) - gone + come
      ensures fdMax == if listener in ready && old(fdMax) < a then a else old(fdMax)
      ensures listening <==> !QuitSeen(ready, handle, listener, old(fdMax) + 1)
    {
      hide Passed, QuitSeen, Served, Ascending, NewClientWaits;
      ghost var top := fdMax;
      a := accept({listener} + clients - Ended(ready, handle, listener, listener));
      forall f | f in ready && f > listener ensures a != f {
        assert f in {listener} + clients - Ended(ready, handle, listener, listener);
      }
      cpyReads := ready;
      events := [];
      ScanStart(old(clients), ready, handle, listener, a);
      ScanStart(old(readSet), ready, handle, listener, a);
      var i := 0;
      while i < fdMax + 1
        invariant cpyReads == ready && top <= fdMax && i <= fdMax + 1
        invariant fdMax == if listener in ready && i > listener && top < a then a else top
        invariant events == Served(Ascending(ready, i), listener, a)
        invariant clients == Passed(old(clients), ready, handle, listener, a, i)
        invariant readSet == Passed(old(readSet), ready, handle, listener, a, i)
        invariant listening <==> !QuitSeen(ready, handle, listener, i)
        decreases if i <= listener then 1 else 0, fdMax + 1 - i
      {
        PassedStep(old(clients), ready, handle, listener, a, i);
        PassedStep(old(readSet), ready, handle, listener, a, i);
        QuitStep(ready, handle, listener, i);
        ServedStep(ready, listener, a, i);
        if i in cpyReads {
          if i == listener {
            var clntSock := accept({listener} + clients);
            BeforeAccept(old(clients), ready, handle, listener, a);
            assert {listener} + clients == old({listener} + clients) - Ended(ready, handle, listener, listener);
            clients := clients + {clntSock};
            readSet := readSet + {clntSock};
            if fdMax < clntSock {
              fdMax := clntSock;
            }
            events := events + [Accepted(clntSock)];
          } else {
            events := events + [Read(i)];
            match handle(i)
            case KeepOpen =>
            case CloseClient =>
              readSet := readSet - {i};
              clients := clients - {i};
            case QuitServer =>
              clients := clients - {i};
              readSet := readSet - {i};
              listening := false;
          }
        }
        i := i + 1;
      }
      PastTheTop(ready, top + 1, i);
      AcceptedNumberIsBehindTheScan(ready, top + 1, listener, a);
      ScanEnd(old(clients), ready, handle, listener, a, top + 1, i);
      ScanEnd(old(readSet), ready, handle, listener, a, top + 1, i);
    }
  }

  /** The descriptors that are open when the scan reaches the listener. */
  lemma OpenAtAccept(clients: set<nat>, ready: set<nat>, handle: nat -> Handling, listener: nat)
    requires listener !in clients && ready <= {listener} + clients
    ensures {listener} + clients - Ended(ready, handle, listener, listener) ==
            {listener} + (set f | f in clients && (f in ready && f < listener ==> handle(f) == KeepOpen))
  {
  }

  lemma WaitingMeans(events: seq<Event>, a: nat)
    ensures NewClientWaits(events, a) <==>
      forall i, j :: 0 <= i < j < |events| && events[i] == Accepted(a) ==> events[j] != Read(a)
  {
  }

  lemma ScanMeans(clients: set<nat>, ready: set<nat>, handle: nat -> Handling, listener: nat, a: nat, top: nat)
    requires listener !in clients && ready <= {listener} + clients && forall f :: f in ready ==> f <= top
    ensures listener !in Ended(ready, handle, listener, top + 1)
    ensures forall f :: f in clients - Ended(ready, handle, listener, top + 1) <==>
      f in clients && (f in ready ==> handle(f) == KeepOpen)
    ensures QuitSeen(ready, handle, listener, top + 1) <==> exists f :: f in ready && f != listener && handle(f) == QuitServer
    ensures var fds := Ascending(ready, top + 1); var ev := Served(fds, listener, a);
      |ev| == |fds| && forall i :: 0 <= i < |fds| ==> ev[i] == if fds[i] == listener then Accepted(a) else Read(fds[i])
  {
    hide Ascending;
  }

  lemma {:induction false} PastTheTop(ready: set<nat>, top: nat, hi: nat)
    requires top <= hi && forall f :: f in ready ==> f < top
    ensures Ascending(ready, hi) == Ascending(ready, top)
  {
    if top < hi {
      PastTheTop(ready, top, hi - 1);
    }
  }
}
