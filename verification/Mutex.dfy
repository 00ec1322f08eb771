/**
 The mutex program (mutex.c): one thread adds one `n` times inside a single critical section, the
 other subtracts one `n` times with a critical section, and a print, per iteration. Every access to
 the shared variable is a separate load or store.
 */
module Mutex {
  import opened Wrappers


  datatype Thread = Inc | Des

  /** `num += 1` is a load into a register and a store; Des prints before its load. */
  datatype IncPc = IncLock | IncLoad | IncStore(reg: int) | IncEnd
  datatype DesPc = DesLock | DesPrint | DesLoad | DesStore(reg: int) | DesUnlock | DesEnd

  datatype State = State(num: int, lock: Option<Thread>, inc: IncPc, i: nat, des: DesPc, k: nat, printed: seq<int>)

  predicate Init(n: nat, s: State) {
    s.num == 0 && s.lock == None && s.inc == IncLock && s.i == 0 && s.k == 0 && s.printed == []
    && s.des == (if n == 0 then DesEnd else DesLock)
  }

  /** The unlock of the increment thread, once its loop is done, ends it. */
  predicate IncStep(n: nat, s: State, s': State) {
    match s.inc
    case IncLock => s.lock == None && s' == s.(lock := Some(Inc), inc := IncLoad)
    case IncLoad =>
      if s.i < n then s' == s.(inc := IncStore(s.num)) else s' == s.(lock := None, inc := IncEnd)
    case IncStore(reg) => s' == s.(num := reg + 1, inc := IncLoad, i := s.i + 1)
    case IncEnd => false
  }

  predicate DesStep(n: nat, s: State, s': State) {
    match s.des
    case DesLock => s.lock == None && s' == s.(lock := Some(Des), des := DesPrint)
    case DesPrint => s' == s.(printed := s.printed + [s.num], des := DesLoad)
    case DesLoad => s' == s.(des := DesStore(s.num))
    case DesStore(reg) => s' == s.(num := reg - 1, des := DesUnlock)
    case DesUnlock =>
      s' == s.(lock := None, k := s.k + 1, des := if s.k + 1 < n then DesLock else DesEnd)
    case DesEnd => false
  }

  predicate Next(n: nat, s: State, s': State) {
    IncStep(n, s, s') || DesStep(n, s, s')
  }

  ghost predicate Run(n: nat, ss: seq<State>) {
    ss != [] && Init(n, ss[0]) && forall t :: 0 <= t < |ss| - 1 ==> Next(n, ss[t], ss[t + 1])
  }

  predicate IncHolds(s: State) {
    s.inc == IncLoad || s.inc.IncStore?
  }

  predicate DesHolds(s: State) {
    s.des != DesLock && s.des != DesEnd
  }

  /** Completed subtractions. */
  function Subtracted(s: State): nat {
    if s.des == DesUnlock then s.k + 1 else s.k
  }

  /** The values printed so far were `-k`, then `n - k` from some iteration `c` on. */
  ghost predicate Switches(n: nat, printed: seq<int>, c: nat) {
    c <= |printed| && forall k :: 0 <= k < |printed| ==> printed[k] == if k < c then -k else n - k
  }

  ghost predicate Inv(n: nat, s: State) {
    (s.lock == Some(Inc) <==> IncHolds(s)) && (s.lock == Some(Des) <==> DesHolds(s))
    && s.i <= n && (s.inc.IncStore? ==> s.i < n && s.inc.reg == s.num)
    && (s.inc == IncLock ==> s.i == 0) && (s.inc == IncEnd ==> s.i == n)
    && (if s.des == DesEnd then s.k == n else s.k < n) && (s.des.DesStore? ==> s.des.reg == s.num)
    && s.num == s.i - Subtracted(s)
    && |s.printed| == s.k + (if s.des == DesLoad || s.des.DesStore? || s.des == DesUnlock then 1 else 0)
    && (exists c: nat :: Switches(n, s.printed, c) && (s.inc == IncLock ==> c == |s.printed|))
  }

  lemma {:induction false} StepKeeps(n: nat, s: State, s': State)
    requires Inv(n, s) && Next(n, s, s')
    ensures Inv(n, s')
  {
    var c: nat :| Switches(n, s.printed, c) && (s.inc == IncLock ==> c == |s.printed|);
    if DesStep(n, s, s') && s.des == DesPrint {
      assert Switches(n, s'.printed, if s.inc == IncLock then c + 1 else c);
    } else {
      assert Switches(n, s'.printed, c);
    }
  }

  lemma {:induction false} RunsKeep(n: nat, ss: seq<State>, t: nat)
    requires Run(n, ss) && t < |ss|
    ensures Inv(n, ss[t])
  {
    hide Next;
    if t == 0 {
      assert Switches(n, [], 0);
    } else {
      hide Inv;
      RunsKeep(n, ss, t - 1);
      assert Next(n, ss[t - 1], ss[t - 1 + 1]);
      StepKeeps(n, ss[t - 1], ss[t]);
    }
  }

  /**
   In every interleaving iteration `k` prints `-k` or `n - k`, and once an iteration has printed
   `n - k` every later one does.
   */
  lemma {:induction false} PrintedValues(n: nat, ss: seq<State>, t: nat)
    requires Run(n, ss) && t < |ss|
    ensures var p := ss[t].printed;
      (forall k :: 0 <= k < |p| ==> p[k] == -k || p[k] == n - k)
      && (forall j, k :: 0 <= j < k < |p| && p[j] == n - j ==> p[k] == n - k)
  {
    hide Run;
    RunsKeep(n, ss, t);
  }

  /** After both joins the shared variable is zero and `n` values were printed. */
  lemma {:induction false} FinalValueIsZero(n: nat, ss: seq<State>, t: nat)
    requires Run(n, ss) && t < |ss| && ss[t].inc == IncEnd && ss[t].des == DesEnd
    ensures ss[t].num == 0 && |ss[t].printed| == n
  {
    hide Run, Switches;
    RunsKeep(n, ss, t);
  }

  /** The two threads are never in their critical sections together. */
  lemma {:induction false} CriticalSectionsExclude(n: nat, ss: seq<State>, t: nat)
    requires Run(n, ss) && t < |ss|
    ensures !(ss[t].inc != IncLock && ss[t].inc != IncEnd && ss[t].des != DesLock && ss[t].des != DesEnd)
  {
    hide Run, Switches;
    RunsKeep(n, ss, t);
  }

  lemma {:induction false} UnfinishedGoesOn(n: nat, ss: seq<State>, t: nat)
    requires Run(n, ss) && t < |ss| && (ss[t].inc != IncEnd || ss[t].des != DesEnd)
    ensures exists s' :: Next(n, ss[t], s')
  {
    hide Run, Switches;
    RunsKeep(n, ss, t);
    var s := ss[t];
    if s.lock.Some? {
      assert s.lock == Some(s.lock.value) && (s.lock.value == Inc || s.lock.value == Des);
    }
    if s.inc == IncLoad {
      assert Next(n, s, if s.i < n then s.(inc := IncStore(s.num)) else s.(lock := None, inc := IncEnd));
    } else if s.inc.IncStore? {
      assert Next(n, s, s.(num := s.inc.reg + 1, inc := IncLoad, i := s.i + 1));
    } else if s.des == DesPrint {
      assert Next(n, s, s.(printed := s.printed + [s.num], des := DesLoad));
    } else if s.des == DesLoad {
      assert Next(n, s, s.(des := DesStore(s.num)));
    } else if s.des.DesStore? {
      assert Next(n, s, s.(num := s.des.reg - 1, des := DesUnlock));
    } else if s.des == DesUnlock {
      assert Next(n, s, s.(lock := None, k := s.k + 1, des := if s.k + 1 < n then DesLock else DesEnd));
    } else if s.inc == IncLock {
      assert Next(n, s, s.(lock := Some(Inc), inc := IncLoad));
    } else {
      assert Next(n, s, s.(lock := Some(Des), des := DesPrint));
    }
  }

  /** Steps taken so far. */
  function Taken(s: State): nat {
    (match s.inc
     case IncLock => 0
     case IncLoad => 1 + 2 * s.i
     case IncStore(_) => 2 + 2 * s.i
     case IncEnd => 2 + 2 * s.i)
    + 5 * s.k
    + (match s.des
       case DesLock => 0
       case DesPrint => 1
       case DesLoad => 2
       case DesStore(_) => 3
       case DesUnlock => 4
       case DesEnd => 0)
  }

  /** Every run takes exactly `7n + 2` steps to finish, whatever the interleaving. */
  lemma {:induction false} RunsEnd(n: nat, ss: seq<State>)
    requires Run(n, ss)
    ensures |ss| <= 7 * n + 3
    ensures ss[|ss| - 1].inc == IncEnd && ss[|ss| - 1].des == DesEnd <==> |ss| == 7 * n + 3
  {
    hide Switches;
    StepsAreCounted(n, ss, |ss| - 1);
    RunsKeep(n, ss, |ss| - 1);
  }

  lemma {:induction false} StepsAreCounted(n: nat, ss: seq<State>, t: nat)
    requires Run(n, ss) && t < |ss|
    ensures Taken(ss[t]) == t
  {
    hide Next, Inv, Taken;
    if t == 0 {
      assert Taken(ss[0]) == 0 by {
        InitialCount(n, ss[0]);
      }
    } else {
      RunsKeep(n, ss, t - 1);
      StepsAreCounted(n, ss, t - 1);
      assert Next(n, ss[t - 1], ss[t - 1 + 1]);
      StepCounts(n, ss[t - 1], ss[t]);
    }
  }

  lemma InitialCount(n: nat, s: State)
    requires Init(n, s)
    ensures Taken(s) == 0
  {
  }

  lemma StepCounts(n: nat, s: State, s': State)
    requires Inv(n, s) && Next(n, s, s')
    ensures Taken(s') == Taken(s) + 1
  {
    hide Switches;
  }

  // What can happen.

  /** A thread waits only for the lock, and any of the two can take it when it is free. */
  lemma ThreadsWaitOnlyForTheLock(n: nat, s: State)
    ensures s.inc != IncEnd ==> ((s.inc == IncLock ==> s.lock.None?) <==> exists s' :: IncStep(n, s, s'))
    ensures s.des != DesEnd ==> ((s.des == DesLock ==> s.lock.None?) <==> exists s' :: DesStep(n, s, s'))
    ensures forall s' :: IncStep(n, s, s') || DesStep(n, s, s') ==> Next(n, s, s')
  {
    if s.inc != IncEnd && (s.inc == IncLock ==> s.lock.None?) {
      var s' := match s.inc
        case IncLock => s.(lock := Some(Inc), inc := IncLoad)
        case IncLoad => if s.i < n then s.(inc := IncStore(s.num)) else s.(lock := None, inc := IncEnd)
        case IncStore(reg) => s.(num := reg + 1, inc := IncLoad, i := s.i + 1)
        case IncEnd => s;
      assert IncStep(n, s, s');
    }
    if s.des != DesEnd && (s.des == DesLock ==> s.lock.None?) {
      var s' := match s.des
        case DesLock => s.(lock := Some(Des), des := DesPrint)
        case DesPrint => s.(printed := s.printed + [s.num], des := DesLoad)
        case DesLoad => s.(des := DesStore(s.num))
        case DesStore(reg) => s.(num := reg - 1, des := DesUnlock)
        case DesUnlock => s.(lock := None, k := s.k + 1, des := if s.k + 1 < n then DesLock else DesEnd)
        case DesEnd => s;
      assert DesStep(n, s, s');
    }
  }

  /** A run that ends. */
  lemma {:induction false} ARunEnds(n: nat) returns (ss: seq<State>)
    ensures Run(n, ss) && ss[|ss| - 1].inc == IncEnd && ss[|ss| - 1].des == DesEnd
    ensures ss[0] == State(0, None, IncLock, 0, if n == 0 then DesEnd else DesLock, 0, [])
  {
    hide Next;
    ss := [State(0, None, IncLock, 0, if n == 0 then DesEnd else DesLock, 0, [])];
    while ss[|ss| - 1].inc != IncEnd || ss[|ss| - 1].des != DesEnd
      invariant Run(n, ss) && ss[0] == State(0, None, IncLock, 0, if n == 0 then DesEnd else DesLock, 0, [])
      decreases 7 * n + 3 - |ss|
    {
      UnfinishedGoesOn(n, ss, |ss| - 1);
      var s' :| Next(n, ss[|ss| - 1], s');
      ghost var longer := ss + [s'];
      forall t | 0 <= t < |longer| - 1 ensures Next(n, longer[t], longer[t + 1]) {
        if t < |ss| - 1 {
          assert Next(n, ss[t], ss[t + 1]);
        }
      }
      ss := longer;
      RunsEnd(n, ss);
    }
  }
}
