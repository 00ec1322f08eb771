/**
 The two-semaphore handoff (semaphore.c): a reader stores numbers into one shared variable, an
 accumulator adds them up, for as many rounds as there are inputs (the source fixes five).
 */
module Semaphore {
  import opened CTypes

  /** Each loop body is wait, access, post. */
  datatype Pc = Wait | Access | Post

  datatype State = State(one: nat, two: nat, num: int32, readerPc: Pc, i: nat, accuPc: Pc, j: nat, sum: int32)

  predicate Init(s: State) {
    s.one == 0 && s.two == 1 && s.readerPc == s.accuPc == Wait && s.i == s.j == 0 && s.sum == 0
  }

  predicate ReaderStep(inputs: seq<int32>, s: State, s': State) {
    s.i < |inputs| &&
    match s.readerPc
    case Wait => s.two > 0 && s' == s.(two := s.two - 1, readerPc := Access)
    case Access => s' == s.(num := inputs[s.i], readerPc := Post)
    case Post => s' == s.(one := s.one + 1, readerPc := Wait, i := s.i + 1)
  }

  predicate AccuStep(inputs: seq<int32>, s: State, s': State) {
    s.j < |inputs| &&
    match s.accuPc
    case Wait => s.one > 0 && s' == s.(one := s.one - 1, accuPc := Access)
    case Access => s' == s.(sum := Wrap32(s.sum as int + s.num as int), accuPc := Post)
    case Post => s' == s.(two := s.two + 1, accuPc := Wait, j := s.j + 1)
  }

  predicate Next(inputs: seq<int32>, s: State, s': State) {
    ReaderStep(inputs, s, s') || AccuStep(inputs, s, s')
  }

  ghost predicate Run(inputs: seq<int32>, ss: seq<State>) {
    ss != [] && Init(ss[0]) && forall k :: 0 <= k < |ss| - 1 ==> Next(inputs, ss[k], ss[k + 1])
  }

  /** The exact sum of the inputs. */
  function Sum(xs: seq<int32>): int {
    if xs == [] then 0 else Sum(xs[..|xs| - 1]) + xs[|xs| - 1] as int
  }

  lemma SumLaws(xs: seq<int32>, x: int32)
    ensures Sum([]) == 0 && Sum(xs + [x]) == Sum(xs) + x as int
  {
    assert (xs + [x])[..|xs|] == xs;
  }

  /** How many inputs have been added. */
  function Added(s: State): nat {
    if s.accuPc == Post then s.j + 1 else s.j
  }

  /** The reader has stored an input that is not yet added. */
  predicate Full(s: State) {
    s.readerPc == Post || s.one == 1 || s.accuPc == Access
  }

  /**
   One token: it is in a semaphore or with the thread between its wait and its post. The shared
   variable holds the next input to add while it is full.
   */
  ghost predicate Inv(inputs: seq<int32>, s: State) {
    s.i <= |inputs| && s.j <= |inputs|
    && (s.i == |inputs| ==> s.readerPc == Wait) && (s.j == |inputs| ==> s.accuPc == Wait)
    && s.one + s.two + (if s.readerPc == Wait then 0 else 1) + (if s.accuPc == Wait then 0 else 1) == 1
    && s.i == s.j + (if s.one == 1 || s.accuPc != Wait then 1 else 0)
    && (Full(s) ==> Added(s) < |inputs| && s.num == inputs[Added(s)])
    && s.sum == Wrap32(Sum(inputs[..Added(s)]))
  }

  lemma WrapAdds(x: int, y: int)
    ensures Wrap32(Wrap32(x) as int + y) == Wrap32(x + y)
  {
  }

  lemma {:induction false} StepKeeps(inputs: seq<int32>, s: State, s': State)
    requires Inv(inputs, s) && Next(inputs, s, s')
    ensures Inv(inputs, s')
  {
    hide Wrap32;
    if AccuStep(inputs, s, s') && s.accuPc == Access {
      var k := s.j;
      assert inputs[..k + 1][..k] == inputs[..k];
      WrapAdds(Sum(inputs[..k]), s.num as int);
    }
  }

  lemma {:induction false} RunsKeep(inputs: seq<int32>, ss: seq<State>, k: nat)
    requires Run(inputs, ss) && k < |ss|
    ensures Inv(inputs, ss[k])
  {
    hide Next;
    if k == 0 {
      assert inputs[..0] == [];
    } else {
      RunsKeep(inputs, ss, k - 1);
      assert Next(inputs, ss[k - 1], ss[k - 1 + 1]);
      StepKeeps(inputs, ss[k - 1], ss[k]);
    }
  }

  /** The threads are never both between their wait and their post, and an input is never overwritten. */
  lemma {:induction false} HandoffIsExclusive(inputs: seq<int32>, ss: seq<State>, k: nat)
    requires Run(inputs, ss) && k < |ss|
    ensures ss[k].readerPc == Wait || ss[k].accuPc == Wait
    ensures ss[k].readerPc == Access ==> !Full(ss[k]) && Added(ss[k]) == ss[k].i
  {
    hide Run;
    RunsKeep(inputs, ss, k);
  }

  /** Each input is added exactly once: the sum is always that of the inputs taken so far, in order. */
  lemma {:induction false} EachInputAddedOnce(inputs: seq<int32>, ss: seq<State>, k: nat)
    requires Run(inputs, ss) && k < |ss|
    ensures Added(ss[k]) <= ss[k].i <= Added(ss[k]) + 1 && ss[k].i <= |inputs|
    ensures ss[k].sum == Wrap32(Sum(inputs[..Added(ss[k])]))
    ensures k + 1 < |ss| && ss[k + 1].sum != ss[k].sum ==> ss[k].accuPc == Access && ss[k].num == inputs[Added(ss[k])]
  {
    hide Wrap32;
    RunsKeep(inputs, ss, k);
    if k + 1 < |ss| {
      assert Next(inputs, ss[k], ss[k + 1]);
    }
  }

  /** Steps taken by both threads. */
  function Taken(s: State): nat {
    3 * s.i + Position(s.readerPc) + 3 * s.j + Position(s.accuPc)
  }

  function Position(pc: Pc): nat {
    match pc
    case Wait => 0
    case Access => 1
    case Post => 2
  }

  /** No run gets stuck before the end. */
  lemma {:induction false} UnfinishedGoesOn(inputs: seq<int32>, ss: seq<State>, k: nat)
    requires Run(inputs, ss) && k < |ss| && !(ss[k].i == ss[k].j == |inputs|)
    ensures exists s' :: Next(inputs, ss[k], s')
  {
    hide Run, Wrap32;
    RunsKeep(inputs, ss, k);
    var s := ss[k];
    if s.readerPc == Access {
      assert Next(inputs, s, s.(num := inputs[s.i], readerPc := Post));
    } else if s.readerPc == Post {
      assert Next(inputs, s, s.(one := s.one + 1, readerPc := Wait, i := s.i + 1));
    } else if s.accuPc == Access {
      assert Next(inputs, s, s.(sum := Wrap32(s.sum as int + s.num as int), accuPc := Post));
    } else if s.accuPc == Post {
      assert Next(inputs, s, s.(two := s.two + 1, accuPc := Wait, j := s.j + 1));
    } else if s.one > 0 {
      assert Next(inputs, s, s.(one := s.one - 1, accuPc := Access));
    } else {
      assert Next(inputs, s, s.(two := s.two - 1, readerPc := Access));
    }
  }

  /** Every run takes exactly `6N` steps to finish, and then the printed sum is that of all inputs. */
  lemma {:induction false} RunsEndWithTheSum(inputs: seq<int32>, ss: seq<State>)
    requires Run(inputs, ss)
    ensures |ss| <= 6 * |inputs| + 1
    ensures ss[|ss| - 1].i == ss[|ss| - 1].j == |inputs| <==> |ss| == 6 * |inputs| + 1
    ensures |ss| == 6 * |inputs| + 1 ==> ss[|ss| - 1].sum == Wrap32(Sum(inputs))
  {
    hide Wrap32;
    var last := |ss| - 1;
    StepsAreCounted(inputs, ss, last);
    RunsKeep(inputs, ss, last);
    assert inputs[..|inputs|] == inputs;
  }

  lemma {:induction false} StepsAreCounted(inputs: seq<int32>, ss: seq<State>, k: nat)
    requires Run(inputs, ss) && k < |ss|
    ensures Taken(ss[k]) == k
  {
    hide Wrap32;
    if k > 0 {
      StepsAreCounted(inputs, ss, k - 1);
      assert Next(inputs, ss[k - 1], ss[k - 1 + 1]);
    }
  }

  // What can happen.

  /** A thread with a round left waits only for its own semaphore, whatever the other thread is doing. */
  lemma ThreadsWaitOnlyForTheirSemaphores(inputs: seq<int32>, s: State)
    ensures s.i < |inputs| ==> ((s.readerPc == Wait ==> s.two > 0) <==> exists s' :: ReaderStep(inputs, s, s'))
    ensures s.j < |inputs| ==> ((s.accuPc == Wait ==> s.one > 0) <==> exists s' :: AccuStep(inputs, s, s'))
    ensures forall s' :: ReaderStep(inputs, s, s') || AccuStep(inputs, s, s') ==> Next(inputs, s, s')
  {
    if s.i < |inputs| && (s.readerPc == Wait ==> s.two > 0) {
      var s' := match s.readerPc
        case Wait => s.(two := s.two - 1, readerPc := Access)
        case Access => s.(num := inputs[s.i], readerPc := Post)
        case Post => s.(one := s.one + 1, readerPc := Wait, i := s.i + 1);
      assert ReaderStep(inputs, s, s');
    }
    if s.j < |inputs| && (s.accuPc == Wait ==> s.one > 0) {
      var s' := match s.accuPc
        case Wait => s.(one := s.one - 1, accuPc := Access)
        case Access => s.(sum := Wrap32(s.sum as int + s.num as int), accuPc := Post)
        case Post => s.(two := s.two + 1, accuPc := Wait, j := s.j + 1);
      assert AccuStep(inputs, s, s');
    }
  }

  /** A run that ends, from any value of the shared variable. */
  lemma {:induction false} ARunEnds(inputs: seq<int32>, num: int32) returns (ss: seq<State>)
    ensures Run(inputs, ss) && ss[0] == State(0, 1, num, Wait, 0, Wait, 0, 0) && ss[|ss| - 1].i == ss[|ss| - 1].j == |inputs|
  {
    hide Next;
    ss := [State(0, 1, num, Wait, 0, Wait, 0, 0)];
    while !(ss[|ss| - 1].i == ss[|ss| - 1].j == |inputs|)
      invariant Run(inputs, ss) && ss[0] == State(0, 1, num, Wait, 0, Wait, 0, 0)
      decreases 6 * |inputs| + 1 - |ss|
    {
      UnfinishedGoesOn(inputs, ss, |ss| - 1);
      var s' :| Next(inputs, ss[|ss| - 1], s');
      ghost var longer := ss + [s'];
      forall t | 0 <= t < |longer| - 1 ensures Next(inputs, longer[t], longer[t + 1]) {
        if t < |ss| - 1 {
          assert Next(inputs, ss[t], ss[t + 1]);
        }
      }
      ss := longer;
      RunsEndWithTheSum(inputs, ss);
    }
  }
}
