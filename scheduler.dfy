/**
 * The multilevel feedback queue scheduler: a list of FIFO levels, each with
 * its own quantum, the quantum doubling from one level to the next.  A
 * thread goes into the first level whose quantum exceeds its predicted burst
 * and the next thread to run comes from the lowest non-empty level.  Threads
 * carry the tick counters the scheduler and the sleep call update.
 *
 * The predicted burst is an exponential average of doubles kept by the
 * operator; here it is an input of type `real`.
 */
module Scheduler {
  import opened JavaTypes

  /** A user thread's scheduling state. */
  class SubNachosThread {
    var remainingTicks: int32
    var queueIndex: int32
    var sleepTicks: int32
    var wakeupFlag: bool
    var exitFlag: bool
    var alreadyLoadedFlag: bool

    constructor()
      ensures remainingTicks == 100 && queueIndex == 0 && sleepTicks == 0
      ensures !wakeupFlag && !exitFlag && !alreadyLoadedFlag
    {
      remainingTicks := 100;
      queueIndex := 0;
      sleepTicks := 0;
      wakeupFlag := false;
      exitFlag := false;
      alreadyLoadedFlag := false;
    }

    /** The quantum is used up: with `TicksRunOut`, after exactly `q / 100` ticks of a quantum `q`. */
    predicate IsRemainingTicksZero(): (r: bool)
      reads this
      ensures r <==> remainingTicks as int == 0
    {
      remainingTicks == 0
    }

    /** The sleep is over: with `TicksRunOut`, from `ceil(s / 100)` ticks of a sleep of `s` on. */
    predicate IsSleepTicksBelowZero(): (r: bool)
      reads this
      ensures r <==> sleepTicks as int <= 0
    {
      sleepTicks <= 0
    }

    /** One timer tick of 100 used from the quantum. */
    method DecrementRemainingTicks()
      modifies this
      ensures remainingTicks == Ticked(old(remainingTicks), 1)
      ensures queueIndex == old(queueIndex) && sleepTicks == old(sleepTicks)
      ensures wakeupFlag == old(wakeupFlag) && exitFlag == old(exitFlag) && alreadyLoadedFlag == old(alreadyLoadedFlag)
    {
      remainingTicks := Wrap32(remainingTicks - 100);
    }

    method ResetRemainingTicks(num: int32)
      modifies this
      ensures remainingTicks == num
      ensures queueIndex == old(queueIndex) && sleepTicks == old(sleepTicks)
      ensures wakeupFlag == old(wakeupFlag) && exitFlag == old(exitFlag) && alreadyLoadedFlag == old(alreadyLoadedFlag)
    {
      remainingTicks := num;
    }

    /** The argument-less reset: a fresh quantum of 800. */
    method ResetRemainingTicksDefault()
      modifies this
      ensures remainingTicks == 800
      ensures queueIndex == old(queueIndex) && sleepTicks == old(sleepTicks)
      ensures wakeupFlag == old(wakeupFlag) && exitFlag == old(exitFlag) && alreadyLoadedFlag == old(alreadyLoadedFlag)
    {
      remainingTicks := 800;
    }

    method SetQueueIndex(num: int32)
      modifies this
      ensures queueIndex == num
      ensures remainingTicks == old(remainingTicks) && sleepTicks == old(sleepTicks)
      ensures wakeupFlag == old(wakeupFlag) && exitFlag == old(exitFlag) && alreadyLoadedFlag == old(alreadyLoadedFlag)
    {
      queueIndex := num;
    }

    method SetSleepTicks(num: int32)
      modifies this
      ensures sleepTicks == num
      ensures remainingTicks == old(remainingTicks) && queueIndex == old(queueIndex)
      ensures wakeupFlag == old(wakeupFlag) && exitFlag == old(exitFlag) && alreadyLoadedFlag == old(alreadyLoadedFlag)
    {
      sleepTicks := num;
    }

    /** One timer tick of 100 slept. */
    method DecrementSleepTicks()
      modifies this
      ensures sleepTicks == Ticked(old(sleepTicks), 1)
      ensures remainingTicks == old(remainingTicks) && queueIndex == old(queueIndex)
      ensures wakeupFlag == old(wakeupFlag) && exitFlag == old(exitFlag) && alreadyLoadedFlag == old(alreadyLoadedFlag)
    {
      sleepTicks := Wrap32(sleepTicks - 100);
    }

    method SetWakeupFlag()
      modifies this
      ensures wakeupFlag
      ensures remainingTicks == old(remainingTicks) && queueIndex == old(queueIndex) && sleepTicks == old(sleepTicks)
      ensures exitFlag == old(exitFlag) && alreadyLoadedFlag == old(alreadyLoadedFlag)
    {
      wakeupFlag := true;
    }

    method ResetWakeupFlag()
      modifies this
      ensures !wakeupFlag
      ensures remainingTicks == old(remainingTicks) && queueIndex == old(queueIndex) && sleepTicks == old(sleepTicks)
      ensures exitFlag == old(exitFlag) && alreadyLoadedFlag == old(alreadyLoadedFlag)
    {
      wakeupFlag := false;
    }

    method SetExitFlag()
      modifies this
      ensures exitFlag
      ensures remainingTicks == old(remainingTicks) && queueIndex == old(queueIndex) && sleepTicks == old(sleepTicks)
      ensures wakeupFlag == old(wakeupFlag) && alreadyLoadedFlag == old(alreadyLoadedFlag)
    {
      exitFlag := true;
    }

    method SetAlreadyLoadedFlag()
      modifies this
      ensures alreadyLoadedFlag
      ensures remainingTicks == old(remainingTicks) && queueIndex == old(queueIndex) && sleepTicks == old(sleepTicks)
      ensures wakeupFlag == old(wakeupFlag) && exitFlag == old(exitFlag)
    {
      alreadyLoadedFlag := true;
    }
  }

  /** A tick counter after `n` ticks of 100, with Java's wrap-around. */
  function Ticked(r: int32, n: nat): int32
  {
    if n == 0 then r else Wrap32(Ticked(r, n - 1) - 100)
  }

  /** Without wrap-around, `n` ticks take exactly `100 n` off the counter. */
  lemma {:induction false} TickedLinear(r: int32, n: nat)
    requires r as int - 100 * n >= Int32Min
    ensures Ticked(r, n) == r as int - 100 * n
  {
    if n > 0 {
      TickedLinear(r, n - 1);
    }
  }

  /**
   * A quantum that is a multiple of 100 runs out after exactly `q / 100`
   * ticks, and the sleep counter is at or below zero from `ceil(s / 100)`
   * ticks on.
   */
  lemma TicksRunOut(q: int32, n: nat)
    requires 0 <= q && n <= q as int / 100 + 1
    ensures q % 100 == 0 ==> (Ticked(q, n) == 0 <==> n == q as int / 100)
    ensures Ticked(q, n) <= 0 <==> 100 * n >= q as int
  {
    TickedLinear(q, n);
  }

  // ---------------------------------------------------------------------
  // The levels.

  /** A level: its FIFO queue of threads and its quantum. */
  datatype Level = Level(queue: seq<SubNachosThread>, quantum: int32)

  function Pow2(i: nat): (r: nat)
    ensures r >= 1
  {
    if i == 0 then 1 else 2 * Pow2(i - 1)
  }

  /** Quantum of level `i`: `base * 2^i`, wrapped as the repeated `int` doubling wraps it. */
  function Quantum(base: int32, i: nat): int32
  {
    Wrap32(base as int * Pow2(i))
  }

  /** The constructor's doubling yields the closed form: level i+1 has twice level i's quantum. */
  lemma QuantumDoubles(base: int32, i: nat)
    ensures Quantum(base, i + 1) == Wrap32(2 * Quantum(base, i))
  {
    Wrap32Double(base as int * Pow2(i));
    assert base as int * Pow2(i + 1) == 2 * (base as int * Pow2(i));
  }

  /** Powers of two grow: a higher power is at least twice a lower one. */
  lemma {:induction false} Pow2Grows(i: nat, j: nat)
    requires i < j
    ensures 2 * Pow2(i) <= Pow2(j)
  {
    if j > i + 1 {
      Pow2Grows(i, j - 1);
    }
  }

  lemma MulMonotone(a: int, x: int, y: int)
    requires 0 < a && x < y
    ensures a * x < a * y
  {
    assert a * y - a * x == a * (y - x);
  }

  /** With a positive base and no overflow, the quanta increase strictly with the level. */
  lemma QuantaIncrease(base: int32, i: nat, j: nat)
    requires 0 < base && i < j && base as int * Pow2(j) <= Int32Max
    ensures 0 < Quantum(base, i) < Quantum(base, j)
    ensures Quantum(base, j) == base as int * Pow2(j)
  {
    Pow2Grows(i, j);
    MulMonotone(base as int, Pow2(i), Pow2(j));
    MulMonotone(base as int, 0, Pow2(i));
  }

  /** The lowest level whose quantum is strictly greater than the estimate. */
  function FirstFit(levels: seq<Level>, estimate: real): (r: Option<nat>)
    ensures r.Some? ==> r.value < |levels| && estimate < levels[r.value].quantum as real
                        && forall j :: 0 <= j < r.value ==> levels[j].quantum as real <= estimate
    ensures r.None? ==> forall j :: 0 <= j < |levels| ==> levels[j].quantum as real <= estimate
    decreases |levels|
  {
    if levels == [] then None
    else if estimate < levels[0].quantum as real then Some(0)
    else match FirstFit(levels[1..], estimate)
      case None => None
      case Some(i) => Some(i + 1)
  }

  /** A larger estimate never lands on a lower level. */
  lemma FirstFitMonotone(levels: seq<Level>, e1: real, e2: real)
    requires e1 <= e2
    ensures FirstFit(levels, e2).Some? ==>
              FirstFit(levels, e1).Some? && FirstFit(levels, e1).value <= FirstFit(levels, e2).value
  {
  }

  /** The lowest level whose queue is not empty. */
  function FirstNonEmpty(levels: seq<Level>): (r: Option<nat>)
    ensures r.Some? ==> r.value < |levels| && levels[r.value].queue != []
                        && forall j :: 0 <= j < r.value ==> levels[j].queue == []
    ensures r.None? ==> forall j :: 0 <= j < |levels| ==> levels[j].queue == []
    decreases |levels|
  {
    if levels == [] then None
    else if levels[0].queue != [] then Some(0)
    else match FirstNonEmpty(levels[1..])
      case None => None
      case Some(i) => Some(i + 1)
  }

  /** `offer`: append a thread to level `i`, behind the threads already waiting there. */
  function Offer(levels: seq<Level>, i: nat, t: SubNachosThread): (r: seq<Level>)
    requires i < |levels|
    ensures |r| == |levels| && forall j :: 0 <= j < |r| && j != i ==> r[j] == levels[j]
    ensures r[i].quantum == levels[i].quantum
    ensures |r[i].queue| == |levels[i].queue| + 1 && r[i].queue[|levels[i].queue|] == t
    ensures r[i].queue[..|levels[i].queue|] == levels[i].queue
  {
    levels[i := Level(levels[i].queue + [t], levels[i].quantum)]
  }

  /** `poll`: drop the head of level `i`, the thread that has waited there longest. */
  function Poll(levels: seq<Level>, i: nat): (r: seq<Level>)
    requires i < |levels| && levels[i].queue != []
    ensures |r| == |levels| && forall j :: 0 <= j < |r| && j != i ==> r[j] == levels[j]
    ensures r[i].quantum == levels[i].quantum
    ensures levels[i].queue == [levels[i].queue[0]] + r[i].queue
  {
    levels[i := Level(levels[i].queue[1..], levels[i].quantum)]
  }

  /** Every thread in every level, with multiplicity. */
  function Threads(levels: seq<Level>): multiset<SubNachosThread>
    decreases |levels|
  {
    if levels == [] then multiset{} else Threads(levels[..|levels| - 1]) + multiset(levels[|levels| - 1].queue)
  }

  /** Replacing one level's queue by one that holds `extra` more threads adds exactly `extra`. */
  lemma {:induction false} ThreadsUpdate(levels: seq<Level>, i: nat, l: Level, extra: multiset<SubNachosThread>)
    requires i < |levels| && multiset(l.queue) == multiset(levels[i].queue) + extra
    ensures Threads(levels[i := l]) == Threads(levels) + extra
    decreases |levels|
  {
    var n := |levels| - 1;
    var updated := levels[i := l];
    assert Threads(updated) == Threads(updated[..n]) + multiset(updated[n].queue);
    assert Threads(levels) == Threads(levels[..n]) + multiset(levels[n].queue);
    if i < n {
      ThreadsUpdate(levels[..n], i, l, extra);
      assert updated[..n] == levels[..n][i := l];
      assert updated[n] == levels[n] && levels[..n][i] == levels[i];
    } else {
      assert updated[..n] == levels[..n];
    }
  }

  /** Offering adds exactly the thread; the quanta are kept. */
  lemma OfferAdds(levels: seq<Level>, i: nat, t: SubNachosThread)
    requires i < |levels|
    ensures Threads(Offer(levels, i, t)) == Threads(levels) + multiset{t}
    ensures |Offer(levels, i, t)| == |levels|
    ensures forall j :: 0 <= j < |levels| ==> Offer(levels, i, t)[j].quantum == levels[j].quantum
  {
    var q := levels[i].queue;
    assert multiset(q + [t]) == multiset(q) + multiset{t};
    ThreadsUpdate(levels, i, Level(q + [t], levels[i].quantum), multiset{t});
  }

  /** Polling removes exactly the head; the quanta are kept. */
  lemma PollRemoves(levels: seq<Level>, i: nat)
    requires i < |levels| && levels[i].queue != []
    ensures Threads(Poll(levels, i)) + multiset{levels[i].queue[0]} == Threads(levels)
    ensures |Poll(levels, i)| == |levels|
    ensures forall j :: 0 <= j < |levels| ==> Poll(levels, i)[j].quantum == levels[j].quantum
  {
    var q := levels[i].queue;
    var polled := Poll(levels, i);
    assert q == [q[0]] + q[1..];
    assert multiset(q) == multiset(q[1..]) + multiset{q[0]};
    ThreadsUpdate(polled, i, levels[i], multiset{q[0]});
    assert polled[i := levels[i]] == levels;
  }

  /** A thread offered to an idle scheduler is the next one chosen, and choosing it restores the scheduler. */
  lemma OfferThenPoll(levels: seq<Level>, i: nat, t: SubNachosThread)
    requires i < |levels| && FirstNonEmpty(levels).None?
    ensures FirstNonEmpty(Offer(levels, i, t)) == Some(i)
    ensures Offer(levels, i, t)[i].queue[0] == t
    ensures Poll(Offer(levels, i, t), i) == levels
  {
    assert levels[i].queue == [];
    assert Poll(Offer(levels, i, t), i)[i] == levels[i];
  }

  // ---------------------------------------------------------------------
  // The operator.

  class MultilevelQueueOperator {
    var multilevelQueue: seq<Level>
    /** The thread last chosen by `searchNextThread`. */
    var nextThread: Option<SubNachosThread>

    /** A Java list holds at most `Integer.MAX_VALUE` levels. */
    predicate Valid()
      reads this
    {
      |multilevelQueue| <= Int32Max
    }

    /** `numQueues` empty levels, level 0 with `baseQuantum`, each next one with twice the previous quantum. */
    constructor(numQueues: int32, baseQuantum: int32)
      requires numQueues >= 0
      ensures Valid()
      ensures |multilevelQueue| == numQueues as int
      ensures forall i :: 0 <= i < |multilevelQueue| ==>
                multilevelQueue[i].queue == [] && multilevelQueue[i].quantum == Quantum(baseQuantum, i)
      ensures nextThread == None
    {
      var levels: seq<Level> := [];
      var i: int32 := 0;
      while i < numQueues
        invariant 0 <= i <= numQueues && |levels| == i as int
        invariant forall j :: 0 <= j < |levels| ==> levels[j].queue == [] && levels[j].quantum == Quantum(baseQuantum, j)
      {
        if i == 0 {
          levels := levels + [Level([], baseQuantum)];
        } else {
          QuantumDoubles(baseQuantum, i as nat - 1);
          levels := levels + [Level([], Wrap32(2 * levels[i - 1].quantum as int))];
        }
        i := i + 1;
      }
      multilevelQueue := levels;
      nextThread := None;
    }

    /** The first-fit loop shared by `pickPriorityQueueAndInsert` and `insertQueue`. */
    method OfferFirstFit(thread: SubNachosThread, estimate: real) returns (placed: Option<nat>)
      requires Valid()
      modifies this, thread
      ensures Valid()
      ensures placed == FirstFit(old(multilevelQueue), estimate)
      ensures placed.None? ==> multilevelQueue == old(multilevelQueue)
                               && thread.queueIndex == old(thread.queueIndex)
                               && thread.remainingTicks == old(thread.remainingTicks)
      ensures placed.Some? ==> multilevelQueue == Offer(old(multilevelQueue), placed.value, thread)
                               && thread.queueIndex as int == placed.value
                               && thread.remainingTicks == old(multilevelQueue)[placed.value].quantum
      ensures nextThread == old(nextThread)
      ensures thread.sleepTicks == old(thread.sleepTicks) && thread.wakeupFlag == old(thread.wakeupFlag)
      ensures thread.exitFlag == old(thread.exitFlag) && thread.alreadyLoadedFlag == old(thread.alreadyLoadedFlag)
    {
      var i := 0;
      while i < |multilevelQueue|
        invariant 0 <= i <= |multilevelQueue|
        invariant multilevelQueue == old(multilevelQueue) && nextThread == old(nextThread)
        invariant forall j :: 0 <= j < i ==> multilevelQueue[j].quantum as real <= estimate
        invariant unchanged(thread)
      {
        if estimate < multilevelQueue[i].quantum as real {
          var quantum := multilevelQueue[i].quantum;
          multilevelQueue := Offer(multilevelQueue, i, thread);
          thread.SetQueueIndex(i as int32);
          thread.ResetRemainingTicks(quantum);
          return Some(i);
        }
        i := i + 1;
      }
      return None;
    }

    /**
     * `pickPriorityQueueAndInsert`: with a single level the thread always
     * goes there (round robin); otherwise into the first level whose quantum
     * exceeds the prediction, and nowhere if none does.
     */
    method PickPriorityQueueAndInsert(thread: SubNachosThread, prediction: real) returns (placed: Option<nat>)
      requires Valid()
      modifies this, thread
      ensures Valid()
      ensures placed == if |old(multilevelQueue)| == 1 then Some(0) else FirstFit(old(multilevelQueue), prediction)
      ensures placed.None? ==> multilevelQueue == old(multilevelQueue)
                               && thread.queueIndex == old(thread.queueIndex)
                               && thread.remainingTicks == old(thread.remainingTicks)
      ensures placed.Some? ==> multilevelQueue == Offer(old(multilevelQueue), placed.value, thread)
                               && thread.queueIndex as int == placed.value
                               && thread.remainingTicks == old(multilevelQueue)[placed.value].quantum
      ensures nextThread == old(nextThread)
      ensures thread.sleepTicks == old(thread.sleepTicks) && thread.wakeupFlag == old(thread.wakeupFlag)
      ensures thread.exitFlag == old(thread.exitFlag) && thread.alreadyLoadedFlag == old(thread.alreadyLoadedFlag)
    {
      if |multilevelQueue| == 1 {
        var quantum := multilevelQueue[0].quantum;
        multilevelQueue := Offer(multilevelQueue, 0, thread);
        thread.SetQueueIndex(0);
        thread.ResetRemainingTicks(quantum);
        return Some(0);
      }
      placed := OfferFirstFit(thread, prediction);
    }

    /** `insertQueue`: first fit by the caller's estimate, with no single-level case. */
    method InsertQueue(thread: SubNachosThread, prevEstimate: real) returns (placed: Option<nat>)
      requires Valid()
      modifies this, thread
      ensures Valid()
      ensures placed == FirstFit(old(multilevelQueue), prevEstimate)
      ensures placed.None? ==> multilevelQueue == old(multilevelQueue)
                               && thread.queueIndex == old(thread.queueIndex)
                               && thread.remainingTicks == old(thread.remainingTicks)
      ensures placed.Some? ==> multilevelQueue == Offer(old(multilevelQueue), placed.value, thread)
                               && thread.queueIndex as int == placed.value
                               && thread.remainingTicks == old(multilevelQueue)[placed.value].quantum
      ensures nextThread == old(nextThread)
      ensures thread.sleepTicks == old(thread.sleepTicks) && thread.wakeupFlag == old(thread.wakeupFlag)
      ensures thread.exitFlag == old(thread.exitFlag) && thread.alreadyLoadedFlag == old(thread.alreadyLoadedFlag)
    {
      placed := OfferFirstFit(thread, prevEstimate);
    }

    /** `searchNextThread`: take the head of the lowest non-empty level; `None` when every level is empty. */
    method SearchNextThread() returns (t: Option<SubNachosThread>)
      requires Valid()
      modifies this
      ensures Valid()
      ensures FirstNonEmpty(old(multilevelQueue)).None? ==>
                t == None && multilevelQueue == old(multilevelQueue) && nextThread == old(nextThread)
      ensures FirstNonEmpty(old(multilevelQueue)).Some? ==>
                var i := FirstNonEmpty(old(multilevelQueue)).value;
                t == Some(old(multilevelQueue)[i].queue[0])
                && multilevelQueue == Poll(old(multilevelQueue), i)
                && nextThread == t
    {
      var i := 0;
      while i < |multilevelQueue|
        invariant 0 <= i <= |multilevelQueue|
        invariant multilevelQueue == old(multilevelQueue) && nextThread == old(nextThread)
        invariant forall j :: 0 <= j < i ==> multilevelQueue[j].queue == []
      {
        if multilevelQueue[i].queue != [] {
          nextThread := Some(multilevelQueue[i].queue[0]);
          multilevelQueue := Poll(multilevelQueue, i);
          return nextThread;
        }
        i := i + 1;
      }
      return None;
    }

    /** `isEmpty` as written: true exactly when some level holds a thread. */
    method IsEmpty() returns (b: bool)
      ensures b <==> FirstNonEmpty(multilevelQueue).Some?
    {
      for i := 0 to |multilevelQueue|
        invariant forall j :: 0 <= j < i ==> multilevelQueue[j].queue == []
      {
        if multilevelQueue[i].queue != [] {
          return true;
        }
      }
      return false;
    }

    /** `isEmpty` as its name and comment intend: true exactly when no level holds a thread. */
    method AllLevelsEmpty() returns (b: bool)
      ensures b <==> Threads(multilevelQueue) == multiset{}
    {
      var some := IsEmpty();
      b := !some;
      NoThreadsIffAllEmpty(multilevelQueue);
    }
  }

  /** No thread in any level exactly when no level is non-empty. */
  lemma NoThreadsIffAllEmpty(levels: seq<Level>)
    ensures Threads(levels) == multiset{} <==> FirstNonEmpty(levels).None?
  {
    match FirstNonEmpty(levels)
    case Some(i) => ThreadsHolds(levels, i);
    case None => AllEmptyNoThreads(levels);
  }

  lemma {:induction false} AllEmptyNoThreads(levels: seq<Level>)
    requires forall j :: 0 <= j < |levels| ==> levels[j].queue == []
    ensures Threads(levels) == multiset{}
    decreases |levels|
  {
    if levels != [] {
      var n := |levels| - 1;
      forall j | 0 <= j < n ensures levels[..n][j].queue == [] {
        assert levels[..n][j] == levels[j];
      }
      AllEmptyNoThreads(levels[..n]);
      assert levels[n].queue == [];
    }
  }

  /** Every queued thread is among `Threads`. */
  lemma {:induction false} ThreadsHolds(levels: seq<Level>, i: nat)
    requires i < |levels| && levels[i].queue != []
    ensures levels[i].queue[0] in Threads(levels)
    decreases |levels|
  {
    var n := |levels| - 1;
    if i < n {
      ThreadsHolds(levels[..n], i);
    } else {
      assert levels[i].queue[0] in multiset(levels[i].queue);
    }
  }
}
