/**
 The periodic branch of `scriptCheckpoints` in `configs/common/Simulation.py`, run against an
 arbitrary simulator: each call to `simulate` may reach its limit, stop early at a checkpoint
 instruction, or exit for any other reason. A negative number of ticks is refused with an
 exception, which ends the script.
 */
module ScriptCheckpoints {

  datatype Cause = LimitReached | CheckpointInst | OtherExit

  /** One answer of the simulator; `elapsed` says how far it got when it stopped early. */
  datatype Answer = Answer(cause: Cause, elapsed: nat)

  datatype Options = Options(first: int, period: int, maxCheckpoints: int, maxTick: int)

  function Max(a: int, b: int): int {
    if a < b then b else a
  }

  function Min(a: int, b: int): int {
    if a < b then a else b
  }

  /** The tick of checkpoint `k`, counting from 0. */
  function Due(o: Options, k: int): int {
    o.first + k * o.period
  }

  // ----- How many checkpoints the answers lead to -----

  /** The answers left after those that only report a checkpoint instruction. */
  function AfterCheckpointInsts(answers: seq<Answer>): (rest: seq<Answer>)
    ensures |rest| <= |answers| && (rest != [] ==> !rest[0].cause.CheckpointInst?)
  {
    if answers != [] && answers[0].cause.CheckpointInst? then AfterCheckpointInsts(answers[1..]) else answers
  }

  predicate ReachesLimit(answers: seq<Answer>) {
    answers != [] && answers[0].cause.LimitReached?
  }

  /** The main loop, entered with `n` checkpoints written. */
  function CountFrom(o: Options, answers: seq<Answer>, n: nat): nat
    decreases |answers|
  {
    if n >= o.maxCheckpoints || Due(o, n) > o.maxTick || o.period < 0 || answers == [] then n
    else
      match answers[0].cause
      case LimitReached => CountFrom(o, answers[1..], n + 1)
      case OtherExit => n
      case CheckpointInst => if ReachesLimit(AfterCheckpointInsts(answers)) then n + 1 else n
  }

  function Count(o: Options, answers: seq<Answer>): nat {
    var rest := AfterCheckpointInsts(answers);
    if ReachesLimit(rest) then CountFrom(o, rest[1..], 1) else 0
  }

  lemma {:induction false} CountFromBounds(o: Options, answers: seq<Answer>, n: nat)
    requires 1 <= n && (n <= o.maxCheckpoints || n == 1) && (n == 1 || Due(o, n - 1) <= o.maxTick)
    ensures var c := CountFrom(o, answers, n);
            n <= c <= Max(1, o.maxCheckpoints) && (c == 1 || Due(o, c - 1) <= o.maxTick)
    decreases |answers|
  {
    if n < o.maxCheckpoints && Due(o, n) <= o.maxTick && answers != [] && answers[0].cause.LimitReached? {
      CountFromBounds(o, answers[1..], n + 1);
    }
  }

  /** Never more than asked for, and none but the first beyond the last tick. */
  lemma CountBounds(o: Options, answers: seq<Answer>)
    ensures Count(o, answers) <= Max(1, o.maxCheckpoints)
    ensures Count(o, answers) > 1 ==> Due(o, Count(o, answers) - 1) <= o.maxTick
  {
    var rest := AfterCheckpointInsts(answers);
    if ReachesLimit(rest) {
      CountFromBounds(o, rest[1..], 1);
    }
  }

  ghost predicate AllReachLimit(answers: seq<Answer>) {
    forall i :: 0 <= i < |answers| ==> answers[i].cause.LimitReached?
  }

  /** How many checkpoints fit. */
  function Wanted(o: Options): int
    requires o.period > 0
  {
    Min(o.maxCheckpoints, (o.maxTick - o.first) / o.period + 1)
  }

  lemma DueWithin(o: Options, n: int)
    requires o.period > 0
    ensures Due(o, n) <= o.maxTick <==> n <= (o.maxTick - o.first) / o.period
  {
    var span := o.maxTick - o.first;
    var q := span / o.period;
    assert q * o.period <= span < q * o.period + o.period;
    if n <= q {
      assert n * o.period <= q * o.period;
    } else {
      assert n * o.period >= (q + 1) * o.period;
    }
  }

  /** Of `answers`, all before number `m` are limits and number `m` is one when checkpoint instructions are passed over. */
  ghost predicate SeriesReaches(answers: seq<Answer>, m: nat) {
    m == 0 ||
    (&& |answers| >= m
     && (forall k :: 0 <= k < m - 1 ==> answers[k].cause.LimitReached?)
     && ReachesLimit(AfterCheckpointInsts(answers[m - 1..])))
  }

  lemma SeriesTail(answers: seq<Answer>, m: nat)
    requires answers != [] && answers[0].cause.LimitReached? && m > 0
    ensures SeriesReaches(answers, m) <==> SeriesReaches(answers[1..], m - 1)
  {
    if m == 1 {
      assert answers[0..] == answers;
    } else if |answers| >= m {
      assert answers[m - 1..] == answers[1..][m - 2..];
      assert forall k :: 0 <= k < m - 2 ==> answers[1..][k] == answers[k + 1];
      assert forall k :: 1 <= k < m - 1 ==> answers[k] == answers[1..][k - 1];
    }
  }

  lemma {:induction false} CountFromExactly(o: Options, answers: seq<Answer>, n: nat)
    requires o.period > 0 && 1 <= n <= Wanted(o)
    ensures CountFrom(o, answers, n) == Wanted(o) <==> SeriesReaches(answers, Wanted(o) - n)
    decreases |answers|
  {
    DueWithin(o, n);
    if n < Wanted(o) && answers != [] {
      if answers[0].cause.LimitReached? {
        CountFromExactly(o, answers[1..], n + 1);
        SeriesTail(answers, Wanted(o) - n);
      } else {
        assert answers[0..] == answers;
      }
    }
  }

  /**
   All checkpoints that fit are written exactly when the first target is reached, checkpoint
   instructions or not, every further period but the last runs to its limit without one, and the
   last period reaches its limit, checkpoint instructions or not.
   */
  lemma AllWrittenExactly(o: Options, answers: seq<Answer>)
    requires o.period > 0 && o.maxCheckpoints >= 1 && o.first <= o.maxTick
    ensures var rest := AfterCheckpointInsts(answers);
            Wanted(o) >= 1
            && (Count(o, answers) == Wanted(o) <==> ReachesLimit(rest) && SeriesReaches(rest[1..], Wanted(o) - 1))
  {
    DueWithin(o, 0);
    var rest := AfterCheckpointInsts(answers);
    if ReachesLimit(rest) {
      CountFromExactly(o, rest[1..], 1);
    }
  }

  /** In particular, if every call reaches its limit, exactly as many checkpoints as fit are written. */
  lemma AllCheckpointsWritten(o: Options, answers: seq<Answer>)
    requires AllReachLimit(answers) && o.period > 0 && o.maxCheckpoints >= 1 && o.first <= o.maxTick
    requires |answers| >= Wanted(o)
    ensures Count(o, answers) == Wanted(o) && Wanted(o) >= 1
  {
    AllWrittenExactly(o, answers);
    assert AfterCheckpointInsts(answers) == answers;
    var m := Wanted(o) - 1;
    if m > 0 {
      assert answers[1..][m - 1] == answers[m];
    }
  }

  lemma {:induction false} CountFromStops(o: Options, answers: seq<Answer>, n: nat, k: nat)
    requires o.period > 0 && 1 <= n && k < |answers| && n + k < Wanted(o)
    requires (forall j :: 0 <= j < k ==> answers[j].cause.LimitReached?) && answers[k].cause.CheckpointInst?
    ensures CountFrom(o, answers, n) == n + k + if ReachesLimit(AfterCheckpointInsts(answers[k..])) then 1 else 0
    decreases k
  {
    DueWithin(o, n);
    if k == 0 {
      assert answers[0..] == answers;
    } else {
      CountFromStops(o, answers[1..], n + 1, k - 1);
      assert answers[1..][k - 1..] == answers[k..];
    }
  }

  /**
   A checkpoint instruction in period `k` ends the series there: the checkpoint of that period is
   written if its limit is still reached, and none after it, whatever the simulator does afterwards.
   */
  lemma CheckpointInstEndsSeries(o: Options, answers: seq<Answer>, k: nat)
    requires o.period > 0 && 1 <= k < Wanted(o)
    requires var rest := AfterCheckpointInsts(answers);
             && k < |rest| && rest[k].cause.CheckpointInst?
             && forall j :: 0 <= j < k ==> rest[j].cause.LimitReached?
    ensures var period := AfterCheckpointInsts(AfterCheckpointInsts(answers)[k..]);
            Count(o, answers) == if ReachesLimit(period) then k + 1 else k
  {
    var rest := AfterCheckpointInsts(answers);
    CountFromStops(o, rest[1..], 1, k - 1);
    assert rest[1..][k - 1..] == rest[k..];
  }

  /** One such instruction is enough to lose checkpoints that otherwise fit. */
  lemma CheckpointsLost(o: Options, rest: seq<Answer>)
    requires o.period > 0 && o.first <= o.maxTick && Wanted(o) >= 3 && AllReachLimit(rest) && |rest| >= Wanted(o)
    ensures var stop, limit := Answer(CheckpointInst, 1), Answer(LimitReached, 0);
            Count(o, [limit, stop] + rest) == 2 < Wanted(o) == Count(o, [limit] + rest)
  {
    var stop, limit := Answer(CheckpointInst, 1), Answer(LimitReached, 0);
    DueWithin(o, 1);
    AllCheckpointsWritten(o, [limit] + rest);
    var answers := [limit, stop] + rest;
    assert answers[1..] == [stop] + rest && ([stop] + rest)[1..] == rest;
    assert AfterCheckpointInsts([stop] + rest) == AfterCheckpointInsts(rest) == rest;
  }

  // ----- The script against the simulator -----

  class Simulator {
    const answers: seq<Answer>
    var asked: nat
    var curTick: int
    /** The ticks at which checkpoints have been written. */
    var written: seq<int>

    constructor (answers: seq<Answer>, curTick: int)
      ensures this.answers == answers && asked == 0 && this.curTick == curTick && written == []
    {
      this.answers, asked, this.curTick, written := answers, 0, curTick, [];
    }

    ghost predicate Valid()
      reads this
    {
      asked <= |answers|
    }

    ghost function Left(): seq<Answer>
      requires Valid()
      reads this
    {
      answers[asked..]
    }

    /**
     Runs for at most `ticks`. Reaching the limit means having advanced by exactly `ticks`;
     an early exit leaves the clock at or before the limit. The script does not go on, `over`,
     when `ticks` is negative, or when the observation ends with no answer left.
     */
    method Simulate(ticks: int) returns (over: bool, cause: Cause)
      requires Valid()
      modifies this`asked, this`curTick
      ensures Valid() && (over <==> ticks < 0 || old(Left()) == [])
      ensures over ==> curTick == old(curTick) && Left() == old(Left())
      ensures !over ==> cause == old(Left())[0].cause && Left() == old(Left())[1..]
      ensures !over && cause.LimitReached? ==> curTick == old(curTick) + ticks
      ensures !over && !cause.LimitReached? ==> old(curTick) <= curTick <= old(curTick) + ticks
    {
      over, cause := ticks < 0 || asked == |answers|, OtherExit;
      if !over {
        var a := answers[asked];
        cause := a.cause;
        curTick := curTick + if cause.LimitReached? then ticks else Min(a.elapsed, ticks);
        asked := asked + 1;
      }
    }

    method WriteCheckpoint()
      modifies this`written
      ensures written == old(written) + [curTick]
    {
      written := written + [curTick];
    }

    /** Simulates up to tick `target`, going on after every checkpoint instruction. */
    method SimulateTo(target: int) returns (over: bool, cause: Cause)
      requires Valid()
      modifies this`asked, this`curTick
      ensures Valid() && (over <==> target < old(curTick) || AfterCheckpointInsts(old(Left())) == [])
      ensures !over ==>
                var rest := AfterCheckpointInsts(old(Left()));
                cause == rest[0].cause && Left() == rest[1..]
      ensures !over && cause.LimitReached? ==> curTick == target
      ensures |Left()| <= |old(Left())|
    {
      ghost var before := Left();
      over, cause := Simulate(target - curTick);
      while !over && cause.CheckpointInst?
        invariant Valid() && |Left()| <= |before| <= |old(Left())|
        invariant over <==> target < old(curTick) || before == []
        invariant AfterCheckpointInsts(before) == AfterCheckpointInsts(old(Left()))
        invariant !over ==> curTick <= target && cause == before[0].cause && Left() == before[1..]
        invariant !over && cause.LimitReached? ==> curTick == target
        decreases |before|
      {
        before := Left();
        over, cause := Simulate(target - curTick);
      }
    }

    method TakeCheckpoints(o: Options)
      requires Valid() && written == []
      modifies this
      ensures |written| == if old(curTick) <= o.first then Count(o, old(Left())) else 0
      ensures forall k :: 0 <= k < |written| ==> written[k] == Due(o, k)
    {
      var over, exitCause := SimulateTo(o.first);
      if over || !exitCause.LimitReached? {
        return;
      }
      WriteCheckpoint();
      PeriodicCheckpoints(o);
    }

    /** The main loop; `exitCause` is what the first call of each period returned. */
    method PeriodicCheckpoints(o: Options)
      requires Valid() && curTick == o.first && written == [o.first]
      modifies this
      ensures |written| == CountFrom(o, old(Left()), 1)
      ensures forall k :: 0 <= k < |written| ==> written[k] == Due(o, k)
    {
      var simTicks := o.first;
      var exitCause := LimitReached;
      while |written| < o.maxCheckpoints && exitCause.LimitReached?
        invariant Valid() && |written| >= 1
        invariant forall k :: 0 <= k < |written| ==> written[k] == Due(o, k)
        invariant exitCause.LimitReached? ==> curTick == simTicks == Due(o, |written| - 1)
        invariant exitCause.LimitReached? ==> CountFrom(o, old(Left()), 1) == CountFrom(o, Left(), |written|)
        invariant !exitCause.LimitReached? ==> CountFrom(o, old(Left()), 1) == |written|
        decreases |Left()|, exitCause.LimitReached?
      {
        assert Due(o, |written|) == simTicks + o.period;
        if simTicks + o.period > o.maxTick {
          var _, _ := Simulate(o.maxTick - simTicks);
          return;
        }
        ghost var left := Left();
        var over, cause := Simulate(o.period);
        if over {
          return;
        }
        exitCause := cause;
        simTicks := simTicks + o.period;
        if cause.CheckpointInst? {
          assert AfterCheckpointInsts(left) == AfterCheckpointInsts(Left());
          over, cause := SimulateTo(simTicks);
        }
        if !over && cause.LimitReached? {
          WriteCheckpoint();
        }
      }
    }
  }
}
