/** UCOSIII/uC-CPU/cpu_core.c: measuring for how long interrupts are disabled. Sections nest, and
    only the outermost ones are timed. */
module InterruptMeasure {
  import opened WordArithmetic
  import opened Timestamps

  /** What happens to the measurement: a section is entered or left when the timer shows cnts, or
      the resettable maximum is reset. */
  datatype Event = Enter(cnts: nat) | Leave(cnts: nat) | Reset

  /** The wrapping difference of two timer values. */
  function Between(start: nat, stop: nat, tmrMod: nat): nat
    requires tmrMod > 0
  {
    (stop - start) % tmrMod
  }

  /** How many sections are open after a trace. */
  function Depth(trace: seq<Event>): int {
    if trace == [] then 0
    else
      var n := |trace| - 1;
      Depth(trace[..n]) + Weight(trace[n])
  }

  /** Section i to j is outermost: nothing is open before it, something is open throughout it, and
      nothing is open after it. */
  ghost predicate Outermost(trace: seq<Event>, i: nat, j: nat) {
    && j < |trace| && OpenFrom(trace, i, j) && trace[j].Leave? && Depth(trace[..j + 1]) == 0
  }

  /** An outermost section was entered at i and is still open before j. */
  ghost predicate OpenFrom(trace: seq<Event>, i: nat, j: nat) {
    && i < j <= |trace| && trace[i].Enter? && Depth(trace[..i]) == 0
    && forall k: nat {:trigger Deep(trace, k)} :: i < k <= j ==> Deep(trace, k)
  }

  /** Some section is open after the first k events. */
  predicate Deep(trace: seq<Event>, k: nat)
    requires k <= |trace|
  {
    Depth(trace[..k]) > 0
  }

  function Duration(trace: seq<Event>, i: nat, j: nat, tmrMod: nat): nat
    requires i < |trace| && j < |trace| && trace[i].Enter? && trace[j].Leave? && tmrMod > 0
  {
    Between(trace[i].cnts, trace[j].cnts, tmrMod)
  }

  /** A section that takes less than one turn of the timer is timed exactly, others without their
      full turns. */
  lemma BetweenIsTime(enter: nat, leave: nat, tmrMod: nat)
    requires tmrMod > 0 && enter <= leave
    ensures Between(TmrRd(enter, tmrMod), TmrRd(leave, tmrMod), tmrMod) == leave - enter - LostIn(leave - enter, tmrMod)
  {
    DeltaIsGap(enter, leave, tmrMod);
  }

  /** x is the longest duration of the outermost sections that ended at from or later, or 0. */
  ghost predicate IsMax(x: nat, trace: seq<Event>, from: nat, tmrMod: nat)
    requires tmrMod > 0
  {
    && (forall i: nat, j: nat {:trigger Outermost(trace, i, j)} ::
          Outermost(trace, i, j) && from <= j ==> Duration(trace, i, j, tmrMod) <= x)
    && (x == 0 || Attained(x, trace, from, tmrMod))
  }

  ghost predicate Attained(x: nat, trace: seq<Event>, from: nat, tmrMod: nat)
    requires tmrMod > 0
  {
    exists i: nat, j: nat :: Outermost(trace, i, j) && from <= j && Duration(trace, i, j, tmrMod) == x
  }

  // ---------------------------------------------------------------- one more event

  function Weight(e: Event): int { match e case Enter(_) => 1 case Leave(_) => -1 case Reset => 0 }

  lemma DepthNext(trace: seq<Event>, e: Event)
    ensures Depth(trace + [e]) == Depth(trace) + Weight(e)
  {
    assert (trace + [e])[..|trace|] == trace;
  }

  lemma PrefixKept(trace: seq<Event>, e: Event, k: nat)
    requires k <= |trace|
    ensures (trace + [e])[..k] == trace[..k]
  {
  }

  lemma OpenKept(trace: seq<Event>, e: Event, i: nat, j: nat)
    requires j <= |trace|
    ensures OpenFrom(trace + [e], i, j) <==> OpenFrom(trace, i, j)
  {
    if i < j {
      PrefixKept(trace, e, i);
      forall k: nat | i < k <= j ensures Deep(trace + [e], k) <==> Deep(trace, k) {
        PrefixKept(trace, e, k);
      }
    }
  }

  lemma OutermostKept(trace: seq<Event>, e: Event, i: nat, j: nat)
    requires j < |trace|
    ensures Outermost(trace + [e], i, j) <==> Outermost(trace, i, j)
  {
    OpenKept(trace, e, i, j);
    PrefixKept(trace, e, j + 1);
  }

  /** Only leaving the last open section ends an outermost section. */
  lemma OutermostEnds(trace: seq<Event>, e: Event, i: nat, j: nat)
    requires Outermost(trace + [e], i, j)
    ensures j < |trace| || (e.Leave? && Depth(trace + [e]) == 0)
  {
    if j == |trace| { assert (trace + [e])[..j + 1] == trace + [e]; }
  }

  /** While a section is open, no other entry can belong to an outermost section. */
  lemma OneEntry(trace: seq<Event>, i: nat, h: nat, j: nat)
    requires OpenFrom(trace, i, j) && OpenFrom(trace, h, j)
    ensures i == h
  {
    assert i < h ==> Deep(trace, h);
    assert h < i ==> Deep(trace, i);
  }

  lemma AttainedKept(x: nat, trace: seq<Event>, e: Event, from: nat, tmrMod: nat)
    requires tmrMod > 0 && Attained(x, trace, from, tmrMod)
    ensures Attained(x, trace + [e], from, tmrMod)
  {
    var i: nat, j: nat :| Outermost(trace, i, j) && from <= j && Duration(trace, i, j, tmrMod) == x;
    OutermostKept(trace, e, i, j);
    assert Duration(trace + [e], i, j, tmrMod) == x;
  }

  /** An event that does not end an outermost section leaves the maxima as they are. */
  lemma MaxKept(x: nat, trace: seq<Event>, e: Event, from: nat, tmrMod: nat)
    requires tmrMod > 0 && IsMax(x, trace, from, tmrMod)
    requires e.Leave? ==> Depth(trace + [e]) != 0
    ensures IsMax(x, trace + [e], from, tmrMod)
  {
    var t := trace + [e];
    forall i: nat, j: nat | Outermost(t, i, j) && from <= j ensures Duration(t, i, j, tmrMod) <= x {
      OutermostEnds(trace, e, i, j);
      OutermostKept(trace, e, i, j);
      assert Duration(trace, i, j, tmrMod) == Duration(t, i, j, tmrMod);
    }
    if x != 0 { AttainedKept(x, trace, e, from, tmrMod); }
  }

  lemma Closes(trace: seq<Event>, e: Event, open: nat)
    requires e.Leave? && Depth(trace + [e]) == 0 && OpenFrom(trace, open, |trace|)
    ensures Outermost(trace + [e], open, |trace|)
  {
    OpenKept(trace, e, open, |trace|);
    assert (trace + [e])[..|trace| + 1] == trace + [e];
  }

  lemma DurationKept(trace: seq<Event>, e: Event, i: nat, j: nat, tmrMod: nat)
    requires Outermost(trace + [e], i, j) && j < |trace| && tmrMod > 0
    ensures Outermost(trace, i, j) && Duration(trace, i, j, tmrMod) == Duration(trace + [e], i, j, tmrMod)
  {
    OutermostKept(trace, e, i, j);
  }

  lemma BoundNext(x: nat, y: nat, trace: seq<Event>, e: Event, from: nat, open: nat, tmrMod: nat)
    requires tmrMod > 0 && IsMax(x, trace, from, tmrMod) && x <= y
    requires Outermost(trace + [e], open, |trace|) && Duration(trace + [e], open, |trace|, tmrMod) <= y
    ensures forall i: nat, j: nat :: Outermost(trace + [e], i, j) && from <= j ==> Duration(trace + [e], i, j, tmrMod) <= y
  {
    var t := trace + [e];
    forall i: nat, j: nat | Outermost(t, i, j) && from <= j ensures Duration(t, i, j, tmrMod) <= y {
      if j == |trace| { OneEntry(t, i, open, j); } else { DurationKept(trace, e, i, j, tmrMod); }
    }
  }

  /** Ending the outermost section that was entered at open brings its duration in. */
  lemma MaxNext(x: nat, y: nat, trace: seq<Event>, e: Event, from: nat, open: nat, tmrMod: nat)
    requires tmrMod > 0 && IsMax(x, trace, from, tmrMod) && from <= |trace|
    requires Outermost(trace + [e], open, |trace|)
    requires var d := Duration(trace + [e], open, |trace|, tmrMod); y == if x < d then d else x
    ensures IsMax(y, trace + [e], from, tmrMod)
  {
    BoundNext(x, y, trace, e, from, open, tmrMod);
    if y == x {
      if x != 0 { AttainedKept(x, trace, e, from, tmrMod); }
    } else {
      assert Attained(y, trace + [e], from, tmrMod);
    }
  }

  lemma NothingSince(trace: seq<Event>, tmrMod: nat)
    requires tmrMod > 0
    ensures IsMax(0, trace, |trace|, tmrMod)
  {
  }

  /** The maximum since a reset never exceeds the maximum since the start. */
  lemma MaxCurBelowMax(cur: nat, max: nat, trace: seq<Event>, from: nat, tmrMod: nat)
    requires tmrMod > 0 && IsMax(cur, trace, from, tmrMod) && IsMax(max, trace, 0, tmrMod)
    ensures cur <= max
  {
    if cur != 0 {
      var i: nat, j: nat :| Outermost(trace, i, j) && from <= j && Duration(trace, i, j, tmrMod) == cur;
    }
  }

  /** After an entry a section is open: the same as before, or the one that was just entered. */
  lemma Entered(trace: seq<Event>, now: nat, nested: bool, open: nat)
    requires if nested then Depth(trace) > 0 && OpenFrom(trace, open, |trace|) else Depth(trace) == 0
    ensures Depth(trace + [Enter(now)]) == Depth(trace) + 1
    ensures OpenFrom(trace + [Enter(now)], if nested then open else |trace|, |trace| + 1)
  {
    DepthNext(trace, Enter(now));
    if nested {
      StillOpen(trace, Enter(now), open);
    } else {
      assert (trace + [Enter(now)])[..|trace| + 1] == trace + [Enter(now)];
      PrefixKept(trace, Enter(now), |trace|);
      assert trace[..|trace|] == trace;
    }
  }

  lemma StillOpen(trace: seq<Event>, e: Event, open: nat)
    requires OpenFrom(trace, open, |trace|) && Depth(trace + [e]) > 0
    ensures OpenFrom(trace + [e], open, |trace| + 1)
  {
    var t := trace + [e];
    OpenKept(trace, e, open, |trace|);
    assert t[..|trace| + 1] == t;
    forall k: nat | open < k <= |trace| + 1 ensures Deep(t, k) {
      if k <= |trace| { assert Deep(trace, k) && Deep(t, k); }
    }
  }

  // ---------------------------------------------------------------- what the variables mean

  /** The variables that carry the measurement. */
  datatype Vars = Vars(nestCtr: nat, startCnts: nat, maxCur: nat, max: nat)

  /** Everything that happened since the initialization, where the last reset happened, and where
      the section that is open, if any, was entered. */
  datatype History = History(trace: seq<Event>, since: nat, open: nat)

  ghost predicate Means(v: Vars, h: History, tmrMod: nat)
    requires tmrMod > 0
  {
    && v.nestCtr == Depth(h.trace) && h.since <= |h.trace|
    && (v.nestCtr > 0 ==> OpenFrom(h.trace, h.open, |h.trace|) && v.startCnts == h.trace[h.open].cnts)
    && IsMax(v.max, h.trace, 0, tmrMod) && IsMax(v.maxCur, h.trace, h.since, tmrMod)
  }

  datatype AnyLog = AnyLog(vars: Vars, history: History, tmrMod: nat)

  ghost predicate LogOk(l: AnyLog) { l.tmrMod > 0 && Means(l.vars, l.history, l.tmrMod) }

  /** Variables together with a history that they mean. */
  type Log = l: AnyLog | LogOk(l) ghost witness AnyLog(Vars(0, 0, 0, 0), History([], 0, 0), 1)

  lemma LogEntered(l: Log, now: nat) returns (m: Log)
    ensures var v, h := l.vars, l.history;
            m == AnyLog(Vars(v.nestCtr + 1, if v.nestCtr == 0 then now else v.startCnts, v.maxCur, v.max),
                        History(h.trace + [Enter(now)], h.since, if v.nestCtr == 0 then |h.trace| else h.open), l.tmrMod)
  {
    var v, h := l.vars, l.history;
    Entered(h.trace, now, v.nestCtr > 0, h.open);
    MaxKept(v.max, h.trace, Enter(now), 0, l.tmrMod);
    MaxKept(v.maxCur, h.trace, Enter(now), h.since, l.tmrMod);
    m := AnyLog(Vars(v.nestCtr + 1, if v.nestCtr == 0 then now else v.startCnts, v.maxCur, v.max),
                History(h.trace + [Enter(now)], h.since, if v.nestCtr == 0 then |h.trace| else h.open), l.tmrMod);
  }

  function Larger(x: nat, y: nat): nat { if x < y then y else x }

  lemma LogLeftLast(l: Log, now: nat, d: nat) returns (m: Log)
    requires l.vars.nestCtr == 1 && d == Between(l.vars.startCnts, now, l.tmrMod)
    ensures m == AnyLog(Vars(0, l.vars.startCnts, Larger(l.vars.maxCur, d), Larger(l.vars.max, d)),
                        History(l.history.trace + [Leave(now)], l.history.since, l.history.open), l.tmrMod)
  {
    var v, h, e := l.vars, l.history, Leave(now);
    DepthNext(h.trace, e);
    Closes(h.trace, e, h.open);
    assert d == Duration(h.trace + [e], h.open, |h.trace|, l.tmrMod);
    MaxNext(v.maxCur, Larger(v.maxCur, d), h.trace, e, h.since, h.open, l.tmrMod);
    MaxNext(v.max, Larger(v.max, d), h.trace, e, 0, h.open, l.tmrMod);
    m := AnyLog(Vars(0, v.startCnts, Larger(v.maxCur, d), Larger(v.max, d)),
                History(h.trace + [e], h.since, h.open), l.tmrMod);
  }

  lemma LogLeft(l: Log, now: nat) returns (m: Log)
    requires l.vars.nestCtr > 1
    ensures m == AnyLog(l.vars.(nestCtr := l.vars.nestCtr - 1),
                        History(l.history.trace + [Leave(now)], l.history.since, l.history.open), l.tmrMod)
  {
    var v, h, e := l.vars, l.history, Leave(now);
    DepthNext(h.trace, e);
    StillOpen(h.trace, e, h.open);
    MaxKept(v.max, h.trace, e, 0, l.tmrMod);
    MaxKept(v.maxCur, h.trace, e, h.since, l.tmrMod);
    m := AnyLog(v.(nestCtr := v.nestCtr - 1), History(h.trace + [e], h.since, h.open), l.tmrMod);
  }

  lemma MeansReset(v: Vars, h: History, tmrMod: nat)
    requires tmrMod > 0 && Means(v, h, tmrMod)
    ensures Means(v.(maxCur := 0), History(h.trace + [Reset], |h.trace| + 1, h.open), tmrMod)
  {
    MaxKept(v.max, h.trace, Reset, 0, tmrMod);
    DepthNext(h.trace, Reset);
    if v.nestCtr > 0 { StillOpen(h.trace, Reset, h.open); }
    NothingSince(h.trace + [Reset], tmrMod);
  }

  lemma LogReset(l: Log) returns (m: Log)
    ensures m == AnyLog(l.vars.(maxCur := 0), History(l.history.trace + [Reset], |l.history.trace| + 1, l.history.open), l.tmrMod)
  {
    MeansReset(l.vars, l.history, l.tmrMod);
    m := AnyLog(l.vars.(maxCur := 0), History(l.history.trace + [Reset], |l.history.trace| + 1, l.history.open), l.tmrMod);
  }

  lemma LogStart(start: nat, tmrMod: nat) returns (m: Log)
    requires tmrMod > 0
    ensures m == AnyLog(Vars(0, start, 0, 0), History([], 0, 0), tmrMod)
  {
    NothingSince([], tmrMod);
    m := AnyLog(Vars(0, start, 0, 0), History([], 0, 0), tmrMod);
  }

  // ---------------------------------------------------------------- the variables

  /** The two counters are 16 bits wide. */
  function Wrap16(n: nat): (w: nat)
    ensures w < 0x1_0000 && (n < 0x1_0000 ==> w == n) && (n == 0x1_0000 ==> w == 0)
  {
    n % 0x1_0000
  }

  lemma Wrap16Next(n: nat)
    ensures Wrap16(Wrap16(n) + 1) == Wrap16(n + 1)
  {
    ModOfSum(n, 1, 0x1_0000);
  }

  /** The division that calculates the overhead, wrapping as the source does. */
  function Average(tot: nat, nbr: nat, tmrMod: nat): nat
    requires tmrMod > 0 && nbr > 0
  {
    (tot + nbr / 2) % tmrMod / nbr
  }

  /** CPU_IntDisMeasMaxCalc. */
  function MaxCalc(timeTot: nat, ovrhd: nat): (r: nat)
    ensures r + ovrhd == if timeTot > ovrhd then timeTot else ovrhd
  {
    if timeTot > ovrhd then timeTot - ovrhd else 0
  }

  /** A reported time: no outermost section that ended from position from on took longer than it
      and the overhead together, and if it is positive one took exactly that long. */
  ghost predicate Corrects(time: nat, ovrhd: nat, trace: seq<Event>, from: nat, tmrMod: nat)
    requires tmrMod > 0
  {
    && (forall i: nat, j: nat :: Outermost(trace, i, j) && from <= j ==> Duration(trace, i, j, tmrMod) <= time + ovrhd)
    && (time > 0 ==> Attained(time + ovrhd, trace, from, tmrMod))
  }

  /** The CPU_IntDisMeas variables of cpu_core.h. */
  class Measure {
    const tmrMod: nat
    const ovrhdNbr: nat
    var measCtr: nat
    var nestCtr: nat
    var startCnts: nat
    var stopCnts: nat
    var ovrhd: nat
    var maxCur: nat
    var max: nat

    ghost var log: Log

    function Current(): Vars
      reads this
    {
      Vars(nestCtr, startCnts, maxCur, max)
    }

    ghost predicate Valid()
      reads this
    {
      0 < tmrMod && 0 < ovrhdNbr && nestCtr < 0x1_0000 && log.vars == Current() && log.tmrMod == tmrMod
    }

    constructor (tmrMod: nat, ovrhdNbr: nat)
      requires 0 < tmrMod && 0 < ovrhdNbr
      ensures Valid() && this.tmrMod == tmrMod && this.ovrhdNbr == ovrhdNbr
    {
      this.tmrMod, this.ovrhdNbr := tmrMod, ovrhdNbr;
      measCtr, nestCtr, startCnts, stopCnts, ovrhd, maxCur, max := 0, 0, 0, 0, 0, 0, 0;
      new;
      log := LogStart(0, tmrMod);
    }

    /** CPU_IntDisMeasStart. */
    method Start(now: nat)
      requires Valid() && nestCtr + 1 < 0x1_0000
      modifies this`measCtr, this`nestCtr, this`startCnts, this`log
      ensures Valid() && log.history.trace == old(log.history.trace) + [Enter(now)] && log.history.since == old(log.history.since)
      ensures measCtr == Wrap16(old(measCtr) + 1) && nestCtr == old(nestCtr) + 1
      ensures startCnts == if old(nestCtr) == 0 then now else old(startCnts)
    {
      ghost var l := LogEntered(log, now);
      measCtr := Wrap16(measCtr + 1);
      if nestCtr == 0 {
        startCnts := now;
      }
      nestCtr := Wrap16(nestCtr + 1);
      log := l;
    }

    /** CPU_IntDisMeasStop. */
    method Stop(now: nat)
      requires Valid() && nestCtr > 0
      modifies this`nestCtr, this`stopCnts, this`maxCur, this`max, this`log
      ensures Valid() && log.history.trace == old(log.history.trace) + [Leave(now)] && log.history.since == old(log.history.since)
      ensures nestCtr == old(nestCtr) - 1
      ensures var d := Between(startCnts, now, tmrMod);
              if nestCtr == 0 then maxCur == Larger(old(maxCur), d) && max == Larger(old(max), d)
              else maxCur == old(maxCur) && max == old(max)
    {
      ghost var l := log;
      nestCtr := nestCtr - 1;
      if nestCtr == 0 {
        stopCnts := now;
        var disd := Between(startCnts, stopCnts, tmrMod);
        l := LogLeftLast(log, now, disd);
        if maxCur < disd {
          maxCur := disd;
        }
        if max < disd {
          max := disd;
        }
      } else {
        l := LogLeft(log, now);
      }
      log := l;
    }

    /** CPU_IntDisMeasMaxCurGet. */
    method MaxCurGet() returns (timeMax: nat)
      requires Valid()
      ensures timeMax == MaxCalc(maxCur, ovrhd) && maxCur <= max
      ensures IsMax(maxCur, log.history.trace, log.history.since, tmrMod)
      ensures Corrects(timeMax, ovrhd, log.history.trace, log.history.since, tmrMod)
    {
      MaxCurBelowMax(maxCur, max, log.history.trace, log.history.since, tmrMod);
      timeMax := MaxCalc(maxCur, ovrhd);
    }

    /** CPU_IntDisMeasMaxGet. */
    method MaxGet() returns (timeMax: nat)
      requires Valid()
      ensures timeMax == MaxCalc(max, ovrhd) && maxCur <= max
      ensures IsMax(max, log.history.trace, 0, tmrMod)
      ensures Corrects(timeMax, ovrhd, log.history.trace, 0, tmrMod)
    {
      MaxCurBelowMax(maxCur, max, log.history.trace, log.history.since, tmrMod);
      timeMax := MaxCalc(max, ovrhd);
    }

    /** CPU_IntDisMeasMaxCurReset. */
    method MaxCurReset() returns (timeMax: nat)
      requires Valid()
      modifies this`maxCur, this`log
      ensures Valid() && maxCur == 0
      ensures log.history.trace == old(log.history.trace) + [Reset] && log.history.since == |log.history.trace|
      ensures timeMax == MaxCalc(old(maxCur), ovrhd)
      ensures Corrects(timeMax, ovrhd, old(log.history.trace), old(log.history.since), tmrMod)
    {
      timeMax := MaxCurGet();
      ghost var l := LogReset(log);
      maxCur, log := 0, l;
    }

    /** One calibrating measurement of CPU_IntDisMeasInit. */
    method Calibrate(start: nat, stop: nat)
      requires Valid() && nestCtr == 0
      modifies this`measCtr, this`nestCtr, this`startCnts, this`stopCnts, this`maxCur, this`max, this`log
      ensures Valid() && nestCtr == 0 && maxCur == Between(start, stop, tmrMod)
      ensures measCtr == Wrap16(old(measCtr) + 1)
    {
      ghost var l := LogReset(log);
      ghost var counted := Wrap16(measCtr + 1);
      maxCur, log := 0, l;
      Start(start);
      assert measCtr == counted;
      Stop(stop);
    }

    /** The loop of CPU_IntDisMeasInit. */
    method CalibrateAll(shown: seq<(nat, nat)>) returns (tot: nat)
      requires Valid() && nestCtr == 0 && measCtr == 0 && |shown| == ovrhdNbr
      modifies this
      ensures Valid() && nestCtr == 0 && tot == Sum(shown, |shown|, tmrMod) % tmrMod
      ensures measCtr == Wrap16(ovrhdNbr)
    {
      tot := 0;
      WrapZero(tmrMod);
      for i := 0 to ovrhdNbr
        invariant Valid() && nestCtr == 0 && tot == Sum(shown, i, tmrMod) % tmrMod
        invariant measCtr == Wrap16(i)
      {
        Calibrate(shown[i].0, shown[i].1);
        Added(shown, i, tot, maxCur, tmrMod);
        Wrap16Next(i);
        tot := (tot + maxCur) % tmrMod;
      }
    }

    /** The body of CPU_IntDisMeasInit. */
    method InitVars(shown: seq<(nat, nat)>)
      requires 0 < tmrMod && 0 < ovrhdNbr == |shown|
      modifies this
      ensures Valid() && log.history.trace == [] && maxCur == 0 && max == 0 && nestCtr == 0
      ensures measCtr == Wrap16(ovrhdNbr)
      ensures ovrhd == Average(Sum(shown, |shown|, tmrMod) % tmrMod, ovrhdNbr, tmrMod)
    {
      measCtr, nestCtr, startCnts, stopCnts, maxCur, max, ovrhd := 0, 0, 0, 0, 0, 0, 0;
      log := LogStart(0, tmrMod);
      var tot := CalibrateAll(shown);
      ovrhd := Average(tot, ovrhdNbr, tmrMod);
      maxCur, max := 0, 0;
      log := LogStart(startCnts, tmrMod);
    }

    /** CPU_IntDisMeasInit; shown is what the timer shows at the start and the stop of each
        calibrating measurement. The reported overhead is their rounded average. */
    method Init(shown: seq<(nat, nat)>)
      requires 0 < tmrMod && 0 < ovrhdNbr == |shown|
      modifies this
      ensures Valid() && log.history.trace == [] && maxCur == 0 && max == 0 && nestCtr == 0
      ensures measCtr == Wrap16(ovrhdNbr)
      ensures ovrhd == Average(Sum(shown, |shown|, tmrMod) % tmrMod, ovrhdNbr, tmrMod)
      ensures ovrhdNbr == 1 ==> ovrhd == Between(shown[0].0, shown[0].1, tmrMod)
      ensures forall lo: nat, hi: nat :: LieBetween(shown, lo, hi, tmrMod) && ovrhdNbr * hi + ovrhdNbr / 2 < tmrMod ==>
                lo <= ovrhd <= hi
    {
      InitVars(shown);
      OverheadInRange(shown, ovrhd, tmrMod);
    }
  }

  /** Every calibrating measurement took at least lo and at most hi counts. */
  ghost predicate LieBetween(shown: seq<(nat, nat)>, lo: nat, hi: nat, tmrMod: nat)
    requires tmrMod > 0
  {
    forall i :: 0 <= i < |shown| ==> lo <= Between(shown[i].0, shown[i].1, tmrMod) <= hi
  }

  lemma InRangeStep(n: nat, lo: nat, hi: nat, sum: nat, x: nat)
    requires n > 0 && (n - 1) * lo <= sum <= (n - 1) * hi && lo <= x <= hi
    ensures n * lo <= sum + x <= n * hi
  {
    assert n * lo == (n - 1) * lo + lo && n * hi == (n - 1) * hi + hi;
  }

  lemma {:induction false} SumInRange(shown: seq<(nat, nat)>, n: nat, lo: nat, hi: nat, tmrMod: nat)
    requires tmrMod > 0 && n <= |shown| && LieBetween(shown, lo, hi, tmrMod)
    ensures n * lo <= Sum(shown, n, tmrMod) <= n * hi
    decreases n
  {
    if n > 0 {
      SumInRange(shown, n - 1, lo, hi, tmrMod);
      InRangeStep(n, lo, hi, Sum(shown, n - 1, tmrMod), Between(shown[n - 1].0, shown[n - 1].1, tmrMod));
    }
  }

  lemma Rounded(tot: nat, nbr: nat, lo: nat, hi: nat, tmrMod: nat)
    requires 0 < nbr && nbr * lo <= tot <= nbr * hi && nbr * hi + nbr / 2 < tmrMod
    ensures lo <= Average(tot % tmrMod, nbr, tmrMod) <= hi
  {
    ModUnique(tot, tmrMod, 0, tot);
    ModUnique(tot + nbr / 2, tmrMod, 0, tot + nbr / 2);
    QuotientBetween(tot + nbr / 2, nbr, lo, hi);
  }

  lemma ProductGrows(nbr: nat, a: nat, b: nat)
    requires a <= b
    ensures nbr * a <= nbr * b
  {
    assert nbr * b == nbr * a + nbr * (b - a);
  }

  lemma QuotientBetween(x: nat, nbr: nat, lo: nat, hi: nat)
    requires 0 < nbr && nbr * lo <= x < nbr * hi + nbr
    ensures lo <= x / nbr <= hi
  {
    var q := x / nbr;
    assert x == nbr * q + x % nbr;
    if q < lo { ProductGrows(nbr, q + 1, lo); }
    if q > hi { ProductGrows(nbr, hi + 1, q); }
  }

  /** The overhead lies where the readings lie; a single one is the overhead. */
  lemma OverheadInRange(shown: seq<(nat, nat)>, ovrhd: nat, tmrMod: nat)
    requires tmrMod > 0 && shown != []
    requires ovrhd == Average(Sum(shown, |shown|, tmrMod) % tmrMod, |shown|, tmrMod)
    ensures |shown| == 1 ==> ovrhd == Between(shown[0].0, shown[0].1, tmrMod)
    ensures forall lo: nat, hi: nat :: LieBetween(shown, lo, hi, tmrMod) && |shown| * hi + |shown| / 2 < tmrMod ==>
              lo <= ovrhd <= hi
  {
    forall lo: nat, hi: nat | LieBetween(shown, lo, hi, tmrMod) && |shown| * hi + |shown| / 2 < tmrMod
      ensures lo <= ovrhd <= hi
    {
      SumInRange(shown, |shown|, lo, hi, tmrMod);
      Rounded(Sum(shown, |shown|, tmrMod), |shown|, lo, hi, tmrMod);
    }
    if |shown| == 1 {
      var x := Between(shown[0].0, shown[0].1, tmrMod);
      assert LieBetween(shown, x, x, tmrMod);
    }
  }

  /** Changing one reading changes the total by that much, and no other reading matters to it. */
  lemma {:induction false} OneReading(shown: seq<(nat, nat)>, n: nat, i: nat, x: (nat, nat), tmrMod: nat)
    requires tmrMod > 0 && i < n <= |shown|
    ensures Sum(shown[i := x], n, tmrMod) - Sum(shown, n, tmrMod) ==
            Between(x.0, x.1, tmrMod) - Between(shown[i].0, shown[i].1, tmrMod)
    decreases n
  {
    if i < n - 1 { OneReading(shown, n - 1, i, x, tmrMod); } else { SumOfFirst(shown, n - 1, i, x, tmrMod); }
  }

  lemma {:induction false} SumOfFirst(shown: seq<(nat, nat)>, n: nat, i: nat, x: (nat, nat), tmrMod: nat)
    requires tmrMod > 0 && n <= i < |shown|
    ensures Sum(shown[i := x], n, tmrMod) == Sum(shown, n, tmrMod)
    decreases n
  {
    if n > 0 { SumOfFirst(shown, n - 1, i, x, tmrMod); }
  }

  lemma Added(shown: seq<(nat, nat)>, i: nat, tot: nat, x: nat, tmrMod: nat)
    requires tmrMod > 0 && i < |shown| && tot == Sum(shown, i, tmrMod) % tmrMod
    requires x == Between(shown[i].0, shown[i].1, tmrMod)
    ensures (tot + x) % tmrMod == Sum(shown, i + 1, tmrMod) % tmrMod
  {
    ModOfSum(Sum(shown, i, tmrMod), x, tmrMod);
  }

  /** Unless the total overflows the timer word, the overhead is the average rounded to nearest. */
  lemma OverheadRounds(tot: nat, nbr: nat, tmrMod: nat)
    requires 0 < nbr && tot + nbr / 2 < tmrMod
    ensures var r := Average(tot % tmrMod, nbr, tmrMod); 2 * tot - nbr <= 2 * (r * nbr) <= 2 * tot + nbr
  {
    ModUnique(tot, tmrMod, 0, tot);
    ModUnique(tot + nbr / 2, tmrMod, 0, tot + nbr / 2);
    var r := (tot + nbr / 2) / nbr;
    assert tot + nbr / 2 == r * nbr + (tot + nbr / 2) % nbr;
  }

  /** The total of the first n calibrating measurements. */
  function Sum(shown: seq<(nat, nat)>, n: nat, tmrMod: nat): nat
    requires tmrMod > 0 && n <= |shown|
  {
    if n == 0 then 0
    else Sum(shown, n - 1, tmrMod) + Between(shown[n - 1].0, shown[n - 1].1, tmrMod)
  }
}
