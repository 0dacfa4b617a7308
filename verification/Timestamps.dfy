/** UCOSIII/uC-CPU/cpu_core.c: timestamps that extend a narrow timer by accumulating its deltas. */
module Timestamps {
  import opened WordArithmetic

  /** What CPU_TS_TmrRd returns at a tick: the timer counts modulo its word size. */
  function TmrRd(tick: nat, tmrMod: nat): nat
    requires tmrMod > 0
  {
    tick % tmrMod
  }

  predicate Ascending(ticks: seq<nat>) { forall i, j :: 0 <= i < j < |ticks| ==> ticks[i] <= ticks[j] }

  /** What a gap between two reads loses: every full turn of the timer within it. */
  function LostIn(gap: nat, tmrMod: nat): nat
    requires tmrMod > 0
  {
    gap / tmrMod * tmrMod
  }

  /** What a run of reads has lost in all. */
  function Lost(ticks: seq<nat>, tmrMod: nat): nat
    requires tmrMod > 0 && Ascending(ticks)
  {
    if |ticks| < 2 then 0
    else
      var n := |ticks| - 1;
      Lost(ticks[..n], tmrMod) + LostIn(ticks[n] - ticks[n - 1], tmrMod)
  }

  lemma LostInZero(gap: nat, tmrMod: nat)
    requires tmrMod > 0
    ensures LostIn(gap, tmrMod) == 0 <==> gap < tmrMod
    ensures LostIn(gap, tmrMod) <= gap
  {
    if gap < tmrMod { ModUnique(gap, tmrMod, 0, gap); }
  }

  predicate Timely(ticks: seq<nat>, tmrMod: nat) {
    forall i :: 0 < i < |ticks| ==> Within(ticks, i, tmrMod)
  }

  predicate Within(ticks: seq<nat>, i: nat, tmrMod: nat)
    requires 0 < i < |ticks|
  {
    ticks[i] < ticks[i - 1] + tmrMod
  }

  /** Nothing is lost exactly when every read comes less than one turn of the timer after the last. */
  lemma {:induction false} LostNothing(ticks: seq<nat>, tmrMod: nat)
    requires tmrMod > 0 && Ascending(ticks)
    ensures Lost(ticks, tmrMod) == 0 <==> Timely(ticks, tmrMod)
  {
    if |ticks| >= 2 {
      var n := |ticks| - 1;
      var before := ticks[..n];
      LostNothing(before, tmrMod);
      LostInZero(ticks[n] - ticks[n - 1], tmrMod);
      if Timely(ticks, tmrMod) {
        assert Within(ticks, n, tmrMod);
        forall i | 0 < i < n ensures Within(before, i, tmrMod) {
          assert Within(ticks, i, tmrMod);
        }
      }
      if Lost(ticks, tmrMod) == 0 {
        forall i | 0 < i < |ticks| ensures Within(ticks, i, tmrMod) {
          assert i < n ==> Within(before, i, tmrMod);
        }
      }
    }
  }

  /** The time lost never exceeds the time elapsed. */
  lemma {:induction false} LostAtMost(ticks: seq<nat>, tmrMod: nat)
    requires tmrMod > 0 && Ascending(ticks) && ticks != []
    ensures Lost(ticks, tmrMod) <= ticks[|ticks| - 1] - ticks[0]
  {
    if |ticks| >= 2 {
      var n := |ticks| - 1;
      LostAtMost(ticks[..n], tmrMod);
      LostInZero(ticks[n] - ticks[n - 1], tmrMod);
    }
  }

  /** The ticks that a run of reads has counted since the first. */
  function Counted(ticks: seq<nat>, tmrMod: nat): nat
    requires tmrMod > 0 && Ascending(ticks) && ticks != []
  {
    LostAtMost(ticks, tmrMod);
    ticks[|ticks| - 1] - ticks[0] - Lost(ticks, tmrMod)
  }

  lemma ModOfSum(a: int, b: int, p: int)
    requires p > 0
    ensures (a % p + b) % p == (a + b) % p
  {
    ModUnique(a + b, p, a / p + (a % p + b) / p, (a % p + b) % p);
  }

  /** The wrapping difference of two timer values is the gap without its full turns. */
  lemma DeltaIsGap(last: nat, now: nat, tmrMod: nat)
    requires tmrMod > 0 && last <= now
    ensures (TmrRd(now, tmrMod) - TmrRd(last, tmrMod)) % tmrMod == now - last - LostIn(now - last, tmrMod)
  {
    var gap := now - last;
    ModUnique(TmrRd(now, tmrMod) - TmrRd(last, tmrMod), tmrMod, gap / tmrMod + last / tmrMod - now / tmrMod, gap % tmrMod);
  }

  lemma CountedNext(ticks: seq<nat>, now: nat, tmrMod: nat)
    requires tmrMod > 0 && Ascending(ticks) && ticks != [] && ticks[|ticks| - 1] <= now
    ensures Ascending(ticks + [now])
    ensures Counted(ticks + [now], tmrMod) ==
            Counted(ticks, tmrMod) + (TmrRd(now, tmrMod) - TmrRd(ticks[|ticks| - 1], tmrMod)) % tmrMod
  {
    var all := ticks + [now];
    assert all[..|ticks|] == ticks;
    DeltaIsGap(ticks[|ticks| - 1], now, tmrMod);
  }

  /** One of CPU_TS_32_Accum / CPU_TS_32_TmrPrev and CPU_TS_64_Accum / CPU_TS_64_TmrPrev. */
  class Timestamp {
    const tmrMod: nat
    const tsMod: nat
    var accum: nat
    var tmrPrev: nat

    /** The true tick of CPU_TS_Init, then of every read. */
    ghost var ticks: seq<nat>

    ghost predicate Valid()
      reads this
    {
      && 0 < tmrMod && 0 < tsMod && Ascending(ticks) && ticks != []
      && tmrPrev == TmrRd(ticks[|ticks| - 1], tmrMod)
      && accum == Counted(ticks, tmrMod) % tsMod
    }

    /** CPU_TS_Init. */
    constructor (tmrMod: nat, tsMod: nat, now: nat)
      requires 0 < tmrMod && 0 < tsMod
      ensures Valid() && this.tmrMod == tmrMod && this.tsMod == tsMod && ticks == [now]
    {
      this.tmrMod, this.tsMod := tmrMod, tsMod;
      accum, tmrPrev, ticks := 0, TmrRd(now, tmrMod), [now];
      new;
      WrapZero(tsMod);
    }

    /** CPU_TS_Get32 and CPU_TS_Get64; a timer at least as wide as the timestamp is read directly. */
    method Get(now: nat) returns (ts: nat)
      requires Valid() && ticks[|ticks| - 1] <= now
      modifies this`accum, this`tmrPrev, this`ticks
      ensures Valid()
      ensures tmrMod < tsMod ==> ticks == old(ticks) + [now] && ts == Counted(ticks, tmrMod) % tsMod
      ensures tmrMod >= tsMod ==> ts == TmrRd(now, tmrMod) % tsMod && ticks == old(ticks) && accum == old(accum)
    {
      if tmrMod >= tsMod {
        return TmrRd(now, tmrMod) % tsMod;
      }
      CountedNext(ticks, now, tmrMod);
      ghost var counted := Counted(ticks, tmrMod);
      var tmrCur := TmrRd(now, tmrMod);
      var tmrDelta := (tmrCur - tmrPrev) % tmrMod;
      ModOfSum(counted, tmrDelta, tsMod);
      accum := (accum + tmrDelta) % tsMod;
      tmrPrev := tmrCur;
      ts := accum;
      ticks := ticks + [now];
    }
  }

  /** CPU_TS_Update. */
  method Update(ts32: Timestamp, ts64: Timestamp, now32: nat, now64: nat)
    requires ts32 != ts64 && ts32.Valid() && ts64.Valid()
    requires ts32.ticks[|ts32.ticks| - 1] <= now32 && ts64.ticks[|ts64.ticks| - 1] <= now64
    modifies ts32, ts64
    ensures ts32.Valid() && ts64.Valid()
    ensures ts32.tmrMod < ts32.tsMod ==> ts32.ticks == old(ts32.ticks) + [now32]
    ensures ts64.tmrMod < ts64.tsMod ==> ts64.ticks == old(ts64.ticks) + [now64]
    ensures ts32.tmrMod >= ts32.tsMod ==> ts32.ticks == old(ts32.ticks) && ts32.accum == old(ts32.accum)
    ensures ts64.tmrMod >= ts64.tsMod ==> ts64.ticks == old(ts64.ticks) && ts64.accum == old(ts64.accum)
  {
    if ts32.tmrMod < ts32.tsMod {
      var _ := ts32.Get(now32);
    }
    if ts64.tmrMod < ts64.tsMod {
      var _ := ts64.Get(now64);
    }
  }

  /** After any run of reads the timestamp is the true elapsed time, modulo its word, if and only if
      the time lost is a multiple of that word. */
  lemma TimestampExactIff(ticks: seq<nat>, tmrMod: nat, tsMod: nat)
    requires 0 < tmrMod && 0 < tsMod && Ascending(ticks) && ticks != []
    ensures var elapsed := ticks[|ticks| - 1] - ticks[0];
            Counted(ticks, tmrMod) % tsMod == elapsed % tsMod <==> Lost(ticks, tmrMod) % tsMod == 0
  {
    SameResidue(Counted(ticks, tmrMod), Lost(ticks, tmrMod), tsMod);
  }

  /** In particular when the reads are timely. */
  lemma TimelyExact(ticks: seq<nat>, tmrMod: nat)
    requires 0 < tmrMod && Ascending(ticks) && ticks != [] && Timely(ticks, tmrMod)
    ensures Counted(ticks, tmrMod) == ticks[|ticks| - 1] - ticks[0]
  {
    LostNothing(ticks, tmrMod);
  }

  lemma SameResidue(x: nat, lost: nat, p: nat)
    requires p > 0
    ensures x % p == (x + lost) % p <==> lost % p == 0
  {
    if lost % p == 0 {
      ModUnique(x + lost, p, x / p + lost / p, x % p);
    }
    if x % p == (x + lost) % p {
      ModUnique(lost, p, (x + lost) / p - x / p, 0);
    }
  }

  /** A timer at least as wide as the timestamp needs no extension. */
  lemma WideTimerExact(now: nat, tmrMod: nat, tsMod: nat)
    requires 0 < tsMod && 0 < tmrMod && tmrMod % tsMod == 0
    ensures TmrRd(now, tmrMod) % tsMod == now % tsMod
  {
    var k, r := tmrMod / tsMod, now % tmrMod;
    assert now == (now / tmrMod) * (k * tsMod) + r == ((now / tmrMod) * k) * tsMod + r;
    ModUnique(now, tsMod, (now / tmrMod) * k + r / tsMod, r % tsMod);
  }

  lemma WrapZero(p: nat)
    requires p > 0
    ensures 0 % p == 0
  {
  }
}
