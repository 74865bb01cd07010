/** Tick conversion in unsigned arithmetic of a given width, and a sleep that signals interrupt. */
module Time {
  import opened Bits

  // ----- milliseconds and ticks -----

  /** `pos_time_ms_to_ticks` for `rate` ticks per second in `width`-bit arithmetic. */
  function MsToTicks(ms: nat, rate: nat, width: nat): nat {
    ((ms * rate) % Pow2(width)) / 1000
  }

  /** `pos_time_ticks_to_ms`. */
  function TicksToMs(ticks: nat, rate: nat, width: nat): nat
    requires rate > 0
  {
    ((ticks * 1000) % Pow2(width)) / rate
  }

  function RoundTrip(ms: nat, rate: nat, width: nat): nat
    requires rate > 0
  {
    TicksToMs(MsToTicks(ms, rate, width), rate, width)
  }

  lemma SmallMod(x: nat, m: nat)
    requires x < m
    ensures x % m == x
  {
    DivModUnique(x, m, 0, x);
  }

  lemma WrapsBelow(p: nat, m: nat)
    requires 0 < m <= p
    ensures p % m <= p - m
  {
    var q := p / m;
    assert p == m * q + p % m;
    MultipleGrows(m, q);
  }

  lemma QuotientAtLeast(p: nat, q: nat, d: nat)
    requires d > 0 && p >= q + d
    ensures p / d >= q / d + 1
  {
    var a, b := p / d, q / d;
    assert p == d * a + p % d && q == d * b + q % d;
    assert d * (a - b) == d * a - d * b;
    MultipleGrows(d, a - b);
  }

  /** A product reduced modulo `m` before a division: what is lost is a whole number of moduli, and the
      quotient is the true one exactly if nothing is, or the true one is zero. */
  lemma ReducedQuotient(p: nat, m: nat, d: nat)
    requires m > 0 && d > 0
    ensures var back := p % m / d;
            && d * back + m * (p / m) <= p < d * (back + 1) + m * (p / m)
            && (back == p / d <==> p < m || p < d)
  {
    var k, r := p / m, p % m;
    assert p == m * k + r && r == d * (r / d) + r % d;
    assert d * (r / d + 1) == d * (r / d) + d;
    if p < m {
      SmallMod(p, m);
    } else {
      WrapsBelow(p, m);
      if p < d {
        DivModUnique(p, d, 0, p);
        DivModUnique(r, d, 0, r);
      } else if m >= d {
        QuotientAtLeast(p, r, d);
      } else {
        DivModUnique(r, d, 0, r);
        QuotientAtLeast(p, 0, d);
      }
    }
  }

  /** Any tick count in milliseconds: the product with 1000 loses a multiple of 2^width, `back` is the
      rest in milliseconds rounded down, and it is the true time exactly if the product fits (or is
      less than a millisecond). */
  lemma TicksToMsExactly(ticks: nat, rate: nat, width: nat)
    requires rate > 0
    ensures var back, lost := TicksToMs(ticks, rate, width), Pow2(width) * (ticks * 1000 / Pow2(width));
            && rate * back <= ticks * 1000 - lost < rate * (back + 1)
            && (back == ticks * 1000 / rate <==> ticks * 1000 < Pow2(width) || ticks * 1000 < rate)
  {
    ReducedQuotient(ticks * 1000, Pow2(width), rate);
  }

  /** The same of any time in ticks. */
  lemma MsToTicksExactly(ms: nat, rate: nat, width: nat)
    ensures var ticks, lost := MsToTicks(ms, rate, width), Pow2(width) * (ms * rate / Pow2(width));
            && 1000 * ticks <= ms * rate - lost < 1000 * (ticks + 1)
            && (ticks == ms * rate / 1000 <==> ms * rate < Pow2(width) || ms * rate < 1000)
  {
    ReducedQuotient(ms * rate, Pow2(width), 1000);
  }

  /** If the product fits, neither conversion wraps on the way there and back. */
  lemma NoWrap(ms: nat, rate: nat, width: nat)
    requires rate > 0 && ms * rate < Pow2(width)
    ensures MsToTicks(ms, rate, width) == (ms * rate) / 1000
    ensures MsToTicks(ms, rate, width) * 1000 <= ms * rate
    ensures RoundTrip(ms, rate, width) == (MsToTicks(ms, rate, width) * 1000) / rate
  {
    var p := ms * rate;
    SmallMod(p, Pow2(width));
    assert p == 1000 * (p / 1000) + p % 1000;
    SmallMod(p / 1000 * 1000, Pow2(width));
  }

  lemma Remainders(p: nat, rate: nat)
    requires rate > 0
    ensures 0 <= p - rate * ((p / 1000 * 1000) / rate) <= rate + 998
  {
    var q := p / 1000 * 1000;
    assert q == rate * (q / rate) + q % rate;
  }

  lemma Distribute(a: int, b: int, c: int)
    ensures a * (b - c) == b * a - a * c
  {
  }

  /** The round trip loses less than the resolution of the two units together. */
  lemma RoundTripLoss(ms: nat, rate: nat, width: nat)
    requires rate > 0 && ms * rate < Pow2(width)
    ensures var back := RoundTrip(ms, rate, width);
            0 <= rate * (ms - back) <= rate + 998
  {
    NoWrap(ms, rate, width);
    Remainders(ms * rate, rate);
    Distribute(rate, ms, RoundTrip(ms, rate, width));
  }

  lemma Floor(p: nat, rate: nat)
    requires rate > 0
    ensures rate * (p / rate) <= p
  {
  }

  /** A product that does not fit comes back at least one whole range short. */
  lemma WrapLoss(ms: nat, rate: nat, width: nat)
    requires rate > 0 && ms * rate >= Pow2(width)
    ensures rate * (ms - RoundTrip(ms, rate, width)) >= Pow2(width)
  {
    var m, p := Pow2(width), ms * rate;
    WrapsBelow(p, m);
    var ticks := p % m / 1000;
    assert ticks * 1000 <= p % m;
    SmallMod(ticks * 1000, m);
    Floor(ticks * 1000, rate);
    Distribute(rate, ms, ticks * 1000 / rate);
  }

  /** So the round trip is good exactly when the product fits, in any width with room for the rate. */
  lemma RoundTripGoodExactly(ms: nat, rate: nat, width: nat)
    requires rate > 0 && rate + 998 < Pow2(width)
    ensures 0 <= rate * (ms - RoundTrip(ms, rate, width)) <= rate + 998 <==> ms * rate < Pow2(width)
  {
    if ms * rate < Pow2(width) { RoundTripLoss(ms, rate, width); } else { WrapLoss(ms, rate, width); }
  }

  lemma Regroup(ms: nat, perMs: nat)
    ensures ms * (1000 * perMs) == 1000 * (ms * perMs)
  {
  }

  lemma ExactTicks(ms: nat, rate: nat, perMs: nat, p: nat)
    requires rate == 1000 * perMs && perMs > 0 && p == ms * rate
    ensures p / 1000 * 1000 == p && p / rate == ms
  {
    var ticks := ms * perMs;
    Regroup(ms, perMs);
    DivModUnique(p, 1000, ticks, 0);
    DivModUnique(p, rate, ms, 0);
  }

  /** Nothing is lost when a millisecond is a whole number of ticks. */
  lemma RoundTripExact(ms: nat, rate: nat, width: nat, perMs: nat)
    requires rate == 1000 * perMs && perMs > 0 && ms * rate < Pow2(width)
    ensures RoundTrip(ms, rate, width) == ms
  {
    NoWrap(ms, rate, width);
    ExactTicks(ms, rate, perMs, ms * rate);
  }

  lemma Pow2Of32()
    ensures Pow2(32) == 0x1_0000_0000
  {
    assert Pow2(8) == 256;
    Pow2Add(8, 8);
    Pow2Add(16, 16);
  }

  /** At 1000 ticks per second in 32 bits a tick count is the millisecond count exactly up to 4294967. */
  lemma IdentityExactly(ms: nat)
    ensures MsToTicks(ms, 1000, 32) == ms <==> ms <= 4294967
  {
    Pow2Of32();
  }

  /** At that rate 5000 seconds of ticks come out as 705 seconds. */
  lemma FiveThousandSeconds()
    ensures TicksToMs(5_000_000, 1000, 32) == 705_032
  {
    Pow2Of32();
  }

  // ----- sleeping -----

  datatype Timespec = Timespec(sec: nat, nsec: nat) {
    predicate Valid() { nsec < 1_000_000_000 }
    function Ns(): nat { sec * 1_000_000_000 + nsec }
  }

  /** What one `nanosleep` does: it sleeps to the end, is interrupted with some time remaining, or fails otherwise. */
  datatype Sleep = Completed | Interrupted(remaining: Timespec) | Failed

  /** An interrupted sleep reports a well-formed time no longer than the one it was asked for. */
  ghost predicate Honest(request: Timespec, sleeps: seq<Sleep>)
    decreases |sleeps|
  {
    sleeps == [] || (sleeps[0].Interrupted? ==>
      && sleeps[0].remaining.Valid() && sleeps[0].remaining.Ns() <= request.Ns()
      && Honest(sleeps[0].remaining, sleeps[1..]))
  }

  /** Every interrupted sleep got somewhere. */
  ghost predicate Progressing(request: Timespec, sleeps: seq<Sleep>)
    decreases |sleeps|
  {
    sleeps == [] || (sleeps[0].Interrupted? ==>
      sleeps[0].remaining.Ns() < request.Ns() && Progressing(sleeps[0].remaining, sleeps[1..]))
  }

  function Request(ms: nat): Timespec {
    Timespec(ms / 1000, ms % 1000 * 1_000_000)
  }

  lemma RequestExact(ms: nat)
    ensures Request(ms).Valid() && Request(ms).Ns() == ms * 1_000_000
  {
  }

  datatype Ending = Slept | GaveUp | StillSleeping

  /** If every interrupted sleep makes progress, there are at most as many interruptions as nanoseconds. */
  lemma {:induction false} InterruptionsBounded(request: Timespec, sleeps: seq<Sleep>)
    requires Progressing(request, sleeps) && forall i :: 0 <= i < |sleeps| ==> sleeps[i].Interrupted?
    ensures |sleeps| <= request.Ns()
    decreases |sleeps|
  {
    if sleeps != [] {
      InterruptionsBounded(sleeps[0].remaining, sleeps[1..]);
    }
  }

  /** `pos_task_sleep_ms` against a record of what its calls of `nanosleep` did. `calls` lists the
      times it asked for; `slept` adds up the time between request and remainder. */
  method SleepMs(ms: nat, sleeps: seq<Sleep>) returns (ending: Ending, slept: nat, calls: seq<Timespec>)
    requires Honest(Request(ms), sleeps)
    ensures |calls| <= |sleeps| + 1 && calls != []
    ensures calls[0] == Request(ms)
    ensures forall i :: 0 <= i < |calls| ==> calls[i].Valid()
    ensures forall i :: 0 < i < |calls| ==> sleeps[i - 1] == Interrupted(calls[i])
    ensures match ending
            case Slept => |calls| <= |sleeps| && sleeps[|calls| - 1].Completed? && slept == ms * 1_000_000
            case GaveUp => |calls| <= |sleeps| && sleeps[|calls| - 1].Failed? && slept + calls[|calls| - 1].Ns() == ms * 1_000_000
            case StillSleeping => |calls| == |sleeps| + 1 && slept + calls[|calls| - 1].Ns() == ms * 1_000_000
    ensures Progressing(Request(ms), sleeps) && |sleeps| > ms * 1_000_000 ==> ending != StillSleeping
  {
    RequestExact(ms);
    var sleepTime := Request(ms);
    slept := 0;
    calls := [sleepTime];
    var k := 0;
    while k < |sleeps| && sleeps[k].Interrupted?
      invariant k <= |sleeps| && |calls| == k + 1
      invariant calls[0] == Request(ms) && calls[k] == sleepTime
      invariant Honest(sleepTime, sleeps[k..])
      invariant slept + sleepTime.Ns() == ms * 1_000_000
      invariant forall i :: 0 <= i < |calls| ==> calls[i].Valid()
      invariant forall i :: 0 < i < |calls| ==> sleeps[i - 1] == Interrupted(calls[i])
    {
      var remaining := sleeps[k].remaining;
      assert sleeps[k..][0] == sleeps[k] && sleeps[k..][1..] == sleeps[k + 1..];
      slept := slept + (sleepTime.Ns() - remaining.Ns());
      sleepTime := remaining;
      calls := calls + [sleepTime];
      k := k + 1;
    }
    if k == |sleeps| {
      ending := StillSleeping;
      forall i | 0 <= i < |sleeps| ensures sleeps[i].Interrupted? { assert sleeps[i] == Interrupted(calls[i + 1]); }
      if Progressing(Request(ms), sleeps) { InterruptionsBounded(Request(ms), sleeps); }
    } else if sleeps[k].Completed? {
      slept := slept + sleepTime.Ns();
      ending := Slept;
    } else {
      ending := GaveUp;
    }
  }
}
