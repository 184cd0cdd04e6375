/** The 90 kHz time line: capture times to presentation times, and on to the encoder and back. */
module Clock {
  import opened Arith
  import opened Bytes

  const MAX_U64: nat := 0xFFFF_FFFF_FFFF_FFFF

  /** Ticks of 90 kHz in `ns` nanoseconds, saturating at the width of the result. */
  function Ticks(ns: nat): u64 {
    Min(ns * 9 / 100_000, MAX_U64)
  }

  class PtsClock {
    var anchor: Option<nat>

    constructor ()
      ensures anchor == None
    {
      anchor := None;
    }

    /** The first sample sets the zero point; every later one is measured from it. */
    method Pts(t: nat) returns (pts: u64)
      modifies this
      ensures anchor == Some(match old(anchor) case None => t case Some(base) => base)
      ensures pts == Ticks(SaturatingSub(t, anchor.value))
    {
      if anchor.None? {
        anchor := Some(t);
      }
      var base := anchor.value;
      var rel := if t < base then 0 else t - base;
      var wide := rel * 9 / 100_000;
      pts := if wide <= MAX_U64 then wide else MAX_U64;
    }
  }

  /** Order is kept for all capture times; from the anchor on and short of saturation, any two
      presentation times differ from the exact 90 kHz distance by less than one tick, however far
      apart they are: no drift. */
  lemma NoDrift(base: nat, s: nat, t: nat)
    requires s <= t
    ensures Ticks(SaturatingSub(s, base)) <= Ticks(SaturatingSub(t, base))
    ensures base <= s && (t - base) * 9 / 100_000 <= MAX_U64 ==>
      -100_000 < (Ticks(SaturatingSub(t, base)) - Ticks(SaturatingSub(s, base))) * 100_000 - (t - s) * 9 < 100_000
  {
  }

  /** Ticks are the whole number of 90 kHz periods that have passed: nothing at the anchor or before it,
      never a tick too early or too late, and the greatest value where 64 bits end. */
  lemma {:induction false} TicksExact(base: nat, t: nat)
    ensures var ticks := Ticks(SaturatingSub(t, base));
            && (t <= base ==> ticks == 0)
            && (t > base && (t - base) * 9 < 100_000 * 0x1_0000_0000_0000_0000 ==>
                  ticks * 100_000 <= (t - base) * 9 < (ticks + 1) * 100_000)
            && (t > base && (t - base) * 9 >= 100_000 * 0x1_0000_0000_0000_0000 ==> ticks == 0xFFFF_FFFF_FFFF_FFFF)
  {
  }

  // ----- 90 kHz to 100 ns and back -----

  const TWO63: int := 0x8000_0000_0000_0000

  /** The last presentation time that comes back from the encoder with at most one tick lost. Its own
      sample time saturates already, to a value that still rounds to the tick before. */
  const LAST_EXACT: nat := 9_223_372_036_854_776

  /** The same 64 bits, read as a signed number. */
  function AsSigned(x: u64): int {
    if x < TWO63 then x else x - 2 * TWO63
  }

  function SaturateSigned(x: int): int {
    if x < -TWO63 then -TWO63 else if x >= TWO63 then TWO63 - 1 else x
  }

  /** Division toward zero. */
  function Quotient(x: int, d: nat): int
    requires d > 0
  {
    if x < 0 then -(-x / d) else x / d
  }

  /** The sample time given to the encoder. */
  function ToHundredNs(pts: u64): int {
    Quotient(SaturateSigned(AsSigned(pts) * 1000), 9)
  }

  /** The presentation time read back from the encoder. */
  function FromHundredNs(t: int): u64 {
    Min((if t < 0 then 0 else t) * 9, MAX_U64) / 1000
  }

  /** The sample time is the exact one, 10^7 to 90000, less than one unit of 100 ns early. */
  lemma {:induction false} SampleTimeExact(pts: u64)
    requires pts <= 9_223_372_036_854_775
    ensures 9 * ToHundredNs(pts) <= 1000 * pts < 9 * (ToHundredNs(pts) + 1)
  {
  }

  /** What comes back from the encoder, on every input: the time itself or one tick less; the same
      late time for all that saturate; zero once the sign bit is taken. */
  lemma EncoderTime(pts: u64)
    ensures FromHundredNs(ToHundredNs(pts))
            == if pts >= TWO63 then 0
               else if pts > LAST_EXACT then LAST_EXACT - 1
               else if pts % 9 == 0 then pts else pts - 1
  {
  }

  /** The way through the encoder loses exactly one tick, or none if nine divides the time, up to
      `LAST_EXACT` and no further. */
  lemma EncoderRoundTrip(pts: u64)
    ensures FromHundredNs(ToHundredNs(pts)) == (if pts % 9 == 0 then pts else pts - 1) <==> pts <= LAST_EXACT
  {
  }

  /** Order survives the way through the encoder exactly unless the later time has the sign bit set
      while the earlier one has not and is more than one tick. */
  lemma EncoderKeepsOrder(p: u64, q: u64)
    requires p <= q
    ensures FromHundredNs(ToHundredNs(p)) <= FromHundredNs(ToHundredNs(q)) <==> !(1 < p < TWO63 <= q)
    ensures p + 1 < q <= LAST_EXACT ==> FromHundredNs(ToHundredNs(p)) < FromHundredNs(ToHundredNs(q))
  {
  }
}
