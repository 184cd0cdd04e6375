/** Access units rewritten from length-prefixed NAL units to an Annex B byte stream (ITU-T H.264). */
module AnnexB {
  import opened Arith
  import opened Bytes

  const IDR: int := 5

  /** Four octets, most significant first. */
  function Word32(s: seq<byte>): (x: int)
    requires |s| >= 4
    ensures 0 <= x < 0x1_0000_0000
  {
    At(s, 0) * 0x100_0000 + At(s, 1) * 0x1_0000 + At(s, 2) * 0x100 + At(s, 3)
  }

  function StartCode(): seq<byte> {
    [0, 0, 0, 1]
  }

  /** The bytes a length prefix covers are all there. */
  predicate HoldsUnit(avcc: seq<byte>) {
    |avcc| >= 4 && 4 + Word32(avcc) <= |avcc|
  }

  /** The conversion loop: it stops at the first unit that is not all there. */
  function Convert(avcc: seq<byte>): seq<byte>
    decreases |avcc|
  {
    if !HoldsUnit(avcc) then []
    else
      var n := 4 + Word32(avcc);
      StartCode() + avcc[4..n] + Convert(avcc[n..])
  }

  /** The NAL types met when walking the prefixes: the octet behind each prefix, if there is one. */
  function NalTypes(avcc: seq<byte>): seq<int>
    decreases |avcc|
  {
    if |avcc| < 4 then []
    else
      (if |avcc| > 4 then [At(avcc, 4) % 32] else [])
      + if HoldsUnit(avcc) then NalTypes(avcc[4 + Word32(avcc)..]) else []
  }

  function Prefixed(units: seq<seq<byte>>): seq<byte> {
    if units == [] then [] else StartCode() + units[0] + Prefixed(units[1..])
  }

  /** The converted sample: parameter sets first when an IDR unit was seen. */
  function Sample(avcc: seq<byte>, parameterSets: seq<seq<byte>>): seq<byte> {
    (if IDR in NalTypes(avcc) then Prefixed(parameterSets) else []) + Convert(avcc)
  }

  lemma {:induction false} NalTypesStep(avcc: seq<byte>, i: nat)
    requires i + 4 <= |avcc|
    ensures var next := i + 4 + Word32(avcc[i..]);
            IDR in NalTypes(avcc[i..])
            <==> (i + 4 < |avcc| && avcc[i + 4] % 32 == IDR) || (next <= |avcc| && IDR in NalTypes(avcc[next..]))
  {
  }

  /** Walks the NAL types until an IDR unit is met. */
  method IsKeyframe(avcc: seq<byte>) returns (keyframe: bool)
    ensures keyframe <==> IDR in NalTypes(avcc)
  {
    hide NalTypes, Word32;
    var i := 0;
    assert avcc[0..] == avcc;
    while i + 4 <= |avcc|
      invariant 0 <= i
      invariant IDR in NalTypes(avcc) <==> i <= |avcc| && IDR in NalTypes(avcc[i..])
    {
      NalTypesStep(avcc, i);
      var header := i + 4;
      var next := header + Word32(avcc[i..]);
      if header < |avcc| && avcc[header] % 32 == IDR {
        return true;
      }
      i := next;
    }
    if i <= |avcc| {
      NoTypes(avcc[i..]);
    }
    keyframe := false;
  }

  lemma NoTypes(avcc: seq<byte>)
    requires |avcc| < 4
    ensures NalTypes(avcc) == []
  {
  }

  method PrefixAll(units: seq<seq<byte>>) returns (out: seq<byte>)
    ensures out == Prefixed(units)
  {
    out := [];
    assert units[0..] == units;
    for k := 0 to |units|
      invariant out + Prefixed(units[k..]) == Prefixed(units)
    {
      assert units[k..][1..] == units[k + 1..];
      out := out + (StartCode() + units[k]);
    }
    assert out + [] == out;
  }

  method ConvertUnits(avcc: seq<byte>) returns (out: seq<byte>)
    ensures out == Convert(avcc)
  {
    hide Word32;
    out := [];
    var i := 0;
    assert avcc[0..] == avcc;
    while i + 4 <= |avcc|
      invariant 0 <= i <= |avcc|
      invariant out + Convert(avcc[i..]) == Convert(avcc)
    {
      ghost var rest := avcc[i..];
      var n := Word32(avcc[i..]);
      i := i + 4;
      if i + n > |avcc| {
        assert out + [] == out;
        return;
      }
      assert rest[4..4 + n] == avcc[i..i + n] && rest[4 + n..] == avcc[i + n..];
      out := out + (StartCode() + avcc[i..i + n]);
      i := i + n;
    }
    assert out + [] == out;
  }

  method SampleToAnnexB(avcc: seq<byte>, parameterSets: seq<seq<byte>>) returns (out: seq<byte>, keyframe: bool)
    ensures out == Sample(avcc, parameterSets)
    ensures keyframe <==> IDR in NalTypes(avcc)
  {
    keyframe := IsKeyframe(avcc);
    out := [];
    if keyframe {
      out := PrefixAll(parameterSets);
    }
    var data := ConvertUnits(avcc);
    out := out + data;
  }

  // ----- any buffer is complete units and a rest -----

  function Prefix32(n: u32): (r: seq<byte>)
    ensures |r| == 4
  {
    [n / 0x100_0000, n / 0x1_0000 % 0x100, n / 0x100 % 0x100, n % 0x100]
  }

  lemma PrefixValue(n: u32)
    ensures Word32(Prefix32(n)) == n
  {
    SplitMod(n, 0x100, 0x100);
    SplitMod(n, 0x1_0000, 0x100);
  }

  predicate Lengths(units: seq<seq<byte>>) {
    forall i :: 0 <= i < |units| ==> |units[i]| < 0x1_0000_0000
  }

  /** Units behind their four-octet lengths. */
  function LengthPrefixed(units: seq<seq<byte>>): seq<byte>
    requires Lengths(units)
  {
    if units == [] then [] else Prefix32(|units[0]|) + units[0] + LengthPrefixed(units[1..])
  }

  lemma FirstUnit(unit: seq<byte>, rest: seq<byte>)
    requires |unit| < 0x1_0000_0000
    ensures var avcc := Prefix32(|unit|) + unit + rest;
            HoldsUnit(avcc) && Word32(avcc) == |unit| && avcc[4..4 + |unit|] == unit && avcc[4 + |unit|..] == rest
  {
    var avcc := Prefix32(|unit|) + unit + rest;
    assert avcc[..4] == Prefix32(|unit|);
    assert Word32(avcc) == Word32(avcc[..4]);
    PrefixValue(|unit|);
  }

  /** For every list of units and every rest that holds no further unit, the conversion is exactly
      the units behind start codes; the rest, however long, is left out. */
  lemma {:induction false} ConvertExact(units: seq<seq<byte>>, rest: seq<byte>)
    requires Lengths(units) && !HoldsUnit(rest)
    ensures Convert(LengthPrefixed(units) + rest) == Prefixed(units)
  {
    hide HoldsUnit, Word32, Prefix32;
    if units == [] {
      assert [] + rest == rest;
    } else {
      var later := LengthPrefixed(units[1..]) + rest;
      FirstUnit(units[0], later);
      assert LengthPrefixed(units) + rest == Prefix32(|units[0]|) + units[0] + later;
      ConvertExact(units[1..], rest);
    }
  }

  /** Every buffer has that form: nothing else can come out of the encoder. */
  lemma {:induction false} Decompose(avcc: seq<byte>) returns (units: seq<seq<byte>>, rest: seq<byte>)
    ensures Lengths(units) && !HoldsUnit(rest) && avcc == LengthPrefixed(units) + rest
    decreases |avcc|
  {
    if HoldsUnit(avcc) {
      var n := Word32(avcc);
      var later;
      later, rest := Decompose(avcc[4 + n..]);
      units := [avcc[4..4 + n]] + later;
      PrefixOf(avcc);
      assert units[1..] == later;
    } else {
      units, rest := [], avcc;
    }
  }

  lemma {:induction false} PrefixOf(avcc: seq<byte>)
    requires |avcc| >= 4
    ensures Prefix32(Word32(avcc)) == avcc[..4]
  {
    var a, b, c, d := At(avcc, 0), At(avcc, 1), At(avcc, 2), At(avcc, 3);
    var w := Word32(avcc);
    DivModUnique(w, 0x100, a * 0x1_0000 + b * 0x100 + c, d);
    DivModUnique(w, 0x1_0000, a * 0x100 + b, c * 0x100 + d);
    DivModUnique(w, 0x100_0000, a, b * 0x1_0000 + c * 0x100 + d);
    DivModUnique(a * 0x1_0000 + b * 0x100 + c, 0x100, a * 0x100 + b, c);
    DivModUnique(a * 0x100 + b, 0x100, a, b);
  }

  /** The octet found where the header of the unit at the front is looked for: its own first octet, or
      for an empty unit the first one behind it, of the next length or of the rest. */
  function HeaderOctet(units: seq<seq<byte>>, rest: seq<byte>): Option<int>
    requires units != [] && Lengths(units)
  {
    if units[0] != [] then Some(At(units[0], 0))
    else if |units| > 1 then Some(|units[1]| / 0x100_0000)
    else if rest != [] then Some(At(rest, 0))
    else None
  }

  /** The types of all those octets, and of the header of a cut-off unit if it arrived. */
  function MetTypes(units: seq<seq<byte>>, rest: seq<byte>): seq<int>
    requires Lengths(units)
  {
    if units == [] then if |rest| > 4 then [At(rest, 4) % 32] else []
    else
      (match HeaderOctet(units, rest) case None => [] case Some(h) => [h % 32]) + MetTypes(units[1..], rest)
  }

  lemma PrefixFirst(units: seq<seq<byte>>, rest: seq<byte>)
    requires units != [] && Lengths(units)
    ensures var avcc := LengthPrefixed(units) + rest;
            |avcc| >= 4 && At(avcc, 0) == |units[0]| / 0x100_0000
  {
    var p := Prefix32(|units[0]|);
    assert LengthPrefixed(units) + rest == p + (units[0] + LengthPrefixed(units[1..]) + rest);
  }

  lemma {:induction false} FirstHeader(units: seq<seq<byte>>, rest: seq<byte>)
    requires units != [] && Lengths(units)
    ensures var avcc := LengthPrefixed(units) + rest;
            match HeaderOctet(units, rest)
            case None => |avcc| == 4
            case Some(h) => |avcc| > 4 && At(avcc, 4) == h
  {
    hide Prefix32, LengthPrefixed;
    var later := LengthPrefixed(units[1..]) + rest;
    LengthPrefixedStep(units, rest);
    if units[0] == [] {
      if |units| == 1 {
        LengthPrefixedNone();
        assert later == rest;
      } else {
        PrefixFirst(units[1..], rest);
      }
    }
  }

  lemma LengthPrefixedNone()
    ensures LengthPrefixed([]) == []
  {
  }

  lemma LengthPrefixedStep(units: seq<seq<byte>>, rest: seq<byte>)
    requires units != [] && Lengths(units)
    ensures LengthPrefixed(units) + rest == Prefix32(|units[0]|) + units[0] + (LengthPrefixed(units[1..]) + rest)
  {
  }

  /** For every list of units, empty ones included, and every rest: the walk yields exactly those types. */
  lemma {:induction false} TypesExact(units: seq<seq<byte>>, rest: seq<byte>)
    requires Lengths(units) && !HoldsUnit(rest)
    ensures NalTypes(LengthPrefixed(units) + rest) == MetTypes(units, rest)
  {
    hide HoldsUnit, Word32, Prefix32, HeaderOctet;
    if units == [] {
      assert [] + rest == rest;
      RestTypes(rest);
    } else {
      var later := LengthPrefixed(units[1..]) + rest;
      FirstUnit(units[0], later);
      var avcc := LengthPrefixed(units) + rest;
      assert avcc == Prefix32(|units[0]|) + units[0] + later;
      FirstHeader(units, rest);
      TypesExact(units[1..], rest);
    }
  }

  lemma RestTypes(rest: seq<byte>)
    requires !HoldsUnit(rest)
    ensures NalTypes(rest) == if |rest| > 4 then [At(rest, 4) % 32] else []
  {
  }

  /** A unit that is sent is an IDR unit. */
  predicate SendsIdr(units: seq<seq<byte>>) {
    exists i :: 0 <= i < |units| && units[i] != [] && units[i][0] % 32 == IDR
  }

  /** What follows the empty unit `i` reads as the header of an IDR unit. */
  predicate StrayAt(units: seq<seq<byte>>, rest: seq<byte>, i: nat)
    requires Lengths(units) && i < |units|
  {
    units[i] == []
    && if i + 1 < |units| then |units[i + 1]| / 0x100_0000 % 32 == IDR else rest != [] && rest[0] % 32 == IDR
  }

  /** An octet that is no header of a sent unit reads as that of an IDR unit: the header of a cut-off
      unit, or what follows an empty unit. */
  predicate StrayIdr(units: seq<seq<byte>>, rest: seq<byte>)
    requires Lengths(units)
  {
    (|rest| > 4 && rest[4] % 32 == IDR) || exists i :: 0 <= i < |units| && StrayAt(units, rest, i)
  }

  lemma {:induction false} MetIdr(units: seq<seq<byte>>, rest: seq<byte>)
    requires Lengths(units)
    ensures IDR in MetTypes(units, rest) <==> SendsIdr(units) || StrayIdr(units, rest)
  {
    if units == [] {
    } else {
      var later := units[1..];
      MetIdr(later, rest);
      SendsIdrStep(units);
      StrayIdrStep(units, rest);
    }
  }

  lemma SendsIdrStep(units: seq<seq<byte>>)
    requires units != []
    ensures SendsIdr(units) <==> (units[0] != [] && units[0][0] % 32 == IDR) || SendsIdr(units[1..])
  {
    var later := units[1..];
    if SendsIdr(later) {
      var i :| 0 <= i < |later| && later[i] != [] && later[i][0] % 32 == IDR;
      assert units[i + 1] == later[i];
    }
    if SendsIdr(units) {
      var i :| 0 <= i < |units| && units[i] != [] && units[i][0] % 32 == IDR;
      assert i > 0 ==> later[i - 1] == units[i];
    }
  }

  lemma StrayIdrStep(units: seq<seq<byte>>, rest: seq<byte>)
    requires units != [] && Lengths(units)
    ensures StrayIdr(units, rest) <==> StrayAt(units, rest, 0) || StrayIdr(units[1..], rest)
  {
    var later := units[1..];
    forall i | 0 <= i < |later| ensures StrayAt(later, rest, i) == StrayAt(units, rest, i + 1) {
    }
    if exists i :: 0 <= i < |units| && StrayAt(units, rest, i) {
      var i :| 0 <= i < |units| && StrayAt(units, rest, i);
      assert i > 0 ==> StrayAt(later, rest, i - 1);
    }
  }

  /** The keyframe flag of any buffer agrees with the units that are sent exactly unless some octet
      strays while no IDR unit is sent. */
  lemma {:induction false} KeyframeFlagExact(units: seq<seq<byte>>, rest: seq<byte>)
    requires Lengths(units) && !HoldsUnit(rest)
    ensures (IDR in NalTypes(LengthPrefixed(units) + rest) <==> SendsIdr(units))
            <==> (StrayIdr(units, rest) ==> SendsIdr(units))
  {
    hide NalTypes, MetTypes, SendsIdr, StrayIdr;
    TypesExact(units, rest);
    MetIdr(units, rest);
  }

  /** The same of every buffer: it has such units and such a rest, and the units are what is sent. */
  lemma {:induction false} KeyframeFlagOfAny(avcc: seq<byte>) returns (units: seq<seq<byte>>, rest: seq<byte>)
    ensures Lengths(units) && !HoldsUnit(rest) && avcc == LengthPrefixed(units) + rest
    ensures Convert(avcc) == Prefixed(units)
    ensures (IDR in NalTypes(avcc) <==> SendsIdr(units)) <==> (StrayIdr(units, rest) ==> SendsIdr(units))
  {
    hide NalTypes, SendsIdr, StrayIdr, Convert, LengthPrefixed, HoldsUnit;
    units, rest := Decompose(avcc);
    ConvertExact(units, rest);
    KeyframeFlagExact(units, rest);
  }

  /** A case where they differ: a cut-off IDR unit alone announces a keyframe and sends nothing. */
  lemma CutOffKeyframe()
    ensures IDR in NalTypes([0, 0, 0, 9, 0x65]) && Convert([0, 0, 0, 9, 0x65]) == []
  {
  }

  /** Another: behind an empty unit any octet is taken for a header, here a single stray one. */
  lemma EmptyUnitKeyframe()
    ensures IDR in NalTypes([0, 0, 0, 0, 5]) && Convert([0, 0, 0, 0, 5]) == [0, 0, 0, 1]
    ensures LengthPrefixed([[]]) + [5] == [0, 0, 0, 0, 5] && !HoldsUnit([5]) && !SendsIdr([[]])
  {
    var b: seq<byte> := [0, 0, 0, 0, 5];
    assert Word32(b) == 0 && b[4..] == [5] && b[4..4] == [];
    assert NalTypes(b)[0] == 5;
    assert Prefix32(0) == [0, 0, 0, 0];
  }

  // ----- a reference Annex B splitter -----

  /** Where a unit ends: before the next 00 00 00 or 00 00 01 (section B.1.1), or with the stream. */
  function UnitEnd(b: seq<byte>): (e: nat)
    ensures e <= |b|
  {
    if |b| < 3 then |b|
    else if b[0] == 0 && b[1] == 0 && b[2] <= 1 then 0
    else 1 + UnitEnd(b[1..])
  }

  /** The octets behind the first 00 00 01. */
  function AfterStart(b: seq<byte>): (r: Option<seq<byte>>)
    ensures r.Some? ==> |r.value| < |b|
  {
    if |b| < 3 then None
    else if b[0] == 0 && b[1] == 0 && b[2] == 1 then Some(b[3..])
    else AfterStart(b[1..])
  }

  function Split(b: seq<byte>): seq<seq<byte>>
    decreases |b|
  {
    match AfterStart(b)
    case None => []
    case Some(rest) => [rest[..UnitEnd(rest)]] + Split(rest[UnitEnd(rest)..])
  }

  /** What section 7.4.1 asks of a NAL unit: no start code inside, no zero at the end. */
  predicate EmulationFree(unit: seq<byte>) {
    unit != [] && unit[|unit| - 1] != 0
    && forall i {:trigger unit[i]} :: 0 <= i < |unit| - 2 ==> !(unit[i] == 0 && unit[i + 1] == 0 && unit[i + 2] <= 1)
  }

  predicate StartsUnit(b: seq<byte>) {
    b == [] || (|b| >= 4 && b[..4] == StartCode())
  }

  lemma {:induction false} UnitEndExact(unit: seq<byte>, b: seq<byte>)
    requires EmulationFree(unit) && StartsUnit(b)
    ensures UnitEnd(unit + b) == |unit|
    decreases |unit|
  {
    var s := unit + b;
    assert b != [] ==> b[0] == b[..4][0] && b[1] == b[..4][1] && b[2] == b[..4][2];
    assert s[0] == unit[0];
    if |unit| == 1 {
      assert s[1..] == b;
    } else {
      assert s[1] == unit[1];
      var tail := unit[1..];
      forall i {:trigger tail[i]} | 0 <= i < |tail| - 2
        ensures !(tail[i] == 0 && tail[i + 1] == 0 && tail[i + 2] <= 1)
      {
        assert tail[i] == unit[i + 1];
      }
      assert s[1..] == tail + b;
      UnitEndExact(tail, b);
    }
  }

  lemma PrefixedStarts(units: seq<seq<byte>>)
    ensures StartsUnit(Prefixed(units))
  {
  }

  lemma AfterStartCode(rest: seq<byte>)
    ensures AfterStart(StartCode() + rest) == Some(rest)
  {
  }

  /** Round trip: a standard receiver splits the sent stream into exactly the units put in. */
  lemma {:induction false} SplitRecovers(units: seq<seq<byte>>)
    requires forall i :: 0 <= i < |units| ==> EmulationFree(units[i])
    ensures Split(Prefixed(units)) == units
  {
    hide EmulationFree, AfterStart, UnitEnd;
    if units == [] {
      NothingToSplit();
    } else {
      var later := Prefixed(units[1..]);
      var rest := units[0] + later;
      assert Prefixed(units) == StartCode() + rest;
      AfterStartCode(rest);
      PrefixedStarts(units[1..]);
      UnitEndExact(units[0], later);
      assert rest[..|units[0]|] == units[0] && rest[|units[0]|..] == later;
      SplitRecovers(units[1..]);
    }
  }

  lemma NothingToSplit()
    ensures Split([]) == []
  {
  }

  lemma {:induction false} PrefixedConcat(a: seq<seq<byte>>, b: seq<seq<byte>>)
    ensures Prefixed(a + b) == Prefixed(a) + Prefixed(b)
  {
    if a == [] {
      assert a + b == b;
    } else {
      assert (a + b)[1..] == a[1..] + b;
      PrefixedConcat(a[1..], b);
    }
  }

  /** From encoder to decoder: whatever follows the complete units, the converted sample splits into
      the parameter sets of a keyframe and then the units, unchanged and in order. */
  lemma {:induction false} SampleRecovered(units: seq<seq<byte>>, rest: seq<byte>, parameterSets: seq<seq<byte>>)
    requires Lengths(units) && !HoldsUnit(rest)
    requires forall i :: 0 <= i < |units| ==> EmulationFree(units[i])
    requires forall i :: 0 <= i < |parameterSets| ==> EmulationFree(parameterSets[i])
    ensures var avcc := LengthPrefixed(units) + rest;
            Split(Sample(avcc, parameterSets)) == (if IDR in NalTypes(avcc) then parameterSets else []) + units
  {
    hide EmulationFree, NalTypes, Split, Convert;
    var avcc := LengthPrefixed(units) + rest;
    var sets := if IDR in NalTypes(avcc) then parameterSets else [];
    ConvertExact(units, rest);
    PrefixedConcat(sets, units);
    SplitRecovers(sets + units);
  }
}
