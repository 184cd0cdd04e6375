/** Octets, fixed-width integers and concatenation, shared by every codec of the model. */
module Bytes {
  type byte = x: int | 0 <= x < 0x100
  type u16 = x: int | 0 <= x < 0x1_0000
  type u32 = x: int | 0 <= x < 0x1_0000_0000
  type u64 = x: int | 0 <= x < 0x1_0000_0000_0000_0000

  datatype Option<+T> = None | Some(value: T)

  /** An octet as a plain integer, for arithmetic that leaves the octet range. */
  function At(s: seq<byte>, i: nat): (x: int)
    requires i < |s|
    ensures 0 <= x < 0x100
  {
    s[i]
  }

  /** Two octets, most significant first. */
  function Word16(s: seq<byte>, i: nat): (x: int)
    requires i + 1 < |s|
    ensures 0 <= x < 0x1_0000
  {
    At(s, i) * 0x100 + At(s, i + 1)
  }

  function Min(a: int, b: int): int {
    if a <= b then a else b
  }

  /** The concatenation of a list of sequences. */
  function Flatten<T>(ss: seq<seq<T>>): seq<T> {
    if ss == [] then [] else ss[0] + Flatten(ss[1..])
  }

  lemma {:induction false} FlattenConcat<T>(a: seq<seq<T>>, b: seq<seq<T>>)
    ensures Flatten(a + b) == Flatten(a) + Flatten(b)
  {
    if a == [] {
      assert a + b == b;
    } else {
      assert (a + b)[1..] == a[1..] + b;
      FlattenConcat(a[1..], b);
    }
  }

  lemma FlattenSnoc<T>(a: seq<seq<T>>, s: seq<T>)
    ensures Flatten(a + [s]) == Flatten(a) + s
  {
    FlattenConcat(a, [s]);
    assert Flatten([s]) == s + Flatten<T>([]);
  }

  lemma FlattenPair<T>(a: seq<T>, b: seq<T>)
    ensures Flatten([a, b]) == a + b
  {
    assert [a, b] == [a] + [b];
    FlattenSnoc([a], b);
    FlattenSnoc([], a);
    assert [] + [a] == [a];
  }

  lemma ConcatAssoc<T>(a: seq<T>, b: seq<T>, c: seq<T>)
    ensures a + b + c == a + (b + c)
  {
  }

  /** The elements of `s` whose mask bit is set, in order: an arbitrary subsequence of `s`. */
  function Kept<T>(s: seq<T>, mask: seq<bool>): seq<T>
    requires |mask| == |s|
  {
    if s == [] then [] else (if mask[0] then [s[0]] else []) + Kept(s[1..], mask[1..])
  }

  lemma KeptNone<T>(s: seq<T>, mask: seq<bool>)
    requires |mask| == |s| == 0
    ensures Kept(s, mask) == []
  {
  }

  lemma TailConcat<T>(s: seq<T>, t: seq<T>)
    requires s != []
    ensures (s + t)[0] == s[0] && (s + t)[1..] == s[1..] + t
  {
  }

  lemma KeptUnfold<T>(s: seq<T>, mask: seq<bool>)
    requires |mask| == |s| > 0
    ensures Kept(s, mask) == if mask[0] then [s[0]] + Kept(s[1..], mask[1..]) else Kept(s[1..], mask[1..])
  {
  }

  lemma {:induction false} KeptConcat<T>(s: seq<T>, m: seq<bool>, t: seq<T>, n: seq<bool>)
    requires |m| == |s| && |n| == |t|
    ensures Kept(s + t, m + n) == Kept(s, m) + Kept(t, n)
  {
    hide Kept;
    if s == [] {
      assert s + t == t && m + n == n;
      KeptNone(s, m);
    } else {
      TailConcat(s, t);
      TailConcat(m, n);
      KeptConcat(s[1..], m[1..], t, n);
      KeptUnfold(s, m);
      KeptUnfold(s + t, m + n);
      ConcatAssoc([s[0]], Kept(s[1..], m[1..]), Kept(t, n));
    }
  }
}
