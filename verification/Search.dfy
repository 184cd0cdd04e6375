/** Searching sequences for the first occurrence of another. */
module Search {
  import opened Bytes

  /** The first index at which `needle` occurs; an empty needle occurs nowhere. */
  function FindSubsequence<T(==)>(hay: seq<T>, needle: seq<T>): (r: Option<nat>)
    ensures needle == [] ==> r == None
    ensures r.Some? ==> r.value + |needle| <= |hay| && hay[r.value..r.value + |needle|] == needle
    decreases |hay|
  {
    if needle == [] || |hay| < |needle| then None
    else if hay[..|needle|] == needle then Some(0)
    else
      match FindSubsequence(hay[1..], needle)
      case None => None
      case Some(k) =>
        assert hay[1..][k..k + |needle|] == hay[k + 1..k + 1 + |needle|];
        Some(k + 1)
  }

  lemma {:induction false} FindNext<T>(hay: seq<T>, needle: seq<T>)
    requires |hay| >= |needle| > 0 && hay[..|needle|] != needle
    ensures FindSubsequence(hay, needle)
            == match FindSubsequence(hay[1..], needle) case None => None case Some(k) => Some(k + 1)
  {
  }

  lemma FindHere<T>(hay: seq<T>, needle: seq<T>)
    requires |hay| >= |needle| > 0 && hay[..|needle|] == needle
    ensures FindSubsequence(hay, needle) == Some(0)
  {
  }

  /** The answer is the first occurrence: none starts earlier, and none at all if there is no answer. */
  lemma {:induction false} FindFirst<T>(hay: seq<T>, needle: seq<T>, j: nat)
    requires needle != [] && j + |needle| <= |hay| && hay[j..j + |needle|] == needle
    ensures FindSubsequence(hay, needle).Some? && FindSubsequence(hay, needle).value <= j
  {
    if hay[..|needle|] == needle {
    } else {
      assert hay[1..][j - 1..j - 1 + |needle|] == hay[j..j + |needle|];
      FindFirst(hay[1..], needle, j - 1);
    }
  }

  lemma {:induction false} FindStable<T>(hay: seq<T>, needle: seq<T>, more: seq<T>)
    requires FindSubsequence(hay, needle).Some?
    ensures FindSubsequence(hay + more, needle) == FindSubsequence(hay, needle)
  {
    assert (hay + more)[..|needle|] == hay[..|needle|];
    if hay[..|needle|] == needle {
    } else {
      FindStable(hay[1..], needle, more);
      assert (hay + more)[1..] == hay[1..] + more;
    }
  }

  /** Text without the needle's first element cannot hold the start of an occurrence. */
  lemma {:induction false} FindPastPlain<T>(text: seq<T>, needle: seq<T>, rest: seq<T>)
    requires needle != [] && needle[0] !in text
    ensures FindSubsequence(text + needle + rest, needle) == Some(|text|)
  {
    hide FindSubsequence;
    var hay := text + needle + rest;
    if text == [] {
      assert hay[..|needle|] == needle;
      FindHere(hay, needle);
    } else {
      assert hay[..|needle|][0] == text[0];
      FindNext(hay, needle);
      assert hay[1..] == text[1..] + needle + rest;
      FindPastPlain(text[1..], needle, rest);
    }
  }

  /** The same, when the occurrence is somewhere further on. */
  lemma {:induction false} FindShifted<T>(text: seq<T>, rest: seq<T>, needle: seq<T>)
    requires needle != [] && needle[0] !in text && |rest| >= |needle|
    ensures FindSubsequence(text + rest, needle)
            == match FindSubsequence(rest, needle) case None => None case Some(k) => Some(k + |text|)
  {
    hide FindSubsequence;
    if text == [] {
      assert text + rest == rest;
    } else {
      var hay := text + rest;
      assert hay[..|needle|][0] == text[0];
      FindNext(hay, needle);
      assert hay[1..] == text[1..] + rest;
      FindShifted(text[1..], rest, needle);
    }
  }
}
