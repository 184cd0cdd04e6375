/** Strict orders, sorting and duplicate removal on sequences. */
module Ordering {

  ghost predicate Transitive<T(!new)>(lt: (T, T) -> bool) {
    forall x, y, z :: lt(x, y) && lt(y, z) ==> lt(x, z)
  }

  ghost predicate Irreflexive<T(!new)>(lt: (T, T) -> bool) {
    forall x :: !lt(x, x)
  }

  predicate StrictlySorted<T>(lt: (T, T) -> bool, s: seq<T>) {
    forall i, j :: 0 <= i < j < |s| ==> lt(s[i], s[j])
  }

  /** Any two positions hold comparable values; in particular no value occurs twice. */
  predicate Comparable<T>(lt: (T, T) -> bool, s: seq<T>) {
    forall i, j :: 0 <= i < j < |s| ==> lt(s[i], s[j]) || lt(s[j], s[i])
  }

  function Insert<T(!new)>(lt: (T, T) -> bool, x: T, s: seq<T>): (r: seq<T>)
    ensures |r| == |s| + 1
    ensures forall y :: y in r <==> y == x || y in s
  {
    if s == [] then [x]
    else if lt(s[0], x) then
      var rest := Insert(lt, x, s[1..]);
      assert s == [s[0]] + s[1..];
      [s[0]] + rest
    else [x] + s
  }

  function Sort<T(!new)>(lt: (T, T) -> bool, s: seq<T>): (r: seq<T>)
    ensures |r| == |s|
    ensures forall y :: y in r <==> y in s
  {
    if s == [] then []
    else
      assert s == [s[0]] + s[1..];
      Insert(lt, s[0], Sort(lt, s[1..]))
  }

  lemma {:induction false} InsertSorted<T(!new)>(lt: (T, T) -> bool, x: T, s: seq<T>)
    requires Transitive(lt) && StrictlySorted(lt, s)
    requires forall y :: y in s ==> lt(x, y) || lt(y, x)
    ensures StrictlySorted(lt, Insert(lt, x, s))
  {
    if s == [] {
    } else {
      if lt(s[0], x) {
        InsertSorted(lt, x, s[1..]);
        var rest := Insert(lt, x, s[1..]);
        forall j | 0 <= j < |rest| ensures lt(s[0], rest[j]) {
          assert rest[j] in rest;
          if rest[j] != x {
            var k :| 0 <= k < |s[1..]| && s[1..][k] == rest[j];
            assert lt(s[0], s[k + 1]);
          }
        }
      } else {
        assert s[0] in s && lt(x, s[0]);
        forall j | 0 <= j < |s| ensures lt(x, s[j]) {
          assert j == 0 || lt(s[0], s[j]);
        }
      }
    }
  }

  /** Pairwise comparable values come out strictly increasing. */
  lemma {:induction false} SortSorted<T(!new)>(lt: (T, T) -> bool, s: seq<T>)
    requires Transitive(lt) && Comparable(lt, s)
    ensures StrictlySorted(lt, Sort(lt, s))
  {
    if s == [] {
    } else {
      SortSorted(lt, s[1..]);
      forall y | y in Sort(lt, s[1..]) ensures lt(s[0], y) || lt(y, s[0]) {
        var k :| 0 <= k < |s[1..]| && s[1..][k] == y;
        assert y == s[k + 1];
      }
      InsertSorted(lt, s[0], Sort(lt, s[1..]));
    }
  }

  /** A strictly increasing sequence is determined by its elements. */
  lemma {:induction false} SortedUnique<T(!new)>(lt: (T, T) -> bool, s: seq<T>, t: seq<T>)
    requires Transitive(lt) && Irreflexive(lt)
    requires StrictlySorted(lt, s) && StrictlySorted(lt, t)
    requires forall x :: x in s <==> x in t
    ensures s == t
  {
    if s == [] {
      if t != [] {
        var x := SomeElement(t);
        assert false;
      }
    } else {
      assert s[0] in t;
      assert t[0] in s;
      HeadIsLeast(lt, s, t[0]);
      HeadIsLeast(lt, t, s[0]);
      assert s[0] == t[0];
      forall x ensures x in s[1..] <==> x in t[1..] {
        TailElements(lt, s, x);
        TailElements(lt, t, x);
      }
      SortedUnique(lt, s[1..], t[1..]);
    }
  }

  lemma SomeElement<T>(s: seq<T>) returns (x: T)
    requires s != []
    ensures x in s
  {
    x := s[0];
  }

  lemma HeadIsLeast<T(!new)>(lt: (T, T) -> bool, s: seq<T>, x: T)
    requires s != [] && x in s && StrictlySorted(lt, s)
    ensures x == s[0] || lt(s[0], x)
  {
  }

  lemma TailElements<T(!new)>(lt: (T, T) -> bool, s: seq<T>, x: T)
    requires s != [] && Irreflexive(lt) && StrictlySorted(lt, s)
    ensures x in s[1..] <==> x in s && x != s[0]
  {
  }

  /** The elements of `s` in order of first occurrence. */
  function Distinct<T(==, !new)>(s: seq<T>): (r: seq<T>)
    ensures forall x :: x in r <==> x in s
    ensures forall i, j :: 0 <= i < j < |r| ==> r[i] != r[j]
  {
    if s == [] then []
    else
      var front := s[..|s| - 1];
      assert s == front + [s[|s| - 1]];
      var d := Distinct(front);
      if s[|s| - 1] in d then d else d + [s[|s| - 1]]
  }

  lemma DistinctSnoc<T(!new)>(s: seq<T>, x: T)
    ensures Distinct(s + [x]) == if x in s then Distinct(s) else Distinct(s) + [x]
  {
  }

  // ----- lexicographic order on strings -----

  predicate StringLess(s: string, t: string) {
    if t == [] then false
    else if s == [] then true
    else s[0] < t[0] || (s[0] == t[0] && StringLess(s[1..], t[1..]))
  }

  lemma {:induction false} StringLessTransitive(s: string, t: string, u: string)
    requires StringLess(s, t) && StringLess(t, u)
    ensures StringLess(s, u)
  {
    if s == [] || s[0] != t[0] || t[0] != u[0] {
    } else {
      StringLessTransitive(s[1..], t[1..], u[1..]);
    }
  }

  lemma {:induction false} StringLessIrreflexive(s: string)
    ensures !StringLess(s, s)
  {
    if s == [] {
    } else {
      StringLessIrreflexive(s[1..]);
    }
  }

  lemma {:induction false} StringLessTotal(s: string, t: string)
    ensures s == t || StringLess(s, t) || StringLess(t, s)
  {
    if s == [] || t == [] || s[0] != t[0] {
    } else {
      StringLessTotal(s[1..], t[1..]);
      assert s == [s[0]] + s[1..] && t == [t[0]] + t[1..];
    }
  }

  lemma {:induction false} StringLessOrders()
    ensures Transitive(StringLess) && Irreflexive(StringLess)
    ensures forall s: string, t: string :: s == t || StringLess(s, t) || StringLess(t, s)
  {
    forall s, t, u | StringLess(s, t) && StringLess(t, u) ensures StringLess(s, u) {
      StringLessTransitive(s, t, u);
    }
    forall s ensures !StringLess(s, s) {
      StringLessIrreflexive(s);
    }
    forall s: string, t: string ensures s == t || StringLess(s, t) || StringLess(t, s) {
      StringLessTotal(s, t);
    }
  }

  /** The least string of a non-empty set. */
  function MinString(ids: set<string>): (m: string)
    requires ids != {}
    ensures m in ids && forall x :: x in ids ==> x == m || StringLess(m, x)
  {
    MinStringExists(ids);
    StringLessOrders();
    var m :| m in ids && forall x :: x in ids ==> x == m || StringLess(m, x);
    m
  }

  lemma {:induction false} MinStringExists(ids: set<string>)
    requires ids != {}
    ensures exists m :: m in ids && forall x :: x in ids ==> x == m || StringLess(m, x)
  {
    hide StringLess;
    StringLessOrders();
    var s :| s in ids;
    var rest := ids - {s};
    if rest == {} {
      assert ids == {s};
    } else {
      MinStringExists(rest);
      var m :| m in rest && forall x :: x in rest ==> x == m || StringLess(m, x);
      var best := if StringLess(s, m) then s else m;
      forall x | x in ids ensures x == best || StringLess(best, x) {
        assert x == s || x in rest;
      }
    }
  }
}
