/** Five-digit ZIP codes, their numeric value and the two orders the core
    sorts them by: `Array.prototype.sort()`'s default string order in the
    exporter and `Number(a) - Number(b)` in the report. */
module ZipCodes {
  import opened JsText

  /** What the regular expression `\d{5}` captures. */
  predicate IsZip(s: string) {
    |s| == 5 && IsDigits(s)
  }

  type Zip = s: string | IsZip(s) witness "00000"

  /** `Number(z)`. */
  function ZipValue(z: Zip): nat {
    DigitsValue(z)
  }

  function Min(a: int, b: int): int {
    if a <= b then a else b
  }

  function Max(a: int, b: int): int {
    if a >= b then a else b
  }

  /** JavaScript's default comparison of strings, by code unit. */
  predicate LexLess(a: string, b: string) {
    if a == [] then b != []
    else if b == [] then false
    else if a[0] != b[0] then a[0] < b[0]
    else LexLess(a[1..], b[1..])
  }

  lemma ScaleGap(da: nat, db: nat, p: nat)
    requires da < db && p >= 1
    ensures da * p + p <= db * p
  {
    var g := db - da;
    assert g >= 1;
    assert g * p >= p;
    assert db * p == da * p + g * p;
  }

  /** Character order on equal-length digit strings implies value order. */
  lemma {:induction false} LexLessValue(a: string, b: string)
    requires IsDigits(a) && IsDigits(b) && |a| == |b| && LexLess(a, b)
    ensures DigitsValue(a) < DigitsValue(b)
  {
    DigitsValueFront(a);
    DigitsValueFront(b);
    if a[0] == b[0] {
      LexLessValue(a[1..], b[1..]);
    } else {
      DigitsValueBound(a[1..]);
      ScaleGap(DigitValue(a[0]), DigitValue(b[0]), Pow10(|a| - 1));
    }
  }

  /** Two strings of one length are equal or one precedes the other. */
  lemma {:induction false} LexTrichotomy(a: string, b: string)
    requires |a| == |b|
    ensures a == b || LexLess(a, b) || LexLess(b, a)
  {
    if a != [] && a[0] == b[0] {
      LexTrichotomy(a[1..], b[1..]);
      if a[1..] == b[1..] {
        assert a == [a[0]] + a[1..] && b == [b[0]] + b[1..];
      }
    }
  }

  /** Two digit strings of one length compare by value as they compare by
      characters. */
  lemma DigitsOrderAgrees(a: string, b: string)
    requires IsDigits(a) && IsDigits(b) && |a| == |b|
    ensures DigitsValue(a) < DigitsValue(b) <==> LexLess(a, b)
    ensures DigitsValue(a) == DigitsValue(b) <==> a == b
  {
    LexTrichotomy(a, b);
    if LexLess(a, b) { LexLessValue(a, b); }
    if LexLess(b, a) { LexLessValue(b, a); }
  }

  /** On ZIP codes the default string sort and the numeric sort agree. */
  lemma ZipOrderAgrees(a: Zip, b: Zip)
    ensures ZipValue(a) < ZipValue(b) <==> LexLess(a, b)
    ensures ZipValue(a) == ZipValue(b) <==> a == b
  {
    DigitsOrderAgrees(a, b);
  }

  /** Sorted ascending by numeric value, with no repeats. */
  predicate Increasing(s: seq<Zip>) {
    forall i, j :: 0 <= i < j < |s| ==> ZipValue(s[i]) < ZipValue(s[j])
  }

  predicate Distinct<T(==)>(s: seq<T>) {
    forall i, j :: 0 <= i < j < |s| ==> s[i] != s[j]
  }

  /** An increasing list is also sorted in the default string order. */
  lemma IncreasingIsLexSorted(s: seq<Zip>)
    requires Increasing(s)
    ensures forall i, j :: 0 <= i < j < |s| ==> LexLess(s[i], s[j])
  {
    forall i, j | 0 <= i < j < |s| ensures LexLess(s[i], s[j]) {
      ZipOrderAgrees(s[i], s[j]);
    }
  }

  /** Puts `z` in numeric position within `s`. */
  function Insert(z: Zip, s: seq<Zip>): seq<Zip> {
    if s == [] then [z]
    else if ZipValue(z) <= ZipValue(s[0]) then [z] + s
    else [s[0]] + Insert(z, s[1..])
  }

  lemma {:induction false} InsertPermutes(z: Zip, s: seq<Zip>)
    ensures multiset(Insert(z, s)) == multiset(s) + multiset{z}
  {
    if s != [] && ZipValue(z) > ZipValue(s[0]) {
      InsertPermutes(z, s[1..]);
      ConsMultiset(s[0], s[1..], Insert(z, s[1..]), multiset{z});
      assert s == [s[0]] + s[1..];
    }
  }

  lemma ConsMultiset<T>(h: T, s: seq<T>, r: seq<T>, extra: multiset<T>)
    requires multiset(r) == multiset(s) + extra
    ensures multiset([h] + r) == multiset([h] + s) + extra
  {
  }

  lemma {:induction false} InsertIncreasing(z: Zip, s: seq<Zip>)
    requires Increasing(s) && z !in s
    ensures Increasing(Insert(z, s))
  {
    if s == [] {
    } else if ZipValue(z) <= ZipValue(s[0]) {
      ZipOrderAgrees(z, s[0]);
      ConsIncreasing(z, s);
    } else {
      var rest := Insert(z, s[1..]);
      InsertIncreasing(z, s[1..]);
      InsertPermutes(z, s[1..]);
      forall x | x in rest ensures ZipValue(s[0]) < ZipValue(x) {
        assert x in multiset(rest);
        if x != z {
          var k :| 0 <= k < |s[1..]| && s[1..][k] == x;
          assert s[k + 1] == x;
        }
      }
      ConsIncreasing(s[0], rest);
    }
  }

  /** An element below everything in an increasing list can go in front. */
  lemma ConsIncreasing(h: Zip, rest: seq<Zip>)
    requires Increasing(rest)
    requires forall x :: x in rest ==> ZipValue(h) < ZipValue(x)
    ensures Increasing([h] + rest)
  {
    var s := [h] + rest;
    forall i, j | 0 <= i < j < |s| ensures ZipValue(s[i]) < ZipValue(s[j]) {
      assert s[j] == rest[j - 1] && s[j] in rest;
      if i > 0 { assert s[i] == rest[i - 1]; }
    }
  }

  /** The model of `list.sort(...)` on ZIP codes: an insertion sort by
      numeric value. */
  function SortZips(s: seq<Zip>): seq<Zip> {
    if s == [] then [] else Insert(s[0], SortZips(s[1..]))
  }

  /** Sorting keeps exactly the elements it was given. */
  lemma {:induction false} SortZipsPermutes(s: seq<Zip>)
    ensures multiset(SortZips(s)) == multiset(s)
  {
    if s != [] {
      SortZipsPermutes(s[1..]);
      InsertPermutes(s[0], SortZips(s[1..]));
      assert s == [s[0]] + s[1..];
    }
  }

  /** Sorting a list without repeats gives it in increasing order. */
  lemma {:induction false} SortZipsIncreasing(s: seq<Zip>)
    requires Distinct(s)
    ensures Increasing(SortZips(s))
  {
    if s != [] {
      var rest := SortZips(s[1..]);
      SortZipsIncreasing(s[1..]);
      SortZipsPermutes(s[1..]);
      assert s[0] !in s[1..] by {
        forall k | 0 <= k < |s[1..]| ensures s[1..][k] != s[0] {
          assert s[1..][k] == s[k + 1];
        }
      }
      assert s[0] !in multiset(rest);
      InsertIncreasing(s[0], rest);
    }
  }

  /** What the report and the exporter rely on from the sort of a list
      without repeats: the same members, in increasing order. */
  lemma SortedDistinct(s: seq<Zip>)
    requires Distinct(s)
    ensures Increasing(SortZips(s))
    ensures forall z :: z in SortZips(s) <==> z in s
  {
    SortZipsIncreasing(s);
    SortZipsPermutes(s);
    forall z ensures z in SortZips(s) <==> z in s {
      assert z in SortZips(s) <==> z in multiset(SortZips(s));
    }
  }

  /** A sequence is empty exactly when nothing is in it. */
  lemma EmptyIffNoMembers<T>(s: seq<T>)
    ensures s == [] <==> forall y :: y !in s
  {
    if s != [] {
      assert s[0] in s;
    }
  }

  lemma MemberNonEmpty<T>(x: T, t: seq<T>)
    requires x in t
    ensures t != []
  {
  }

  /** Two increasing lists with the same members start alike. */
  lemma HeadsAgree(s: seq<Zip>, t: seq<Zip>)
    requires Increasing(s) && Increasing(t) && s != [] && t != []
    requires forall z :: z in s <==> z in t
    ensures s[0] == t[0]
  {
    assert s[0] in t && t[0] in s;
    var i :| 0 <= i < |t| && t[i] == s[0];
    var j :| 0 <= j < |s| && s[j] == t[0];
    assert ZipValue(s[0]) <= ZipValue(s[j]);
    assert ZipValue(t[0]) <= ZipValue(t[i]);
    ZipOrderAgrees(s[0], t[0]);
  }

  /** Dropping a common first element from two increasing lists with the
      same members leaves lists with the same members. */
  lemma TailsAgree(s: seq<Zip>, t: seq<Zip>)
    requires Increasing(s) && Increasing(t) && s != [] && t != [] && s[0] == t[0]
    requires forall z :: z in s <==> z in t
    ensures forall z :: z in s[1..] <==> z in t[1..]
  {
    forall z ensures z in s[1..] ==> z in t[1..] {
      TailMember(s, t, z);
    }
    forall z ensures z in t[1..] ==> z in s[1..] {
      TailMember(t, s, z);
    }
  }

  lemma TailMember(s: seq<Zip>, t: seq<Zip>, z: Zip)
    requires Increasing(s) && Increasing(t) && s != [] && t != [] && s[0] == t[0]
    requires forall y :: y in s <==> y in t
    ensures z in s[1..] ==> z in t[1..]
  {
    if z in s[1..] {
      var k :| 0 <= k < |s[1..]| && s[1..][k] == z;
      assert s[k + 1] == z && ZipValue(s[0]) < ZipValue(z);
      assert z in t;
      var m :| 0 <= m < |t| && t[m] == z;
      assert m != 0;
      assert t[1..][m - 1] == z;
    }
  }

  /** Two increasing lists with the same members are the same list. */
  lemma {:induction false} IncreasingUnique(s: seq<Zip>, t: seq<Zip>)
    requires Increasing(s) && Increasing(t)
    requires forall z :: z in s <==> z in t
    ensures s == t
  {
    if s != [] {
      MemberNonEmpty(s[0], t);
    }
    if t != [] {
      MemberNonEmpty(t[0], s);
    }
    if s != [] && t != [] {
      HeadsAgree(s, t);
      TailsAgree(s, t);
      IncreasingUnique(s[1..], t[1..]);
      assert s == [s[0]] + s[1..] && t == [t[0]] + t[1..];
    }
  }
}
