/**
 Facts about sequences that the other modules share: filtering, uniqueness of keys,
 and the JavaScript `slice(offset, offset + limit)` that every paged query ends with.
 */
module Sequences {

  datatype Option<+T> = None | Some(value: T)

  function Min(a: int, b: int): int { if a <= b then a else b }

  function Max(a: int, b: int): int { if a >= b then a else b }

  function Filter<T>(p: T -> bool, s: seq<T>): seq<T> {
    if s == [] then [] else if p(s[0]) then [s[0]] + Filter(p, s[1..]) else Filter(p, s[1..])
  }

  function Map<T, U>(f: T -> U, s: seq<T>): (r: seq<U>)
    ensures |r| == |s|
    ensures forall i :: 0 <= i < |s| ==> r[i] == f(s[i])
  {
    if s == [] then [] else [f(s[0])] + Map(f, s[1..])
  }

  function Reverse<T>(s: seq<T>): (r: seq<T>)
    ensures |r| == |s|
  {
    if s == [] then [] else Reverse(s[1..]) + [s[0]]
  }

  /** `s.slice(from, from + count)` for non-negative arguments. */
  function Slice<T>(s: seq<T>, from: nat, count: nat): seq<T> {
    s[Min(from, |s|)..Min(from + count, |s|)]
  }

  /** `s.slice(0, count)`. */
  function Take<T>(s: seq<T>, count: nat): seq<T> {
    s[..Min(count, |s|)]
  }

  function LowerChar(c: char): char {
    if 'A' <= c <= 'Z' then (c as int + 32) as char else c
  }

  /** `text.toLowerCase()` on ASCII text. */
  function Lower(text: string): string { Map(LowerChar, text) }

  /** A natural number in decimal notation. */
  function Decimal(n: nat): string {
    (if n < 10 then "" else Decimal(n / 10)) + ["0123456789"[n % 10]]
  }

  /** `text.includes(part)` */
  predicate Contains(text: string, part: string) {
    part <= text || (text != [] && Contains(text[1..], part))
  }

  lemma {:induction false} ContainsNoLonger(text: string, part: string)
    ensures Contains(text, part) ==> |part| <= |text|
    ensures Contains(text, part) && |part| == |text| ==> part == text
  {
    if text != [] {
      ContainsNoLonger(text[1..], part);
    }
  }

  predicate Distinct<T(==)>(s: seq<T>) {
    forall i, j :: 0 <= i < j < |s| ==> s[i] != s[j]
  }

  lemma {:induction false} FilterAppend<T>(p: T -> bool, s: seq<T>, t: seq<T>)
    ensures Filter(p, s + t) == Filter(p, s) + Filter(p, t)
  {
    if s == [] {
      assert s + t == t;
    } else {
      FilterAppend(p, s[1..], t);
      assert (s + t)[1..] == s[1..] + t;
    }
  }

  lemma {:induction false} FilterIn<T(!new)>(p: T -> bool, s: seq<T>)
    ensures forall x :: x in Filter(p, s) <==> x in s && p(x)
  {
    if s != [] {
      FilterIn(p, s[1..]);
      assert s == [s[0]] + s[1..];
    }
  }

  lemma {:induction false} FilterElement<T>(p: T -> bool, s: seq<T>, x: T)
    requires x in Filter(p, s)
    ensures x in s && p(x)
  {
    if x != s[0] || !p(x) {
      FilterElement(p, s[1..], x);
    }
  }

  lemma {:induction false} FilterAll<T>(p: T -> bool, s: seq<T>)
    requires forall x :: x in s ==> p(x)
    ensures Filter(p, s) == s
  {
    if s != [] {
      FilterAll(p, s[1..]);
      assert s == [s[0]] + s[1..];
    }
  }

  lemma {:induction false} FilterNone<T>(p: T -> bool, s: seq<T>)
    requires forall x :: x in s ==> !p(x)
    ensures Filter(p, s) == []
  {
    if s != [] {
      FilterNone(p, s[1..]);
      assert s == [s[0]] + s[1..];
    }
  }

  /** Two predicates that agree on the elements select the same elements. */
  lemma {:induction false} FilterCongruent<T>(p: T -> bool, q: T -> bool, s: seq<T>)
    requires forall x :: x in s ==> (p(x) <==> q(x))
    ensures Filter(p, s) == Filter(q, s)
  {
    if s != [] {
      FilterCongruent(p, q, s[1..]);
    }
  }

  /** Filtering twice is filtering once by the conjunction. */
  lemma {:induction false} FilterFilter<T>(p: T -> bool, q: T -> bool, r: T -> bool, s: seq<T>)
    requires forall x :: x in s ==> (r(x) <==> p(x) && q(x))
    ensures Filter(q, Filter(p, s)) == Filter(r, s)
  {
    if s != [] {
      FilterFilter(p, q, r, s[1..]);
      assert ([s[0]] + Filter(p, s[1..]))[1..] == Filter(p, s[1..]);
    }
  }

  /** A subsequence as long as the list it was selected from is that list. */
  lemma {:induction false} FilterLength<T>(p: T -> bool, s: seq<T>)
    ensures |Filter(p, s)| <= |s|
    ensures |Filter(p, s)| == |s| ==> Filter(p, s) == s
  {
    if s != [] {
      FilterLength(p, s[1..]);
      assert s == [s[0]] + s[1..];
    }
  }

  /** Uniqueness of a key survives filtering. */
  lemma {:induction false} FilterKeepsDistinct<T, K>(p: T -> bool, key: T -> K, s: seq<T>)
    requires Distinct(Map(key, s))
    ensures Distinct(Map(key, Filter(p, s)))
  {
    if s != [] {
      var rest := Filter(p, s[1..]);
      assert Distinct(Map(key, s[1..])) by {
        forall i, j | 0 <= i < j < |s| - 1
          ensures Map(key, s[1..])[i] != Map(key, s[1..])[j]
        {
          assert Map(key, s)[i + 1] != Map(key, s)[j + 1];
        }
      }
      FilterKeepsDistinct(p, key, s[1..]);
      forall j | 0 <= j < |rest|
        ensures key(rest[j]) != key(s[0])
      {
        var y := rest[j];
        FilterElement(p, s[1..], y);
        var k :| 0 <= k < |s[1..]| && s[1..][k] == y;
        assert Map(key, s)[0] != Map(key, s)[k + 1];
      }
    }
  }

  /** Uniqueness of a key, read off at the end of the list: the prefix is unique and the last key is new to it. */
  lemma DistinctLast<T, K>(key: T -> K, s: seq<T>, x: T)
    requires Distinct(Map(key, s + [x]))
    ensures Distinct(Map(key, s))
    ensures forall y :: y in s ==> key(y) != key(x)
  {
    var keys := Map(key, s + [x]);
    forall i, j | 0 <= i < j < |s|
      ensures Map(key, s)[i] != Map(key, s)[j]
    {
      assert keys[i] != keys[j];
    }
    forall i | 0 <= i < |s|
      ensures key(s[i]) != key(x)
    {
      assert keys[i] != keys[|s|];
    }
  }

  /** ... and back. */
  lemma DistinctSnoc<T, K>(key: T -> K, s: seq<T>, x: T)
    requires Distinct(Map(key, s))
    requires forall y :: y in s ==> key(y) != key(x)
    ensures Distinct(Map(key, s + [x]))
  {
    var keys := Map(key, s + [x]);
    forall i, j | 0 <= i < j <= |s|
      ensures keys[i] != keys[j]
    {
      assert s[i] in s;
      if j < |s| {
        assert Map(key, s)[i] != Map(key, s)[j];
      }
    }
  }

  lemma Twice<T>(t: seq<T>, i: nat, j: nat)
    requires i < j < |t| && t[i] == t[j]
    ensures multiset(t)[t[i]] >= 2
  {
    assert t == t[..j] + [t[j]] + t[j + 1..];
    assert t[i] in t[..j];
  }

  lemma {:induction false} Once<T, K>(key: T -> K, s: seq<T>, x: T)
    requires Distinct(Map(key, s))
    ensures multiset(s)[x] <= 1
  {
    if s != [] {
      var init, last := s[..|s| - 1], s[|s| - 1];
      assert s == init + [last];
      DistinctLast(key, init, last);
      Once(key, init, x);
      assert last !in init;
    }
  }

  /** Rearranging a list cannot make a key repeat. */
  lemma DistinctContents<T, K>(key: T -> K, s: seq<T>, t: seq<T>)
    requires Distinct(Map(key, s)) && multiset(t) == multiset(s)
    ensures Distinct(Map(key, t))
  {
    forall i, j | 0 <= i < j < |t|
      ensures key(t[i]) != key(t[j])
    {
      assert t[i] in multiset(s) && t[j] in multiset(s);
      var a :| 0 <= a < |s| && s[a] == t[i];
      var b :| 0 <= b < |s| && s[b] == t[j];
      assert a != b ==> Map(key, s)[a] != Map(key, s)[b];
      if a == b {
        Twice(t, i, j);
        Once(key, s, t[i]);
        assert false;
      }
      assert a < b || b < a;
    }
  }

  lemma {:induction false} ReverseAppend<T>(s: seq<T>, x: T)
    ensures Reverse(s + [x]) == [x] + Reverse(s)
  {
    if s != [] {
      ReverseAppend(s[1..], x);
      assert (s + [x])[1..] == s[1..] + [x];
    }
  }

  lemma {:induction false} ReverseIn<T>(s: seq<T>)
    ensures forall x :: x in Reverse(s) <==> x in s
  {
    if s != [] {
      ReverseIn(s[1..]);
      assert s == [s[0]] + s[1..];
    }
  }

  /** Consecutive slices glue together: a prefix followed by the slice at its length is a longer prefix. */
  lemma SliceExtendsTake<T>(s: seq<T>, held: nat, count: nat)
    requires held <= |s|
    ensures Take(s, held) + Slice(s, held, count) == Take(s, held + count)
  {
    assert s[..held] + s[held..Min(held + count, |s|)] == s[..Min(held + count, |s|)];
  }

  /** The part stands in the text at position i. */
  predicate PartAt(text: string, part: string, i: nat) {
    i + |part| <= |text| && text[i..i + |part|] == part
  }

  lemma PartOfTail(text: string, part: string, i: nat)
    requires text != []
    ensures PartAt(text[1..], part, i) <==> PartAt(text, part, i + 1)
  {
    if i + |part| <= |text[1..]| {
      assert text[1..][i..i + |part|] == text[i + 1..i + 1 + |part|];
    }
  }

  /** A text contains a part exactly if the part stands somewhere in it. */
  lemma {:induction false} ContainsIs(text: string, part: string)
    ensures Contains(text, part) <==> exists i: nat :: PartAt(text, part, i)
  {
    assert part <= text <==> PartAt(text, part, 0);
    if text != [] {
      ContainsIs(text[1..], part);
      if i: nat :| PartAt(text[1..], part, i) {
        PartOfTail(text, part, i);
      }
      if i: nat :| i > 0 && PartAt(text, part, i) {
        PartOfTail(text, part, i - 1);
      }
    }
  }

  lemma {:induction false} DecimalDigits(n: nat)
    ensures Decimal(n) != [] && forall c :: c in Decimal(n) ==> '0' <= c <= '9'
  {
    if n >= 10 {
      DecimalDigits(n / 10);
    }
  }

  lemma DecimalEnds(n: nat)
    ensures var d := Decimal(n);
      d != [] && d[|d| - 1] == "0123456789"[n % 10] && d[..|d| - 1] == if n < 10 then "" else Decimal(n / 10)
  {
  }

  lemma {:induction false} DecimalIsInjective(a: nat, b: nat)
    requires Decimal(a) == Decimal(b)
    ensures a == b
  {
    hide Decimal;
    DecimalEnds(a);
    DecimalEnds(b);
    DigitsDiffer(a % 10, b % 10);
    DecimalDigits(a / 10);
    DecimalDigits(b / 10);
    if a >= 10 && b >= 10 {
      DecimalIsInjective(a / 10, b / 10);
    }
  }

  lemma DigitsDiffer(a: nat, b: nat)
    requires a < 10 && b < 10 && "0123456789"[a] == "0123456789"[b]
    ensures a == b
  {
  }

  /** A number's text is its decimal digits, the value of the text the number. */
  function Reads(s: string): int {
    if s == [] then 0 else 10 * Reads(s[..|s| - 1]) + (s[|s| - 1] as int - 48)
  }

  lemma {:induction false} DecimalReads(n: nat)
    ensures Reads(Decimal(n)) == n && Decimal(n) != [] && (n > 0 ==> Decimal(n)[0] != '0')
  {
    var d := Decimal(n);
    DecimalEnds(n);
    if n >= 10 {
      DecimalReads(n / 10);
      assert d[0] == d[..|d| - 1][0];
    }
  }
}
