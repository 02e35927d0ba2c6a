/** Decimal rendering of unsigned integers, as Rust's `{}` formats a `u32` or `usize`. */
module Strings {

  predicate IsDigit(c: char) {
    '0' <= c <= '9'
  }

  predicate AllDigits(s: string) {
    forall i :: 0 <= i < |s| ==> IsDigit(s[i])
  }

  function DigitChar(d: nat): (c: char)
    requires d < 10
    ensures IsDigit(c) && c as int - '0' as int == d
  {
    (d + '0' as int) as char
  }

  /** Decimal digits of `n`, most significant first, without leading zeros. */
  function NatToString(n: nat): (s: string)
    ensures |s| >= 1 && AllDigits(s)
    ensures n >= 10 ==> s[0] != '0'
    decreases n
  {
    if n < 10 then [DigitChar(n)] else NatToString(n / 10) + [DigitChar(n % 10)]
  }

  /** The number a string of decimal digits denotes. */
  function DigitsValue(s: string): nat
    requires AllDigits(s)
  {
    if s == [] then 0 else DigitsValue(s[..|s| - 1]) * 10 + (s[|s| - 1] as int - '0' as int)
  }

  /** Reading the rendering back gives the number: decimal rendering loses nothing. */
  lemma {:induction false} DigitsValueOfNatToString(n: nat)
    ensures DigitsValue(NatToString(n)) == n
    decreases n
  {
    if n >= 10 {
      var s := NatToString(n);
      assert s[..|s| - 1] == NatToString(n / 10);
      DigitsValueOfNatToString(n / 10);
    }
  }

  /** Distinct numbers render to distinct strings. */
  lemma NatToStringInjective(a: nat, b: nat)
    requires NatToString(a) == NatToString(b)
    ensures a == b
  {
    DigitsValueOfNatToString(a);
    DigitsValueOfNatToString(b);
  }

  /** Joins the strings with `sep` between neighbours (Rust's `join`). */
  function Join(parts: seq<string>, sep: string): (r: string)
    ensures parts == [] ==> r == []
    ensures |parts| == 1 ==> r == parts[0]
  {
    if parts == [] then []
    else if |parts| == 1 then parts[0]
    else Join(parts[..|parts| - 1], sep) + sep + parts[|parts| - 1]
  }

  /** The concatenation of all strings, in order. */
  function Concat(parts: seq<string>): string {
    if parts == [] then [] else Concat(parts[..|parts| - 1]) + parts[|parts| - 1]
  }

  lemma ConcatAppend(a: seq<string>, b: seq<string>)
    ensures Concat(a + b) == Concat(a) + Concat(b)
    decreases |b|
  {
    if b != [] {
      assert (a + b)[..|a + b| - 1] == a + b[..|b| - 1];
      ConcatAppend(a, b[..|b| - 1]);
    } else {
      assert a + b == a;
    }
  }

  /** Position of the first `c` in `s`. */
  function IndexOf(s: string, c: char): (i: nat)
    requires c in s
    ensures i < |s| && s[i] == c && c !in s[..i]
  {
    if s[0] == c then 0 else assert s == [s[0]] + s[1..]; 1 + IndexOf(s[1..], c)
  }

  lemma {:induction false} IndexOfAfterPrefix(a: string, b: string, c: char)
    requires c !in a
    ensures IndexOf(a + [c] + b, c) == |a|
  {
    if a != [] {
      assert (a + [c] + b)[1..] == a[1..] + [c] + b;
      IndexOfAfterPrefix(a[1..], b, c);
    }
  }

  /**
   * When two strings are split at the first occurrence of `c` they
   * agree on both halves: the basis of unambiguous `_`-separated names.
   */
  lemma SplitAtFirst(a1: string, b1: string, a2: string, b2: string, c: char)
    requires c !in a1 && c !in a2
    requires a1 + [c] + b1 == a2 + [c] + b2
    ensures a1 == a2 && b1 == b2
  {
    var s := a1 + [c] + b1;
    IndexOfAfterPrefix(a1, b1, c);
    IndexOfAfterPrefix(a2, b2, c);
    assert a1 == s[..|a1|];
    assert a2 == s[..|a2|];
    assert b1 == s[|a1| + 1..];
    assert b2 == s[|a2| + 1..];
  }

  /** Splitting off the first part of a join. */
  lemma {:induction false} JoinCons(parts: seq<string>, sep: string)
    requires |parts| >= 2
    ensures Join(parts, sep) == parts[0] + sep + Join(parts[1..], sep)
    decreases |parts|
  {
    if |parts| > 2 {
      JoinCons(parts[..|parts| - 1], sep);
      assert parts[..|parts| - 1][1..] == parts[1..][..|parts| - 2];
    }
  }

  /** Rust's `split(c)`: the pieces between the occurrences of `c`, empty ones included. */
  function Split(s: string, c: char): (r: seq<string>)
    ensures |r| >= 1
    ensures forall i :: 0 <= i < |r| ==> c !in r[i]
    ensures Join(r, [c]) == s
    decreases |s|
  {
    if c !in s then [s]
    else
      var i := IndexOf(s, c);
      var rest := Split(s[i + 1..], c);
      var r := [s[..i]] + rest;
      assert r[1..] == rest;
      JoinCons(r, [c]);
      assert s == s[..i] + [c] + s[i + 1..];
      r
  }

  /** `Split` cuts at the first `c` and splits the rest. */
  lemma SplitFirst(head: string, tail: string, c: char)
    requires c !in head
    ensures Split(head + [c] + tail, c) == [head] + Split(tail, c)
  {
    var s := head + [c] + tail;
    IndexOfAfterPrefix(head, tail, c);
    assert s[|head|] == c;
    assert s[..|head|] == head;
    assert s[|head| + 1..] == tail;
  }

  /** Joining pieces free of `c` with `c` and splitting again gives the pieces back. */
  lemma {:induction false} SplitJoin(parts: seq<string>, c: char)
    requires |parts| >= 1
    requires forall i :: 0 <= i < |parts| ==> c !in parts[i]
    ensures Split(Join(parts, [c]), c) == parts
    decreases |parts|
  {
    if |parts| >= 2 {
      JoinCons(parts, [c]);
      assert c !in parts[0];
      SplitFirst(parts[0], Join(parts[1..], [c]), c);
      SplitJoin(parts[1..], c);
      assert parts == [parts[0]] + parts[1..];
    }
  }

  /** Appending one more part to a join. */
  lemma JoinSnoc(parts: seq<string>, x: string, sep: string)
    ensures Join(parts + [x], sep) == if parts == [] then x else Join(parts, sep) + sep + x
  {
    assert (parts + [x])[..|parts|] == parts;
  }

  /** Joining two non-empty lists of parts: the separator goes between them once. */
  lemma {:induction false} JoinAppend(p: seq<string>, q: seq<string>, sep: string)
    requires p != [] && q != []
    ensures Join(p + q, sep) == Join(p, sep) + sep + Join(q, sep)
    decreases |q|
  {
    if |q| == 1 {
      JoinSnoc(p, q[0], sep);
    } else {
      var init, last := q[..|q| - 1], q[|q| - 1];
      var jp, ji := Join(p, sep), Join(init, sep);
      calc {
        Join(p + q, sep);
        == { assert p + q == (p + init) + [last]; JoinSnoc(p + init, last, sep); }
        Join(p + init, sep) + sep + last;
        == { JoinAppend(p, init, sep); }
        (jp + sep + ji) + sep + last;
        == { assert (jp + sep + ji) + sep + last == jp + sep + (ji + sep + last); }
        jp + sep + (ji + sep + last);
        == { assert q == init + [last]; JoinSnoc(init, last, sep); }
        jp + sep + Join(q, sep);
      }
    }
  }

  /** Splitting at a separator already present splits both sides independently. */
  lemma SplitAppend(a: string, b: string, c: char)
    ensures Split(a + [c] + b, c) == Split(a, c) + Split(b, c)
  {
    var pa, pb := Split(a, c), Split(b, c);
    JoinAppend(pa, pb, [c]);
    assert forall i :: 0 <= i < |pa + pb| ==> c !in (pa + pb)[i];
    SplitJoin(pa + pb, c);
  }
}
