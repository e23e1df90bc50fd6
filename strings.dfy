/** The Python string operations the path helpers call: `str.split` on a
    one-character separator, `str.rstrip` / `str.lstrip` of one character,
    and `str(n)` of an integer. `Join` and `Replace` are not called by the
    helpers; they are specification functions, used to state that `Split`
    loses nothing and to give the derived request path in closed form. */
module Strings {

  /** Number of occurrences of `c` in `s`. */
  function Count(s: string, c: char): (n: nat)
    ensures n <= |s|
    ensures n == 0 <==> c !in s
  {
    if s == [] then 0
    else (if s[0] == c then 1 else 0) + Count(s[1..], c)
  }

  /** `s.split(c)`: the maximal runs of characters between occurrences of `c`.
      Like Python, an empty string splits into one empty piece and every
      separator starts a new piece, so `Split("a__b", '_') == ["a", "", "b"]`. */
  function Split(s: string, c: char): (r: seq<string>)
    ensures |r| >= 1
    decreases |s|
  {
    if s == [] then [""]
    else
      var rest := Split(s[1..], c);
      if s[0] == c then [""] + rest
      else [[s[0]] + rest[0]] + rest[1..]
  }

  /** Specification helper: `c.join(parts)` for a non-empty list of parts
      (what `Split` returns). */
  function Join(parts: seq<string>, c: char): (r: string)
    requires |parts| >= 1
    ensures |parts| == 1 ==> r == parts[0]
    decreases |parts|
  {
    if |parts| == 1 then parts[0] else parts[0] + [c] + Join(parts[1..], c)
  }

  /** Specification helper: `s.replace(c, d)` for single characters. */
  function Replace(s: string, c: char, d: char): (r: string)
    ensures |r| == |s|
    ensures forall k :: 0 <= k < |s| ==> r[k] == (if s[k] == c then d else s[k])
  {
    if s == [] then [] else [if s[0] == c then d else s[0]] + Replace(s[1..], c, d)
  }

  /** `s.rstrip(c)`: drops every trailing `c`, not just one. */
  function RStrip(s: string, c: char): (r: string)
    ensures r <= s
    ensures r == [] || r[|r| - 1] != c
    ensures forall k :: |r| <= k < |s| ==> s[k] == c
    decreases |s|
  {
    if s != [] && s[|s| - 1] == c then RStrip(s[..|s| - 1], c) else s
  }

  /** `s.lstrip(c)`: drops every leading `c`, not just one. */
  function LStrip(s: string, c: char): (r: string)
    ensures |r| <= |s| && r == s[|s| - |r|..]
    ensures r == [] || r[0] != c
    ensures forall k :: 0 <= k < |s| - |r| ==> s[k] == c
    decreases |s|
  {
    if s != [] && s[0] == c then LStrip(s[1..], c) else s
  }

  /** `n` copies of `c`. */
  function Repeat(c: char, n: nat): (r: string)
    ensures |r| == n
    ensures forall k :: 0 <= k < n ==> r[k] == c
  {
    if n == 0 then [] else [c] + Repeat(c, n - 1)
  }

  // ---------------------------------------------------------------------
  // Split and Join are inverse to each other

  /** `s.split(c)` has one more piece than `s` has occurrences of `c`. */
  lemma {:induction false} SplitCount(s: string, c: char)
    ensures |Split(s, c)| == Count(s, c) + 1
    decreases |s|
  {
    if s != [] {
      SplitCount(s[1..], c);
    }
  }

  /** No piece of a split holds the separator. */
  lemma {:induction false} SplitPiecesWithoutSeparator(s: string, c: char)
    ensures forall k :: 0 <= k < |Split(s, c)| ==> c !in Split(s, c)[k]
    decreases |s|
  {
    if s != [] {
      SplitPiecesWithoutSeparator(s[1..], c);
      var rest := Split(s[1..], c);
      if s[0] != c {
        var r := Split(s, c);
        assert r[0] == [s[0]] + rest[0];
        assert forall k :: 1 <= k < |r| ==> r[k] == rest[k];
      }
    }
  }

  /** Splitting at a separator splits the two sides independently. */
  lemma {:induction false} SplitAtSeparator(a: string, b: string, c: char)
    ensures Split(a + [c] + b, c) == Split(a, c) + Split(b, c)
    decreases |a|
  {
    if a == [] {
      assert a + [c] + b == [c] + b;
      assert ([c] + b)[1..] == b;
    } else {
      SplitAtSeparator(a[1..], b, c);
      SplitAtSeparatorStep(a, b, c);
    }
  }

  /** Inductive step of `SplitAtSeparator`: one more character in front. */
  lemma SplitAtSeparatorStep(a: string, b: string, c: char)
    requires a != []
    requires Split(a[1..] + [c] + b, c) == Split(a[1..], c) + Split(b, c)
    ensures Split(a + [c] + b, c) == Split(a, c) + Split(b, c)
  {
    var t := a + [c] + b;
    DropFirst(a + [c], b);
    DropFirst(a, [c]);
    var left, right := Split(a[1..], c), Split(b, c);
    if a[0] == c {
      assert Split(t, c) == [""] + (left + right);
      assert Split(a, c) == [""] + left;
      ConcatAssoc([""], left, right);
    } else {
      var head := [[a[0]] + left[0]];
      DropFirst(left, right);
      assert Split(t, c) == head + (left[1..] + right);
      assert Split(a, c) == head + left[1..];
      ConcatAssoc(head, left[1..], right);
    }
  }

  lemma DropFirst<T>(x: seq<T>, y: seq<T>)
    requires x != []
    ensures (x + y)[0] == x[0] && (x + y)[1..] == x[1..] + y
  {
  }

  lemma ConcatAssoc<T>(x: seq<T>, y: seq<T>, z: seq<T>)
    ensures x + (y + z) == (x + y) + z
  {
  }

  /** A string without the separator is a single piece. */
  lemma {:induction false} SplitWithoutSeparator(s: string, c: char)
    requires c !in s
    ensures Split(s, c) == [s]
  {
    var r := Split(s, c);
    SplitCount(s, c);
    assert |r| == 1;
    JoinSplit(s, c);
  }

  /** Prefixing the first part prefixes the joined string. */
  lemma JoinPrefixFirst(parts: seq<string>, pre: string, c: char)
    requires |parts| >= 1
    ensures Join([pre + parts[0]] + parts[1..], c) == pre + Join(parts, c)
  {
    var q := [pre + parts[0]] + parts[1..];
    assert q[1..] == parts[1..];
  }

  /** `c.join(s.split(c)) == s`. */
  lemma {:induction false} JoinSplit(s: string, c: char)
    ensures Join(Split(s, c), c) == s
    decreases |s|
  {
    if s != [] {
      var rest := Split(s[1..], c);
      JoinSplit(s[1..], c);
      assert s == [s[0]] + s[1..];
      if s[0] == c {
        assert ([""] + rest)[1..] == rest;
        assert Join([""] + rest, c) == [c] + Join(rest, c);
      } else {
        JoinPrefixFirst(rest, [s[0]], c);
      }
    }
  }

  /** `c.join(parts).split(c) == parts` when no part holds the separator. */
  lemma {:induction false} SplitJoin(parts: seq<string>, c: char)
    requires |parts| >= 1
    requires forall k :: 0 <= k < |parts| ==> c !in parts[k]
    ensures Split(Join(parts, c), c) == parts
    decreases |parts|
  {
    if |parts| == 1 {
      SplitWithoutSeparator(parts[0], c);
    } else {
      var tail := parts[1..];
      assert forall k :: 0 <= k < |tail| ==> c !in tail[k] by {
        forall k | 0 <= k < |tail| ensures c !in tail[k] { assert tail[k] == parts[k + 1]; }
      }
      var j := Join(tail, c);
      assert Join(parts, c) == parts[0] + [c] + j;
      assert Split(j, c) == tail by {
        SplitJoin(tail, c);
      }
      assert Split(parts[0], c) == [parts[0]] by {
        SplitWithoutSeparator(parts[0], c);
      }
      SplitAtSeparator(parts[0], j, c);
      assert parts == [parts[0]] + tail;
    }
  }

  // ---------------------------------------------------------------------
  // Stripping

  /** Every string is its `rstrip` followed by the stripped characters. */
  lemma RStripDecomposes(s: string, c: char)
    ensures s == RStrip(s, c) + Repeat(c, |s| - |RStrip(s, c)|)
  {
    var r := RStrip(s, c);
    var t := Repeat(c, |s| - |r|);
    assert forall k :: 0 <= k < |s| ==> s[k] == (r + t)[k];
  }

  /** Every string is the stripped characters followed by its `lstrip`. */
  lemma LStripDecomposes(s: string, c: char)
    ensures s == Repeat(c, |s| - |LStrip(s, c)|) + LStrip(s, c)
  {
    var r := LStrip(s, c);
    var t := Repeat(c, |s| - |r|);
    assert forall k :: 0 <= k < |s| ==> s[k] == (t + r)[k];
  }

  /** `rstrip` removes exactly the trailing separators: on a string that
      does not end in `c`, followed by any number of `c`, it returns that string. */
  lemma RStripExact(s: string, c: char, n: nat)
    requires s == [] || s[|s| - 1] != c
    ensures RStrip(s + Repeat(c, n), c) == s
  {
    var t := s + Repeat(c, n);
    var r := RStrip(t, c);
    assert r == [] || r[|r| - 1] == t[|r| - 1];
    assert s == [] || t[|s| - 1] == s[|s| - 1];
    assert |r| == |s|;
    assert r == t[..|s|] == s;
  }

  /** `lstrip` removes exactly the leading separators. */
  lemma LStripExact(s: string, c: char, n: nat)
    requires s == [] || s[0] != c
    ensures LStrip(Repeat(c, n) + s, c) == s
  {
    var t := Repeat(c, n) + s;
    var r := LStrip(t, c);
    assert r == [] || r[0] == t[|t| - |r|];
    assert s == [] || t[n] == s[0];
    assert |r| == |s|;
    assert r == t[n..] == s;
  }

  /** Stripping twice is stripping once. */
  lemma RStripIdempotent(s: string, c: char)
    ensures RStrip(RStrip(s, c), c) == RStrip(s, c)
  {
    var r := RStrip(s, c);
    RStripExact(r, c, 0);
    assert r + Repeat(c, 0) == r;
  }

  lemma LStripIdempotent(s: string, c: char)
    ensures LStrip(LStrip(s, c), c) == LStrip(s, c)
  {
    var r := LStrip(s, c);
    LStripExact(r, c, 0);
    assert Repeat(c, 0) + r == r;
  }

  // ---------------------------------------------------------------------
  // str(n) for integers: decimal digits, with a leading '-' when negative

  predicate IsDigit(ch: char) { '0' <= ch <= '9' }

  function DigitChar(d: nat): (ch: char)
    requires d < 10
    ensures IsDigit(ch) && ch as int - '0' as int == d
  {
    ('0' as int + d) as char
  }

  /** Decimal digits of `n`, most significant first, without leading zeros. */
  function NatToString(n: nat): (s: string)
    ensures |s| >= 1
    ensures forall k :: 0 <= k < |s| ==> IsDigit(s[k])
    ensures s[0] == '0' ==> n == 0
    ensures NoLeadingZero(s)
    decreases n
  {
    if n < 10 then [DigitChar(n)] else NatToString(n / 10) + [DigitChar(n % 10)]
  }

  function DigitValue(ch: char): (d: nat)
    requires IsDigit(ch)
    ensures d < 10
  {
    ch as int - '0' as int
  }

  /** The value of a string of decimal digits (the inverse of `NatToString`). */
  function ParseNat(s: string): nat
    requires forall k :: 0 <= k < |s| ==> IsDigit(s[k])
    decreases |s|
  {
    if s == [] then 0
    else ParseNat(s[..|s| - 1]) * 10 + DigitValue(s[|s| - 1])
  }

  /** Text of the form `str` gives an integer: an optional '-' followed by
      at least one decimal digit. */
  predicate IsIntText(s: string)
  {
    if s != [] && s[0] == '-' then IsDigits(s[1..]) else IsDigits(s)
  }

  /** A non-empty string of decimal digits. */
  predicate IsDigits(d: string)
  {
    d != [] && forall k :: 0 <= k < |d| ==> IsDigit(d[k])
  }

  /** A digit string that is `0` itself or does not start with `0`. */
  predicate NoLeadingZero(d: string)
  {
    |d| <= 1 || d[0] != '0'
  }

  /** The text `str` gives an integer: no redundant leading zero, and no
      sign on zero. */
  predicate IsCanonicalIntText(s: string)
  {
    IsIntText(s) &&
    if s[0] == '-' then NoLeadingZero(s[1..]) && s[1..] != "0" else NoLeadingZero(s)
  }

  /** `int(s)` on such text. */
  function ParseInt(s: string): int
    requires IsIntText(s)
  {
    if s[0] == '-' then 0 - ParseNat(s[1..]) as int else ParseNat(s)
  }

  /** `str(i)` for a Python integer. */
  function IntToString(i: int): (s: string)
    ensures IsCanonicalIntText(s) && ParseInt(s) == i
    ensures i < 0 <==> s[0] == '-'
  {
    if i < 0 then
      var d := NatToString(-i);
      ParseNatToString(-i);
      assert ("-" + d)[1..] == d;
      assert d[0] != '0' && "0"[0] == '0';
      "-" + d
    else
      ParseNatToString(i);
      NatToString(i)
  }

  lemma {:induction false} ParseNatToString(n: nat)
    ensures ParseNat(NatToString(n)) == n
    decreases n
  {
    if n >= 10 {
      var s := NatToString(n);
      assert s[..|s| - 1] == NatToString(n / 10);
      ParseNatToString(n / 10);
    }
  }

  /** Canonical decimal text reads back to itself: `str(int(s)) == s`. */
  lemma IntToStringParseInt(s: string)
    requires IsCanonicalIntText(s)
    ensures IntToString(ParseInt(s)) == s
  {
    if s[0] == '-' {
      var d := s[1..];
      NatToStringParseNat(d);
      ParseNatPositive(d);
      assert s == "-" + d;
    } else {
      NatToStringParseNat(s);
    }
  }

  /** So the text of an integer is determined by its contract: two canonical
      texts of the same integer are equal. */
  lemma CanonicalIntTextUnique(s: string, t: string)
    requires IsCanonicalIntText(s) && IsCanonicalIntText(t)
    requires ParseInt(s) == ParseInt(t)
    ensures s == t
  {
    IntToStringParseInt(s);
    IntToStringParseInt(t);
  }

  /** A digit string without a redundant leading zero is the decimal text
      of its value. */
  lemma {:induction false} NatToStringParseNat(d: string)
    requires IsDigits(d) && NoLeadingZero(d)
    ensures NatToString(ParseNat(d)) == d
    decreases |d|
  {
    var x := d[|d| - 1];
    assert DigitChar(DigitValue(x)) == x;
    if |d| > 1 {
      var init := d[..|d| - 1];
      assert init[0] == d[0];
      NatToStringParseNat(init);
      ParseNatPositive(init);
      var n := ParseNat(d);
      assert n == ParseNat(init) * 10 + DigitValue(x);
      assert n / 10 == ParseNat(init) && n % 10 == DigitValue(x);
      assert d == init + [x];
    }
  }

  /** A digit string that does not start with `0` has a positive value. */
  lemma {:induction false} ParseNatPositive(d: string)
    requires IsDigits(d) && d[0] != '0'
    ensures ParseNat(d) >= 1
    decreases |d|
  {
    if |d| > 1 {
      var init := d[..|d| - 1];
      assert init[0] == d[0];
      ParseNatPositive(init);
    }
  }

  /** `str` is injective on integers: different integers print differently. */
  lemma IntToStringInjective(i: int, j: int)
    requires IntToString(i) == IntToString(j)
    ensures i == j
  {
    assert ParseInt(IntToString(i)) == i && ParseInt(IntToString(j)) == j;
  }
}
