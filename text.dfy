/**
 * The string primitives the duration codec is built from: `str.strip` with an
 * explicit character, `str.split` on a one-character separator, decimal
 * numerals, the `%d` / `%02d` conversions, and the `int()` / `float()` readers,
 * restricted to ASCII numerals.
 */
module Text {
  import opened Wrappers

  /* ---------- stripping and splitting ---------- */

  /** How many copies of `c` `s` starts with. */
  function LeadingCopies(s: string, c: char): (n: nat)
    ensures n <= |s|
  {
    if |s| > 0 && s[0] == c then 1 + LeadingCopies(s[1..], c) else 0
  }

  /** The first `LeadingCopies(s, c)` characters are `c`, and the next one, if any, is not. */
  lemma {:induction false} LeadingCopiesSpec(s: string, c: char)
    ensures forall i :: 0 <= i < LeadingCopies(s, c) ==> s[i] == c
    ensures LeadingCopies(s, c) == |s| || s[LeadingCopies(s, c)] != c
    decreases |s|
  {
    if |s| > 0 && s[0] == c {
      LeadingCopiesSpec(s[1..], c);
      assert forall i :: 1 <= i < |s| ==> s[i] == s[1..][i - 1];
    }
  }

  /** How many copies of `c` `s` ends with. */
  function TrailingCopies(s: string, c: char): (n: nat)
    ensures n <= |s|
  {
    if |s| > 0 && s[|s| - 1] == c then 1 + TrailingCopies(s[..|s| - 1], c) else 0
  }

  /** The last `TrailingCopies(s, c)` characters are `c`, and the one before them, if any, is not. */
  lemma {:induction false} TrailingCopiesSpec(s: string, c: char)
    ensures forall i :: |s| - TrailingCopies(s, c) <= i < |s| ==> s[i] == c
    ensures TrailingCopies(s, c) == |s| || s[|s| - 1 - TrailingCopies(s, c)] != c
    decreases |s|
  {
    if |s| > 0 && s[|s| - 1] == c {
      TrailingCopiesSpec(s[..|s| - 1], c);
      assert forall i :: 0 <= i < |s| - 1 ==> s[i] == s[..|s| - 1][i];
    }
  }

  /**
   * `s.strip(c)`: `s` without the copies of `c` at either end, so that what is
   * left neither starts nor ends with `c` (`StripPadding` shows that only
   * copies of `c` go, `StripUnique` that the result is the only such infix).
   */
  function Strip(s: string, c: char): (r: string)
    ensures |r| <= |s|
    ensures r == [] || (r[0] != c && r[|r| - 1] != c)
    ensures (s == [] || (s[0] != c && s[|s| - 1] != c)) ==> r == s
  {
    LeadingCopiesSpec(s, c);
    TrailingCopiesSpec(s, c);
    var a := LeadingCopies(s, c);
    if a == |s| then [] else s[a..|s| - TrailingCopies(s, c)]
  }

  /** `Strip` removes only copies of `c`: `a` of them in front and `b` behind. */
  lemma StripPadding(s: string, c: char) returns (a: nat, b: nat)
    ensures s == Repeat(c, a) + Strip(s, c) + Repeat(c, b)
  {
    LeadingCopiesSpec(s, c);
    a := LeadingCopies(s, c);
    if a == |s| {
      b := 0;
      PaddedOfCopies(s, c, a, b);
    } else {
      TrailingCopiesSpec(s, c);
      b := TrailingCopies(s, c);
      PaddedOfCopies(s, c, a, b);
    }
  }

  /** A string that starts with `a` and ends with `b` copies of `c` is its middle padded by them. */
  lemma PaddedOfCopies(s: string, c: char, a: nat, b: nat)
    requires a + b <= |s|
    requires forall i :: 0 <= i < a ==> s[i] == c
    requires forall i :: |s| - b <= i < |s| ==> s[i] == c
    ensures s == Repeat(c, a) + s[a..|s| - b] + Repeat(c, b)
  {
    var p, q := s[..a], s[|s| - b..];
    assert p == Repeat(c, a) by {
      assert forall i :: 0 <= i < |p| ==> p[i] == c;
      AllCopies(p, c);
    }
    assert q == Repeat(c, b) by {
      assert forall i :: 0 <= i < |q| ==> q[i] == s[|s| - b + i];
      AllCopies(q, c);
    }
    ThreeParts(s, a, |s| - b);
  }

  lemma ThreeParts(s: string, i: nat, j: nat)
    requires i <= j <= |s|
    ensures s == s[..i] + s[i..j] + s[j..]
  {
  }

  /**
   * What `Strip` keeps is determined: any way of writing `s` as copies of `c`,
   * an infix that neither starts nor ends with `c`, and copies of `c` again,
   * has `Strip(s, c)` as that infix.
   */
  lemma StripUnique(s: string, c: char, a: nat, r: string, b: nat)
    requires s == Repeat(c, a) + r + Repeat(c, b)
    requires r == [] || (r[0] != c && r[|r| - 1] != c)
    ensures Strip(s, c) == r
  {
    var a', b' := StripPadding(s, c);
    PaddedInfix(s, c, a, r, b);
    PaddedInfix(s, c, a', Strip(s, c), b');
  }

  /** Where the padding of a padded infix lies in the whole string. */
  lemma PaddedInfix(s: string, c: char, a: nat, r: string, b: nat)
    requires s == Repeat(c, a) + r + Repeat(c, b)
    requires r == [] || (r[0] != c && r[|r| - 1] != c)
    ensures a + |r| + b == |s| && r == s[a..a + |r|]
    ensures forall i :: 0 <= i < a ==> s[i] == c
    ensures forall i :: a + |r| <= i < |s| ==> s[i] == c
    ensures r != [] ==> s[a] != c && s[a + |r| - 1] != c
  {
    RepeatCopies(c, a);
    RepeatCopies(c, b);
    assert forall i :: 0 <= i < a ==> s[i] == Repeat(c, a)[i];
    assert forall i :: a + |r| <= i < |s| ==> s[i] == Repeat(c, b)[i - a - |r|];
  }

  /** Stripping ignores any further copies of `c` around the text. */
  lemma StripPadded(padded: string, s: string, c: char, a: nat, b: nat)
    requires padded == Repeat(c, a) + s + Repeat(c, b)
    ensures Strip(padded, c) == Strip(s, c)
  {
    var r := Strip(s, c);
    var a', b' := StripPadding(s, c);
    PaddingAdds(padded, s, r, c, a, a', b', b);
    StripUnique(padded, c, a + a', r, b' + b);
  }

  lemma PaddingAdds(padded: string, s: string, r: string, c: char, a: nat, a': nat, b': nat, b: nat)
    requires padded == Repeat(c, a) + s + Repeat(c, b)
    requires s == Repeat(c, a') + r + Repeat(c, b')
    ensures padded == Repeat(c, a + a') + r + Repeat(c, b' + b)
  {
    ConcatRegroup(Repeat(c, a), Repeat(c, a'), r, Repeat(c, b'), Repeat(c, b));
    RepeatAdd(c, a, a');
    RepeatAdd(c, b', b);
  }

  lemma ConcatRegroup(p: string, p': string, r: string, q': string, q: string)
    ensures p + (p' + r + q') + q == (p + p') + r + (q' + q)
  {
  }

  lemma RepeatAdd(c: char, a: nat, b: nat)
    ensures Repeat(c, a) + Repeat(c, b) == Repeat(c, a + b)
  {
    RepeatCopies(c, a);
    RepeatCopies(c, b);
    AllCopies(Repeat(c, a) + Repeat(c, b), c);
  }

  /** A string made only of `c` is `Repeat(c, _)`. */
  lemma {:induction false} AllCopies(s: string, c: char)
    requires forall i :: 0 <= i < |s| ==> s[i] == c
    ensures s == Repeat(c, |s|)
    decreases |s|
  {
    if s != [] {
      AllCopies(s[1..], c);
      assert s == [c] + s[1..];
    }
  }

  /** `k` copies of `c`. */
  function Repeat(c: char, k: nat): (s: string)
    ensures |s| == k
  {
    if k == 0 then [] else [c] + Repeat(c, k - 1)
  }

  /** Every character of `Repeat(c, k)` is `c`. */
  lemma {:induction false} RepeatCopies(c: char, k: nat)
    ensures forall i :: 0 <= i < k ==> Repeat(c, k)[i] == c
    decreases k
  {
    if k > 0 {
      RepeatCopies(c, k - 1);
      assert forall i :: 1 <= i < k ==> Repeat(c, k)[i] == Repeat(c, k - 1)[i - 1];
    }
  }

  /** The inverse of `Split`: the parts glued back together with `sep` between them. */
  function Join(parts: seq<string>, sep: char): string
    requires |parts| >= 1
  {
    if |parts| == 1 then parts[0] else parts[0] + [sep] + Join(parts[1..], sep)
  }

  /**
   * `s.split(sep)` for a one-character separator: every occurrence of `sep`
   * cuts, so adjacent separators give empty parts and there is always at
   * least one part.
   */
  function Split(s: string, sep: char): (parts: seq<string>)
    ensures |parts| >= 1
    decreases |s|
  {
    if |s| == 0 then [[]]
    else
      var rest := Split(s[1..], sep);
      if s[0] == sep then [[]] + rest
      else [[s[0]] + rest[0]] + rest[1..]
  }

  /** No part of `Split(s, sep)` holds the separator, and joining the parts gives `s` back. */
  lemma {:induction false} SplitParts(s: string, sep: char)
    ensures forall i :: 0 <= i < |Split(s, sep)| ==> sep !in Split(s, sep)[i]
    ensures Join(Split(s, sep), sep) == s
    decreases |s|
  {
    if |s| > 0 {
      var rest := Split(s[1..], sep);
      SplitParts(s[1..], sep);
      if s[0] == sep {
        assert s == [sep] + s[1..];
        assert ([[]] + rest)[1..] == rest;
      } else {
        var parts := [[s[0]] + rest[0]] + rest[1..];
        assert parts[1..] == rest[1..];
        assert s == [s[0]] + s[1..];
        if |rest| > 1 {
          assert Join(rest, sep) == rest[0] + [sep] + Join(rest[1..], sep);
        }
      }
    }
  }

  /** A string without the separator is a single part. */
  lemma {:induction false} SplitNoSeparator(p: string, sep: char)
    requires sep !in p
    ensures Split(p, sep) == [p]
    decreases |p|
  {
    if |p| > 0 {
      SplitNoSeparator(p[1..], sep);
      assert [p[0]] + p[1..] == p;
    }
  }

  /** A separator-free prefix followed by the separator becomes the first part. */
  lemma {:induction false} SplitAfterPart(p: string, sep: char, t: string)
    requires sep !in p
    ensures Split(p + [sep] + t, sep) == [p] + Split(t, sep)
    decreases |p|
  {
    var s := p + [sep] + t;
    if |p| == 0 {
      assert s[1..] == t;
    } else {
      assert s[1..] == p[1..] + [sep] + t;
      SplitAfterPart(p[1..], sep, t);
      assert [p[0]] + p[1..] == p;
    }
  }

  lemma JoinThree(a: string, b: string, c: string, sep: char)
    ensures Join([a, b, c], sep) == a + [sep] + b + [sep] + c
  {
    assert [a, b, c][1..] == [b, c];
    assert [b, c][1..] == [c];
    assert Join([b, c], sep) == b + [sep] + c;
  }

  /** A character that is neither the separator nor in any part is not in the joined string. */
  lemma {:induction false} JoinAvoids(parts: seq<string>, sep: char, c: char)
    requires |parts| >= 1 && c != sep
    requires forall i :: 0 <= i < |parts| ==> c !in parts[i]
    ensures c !in Join(parts, sep)
    decreases |parts|
  {
    if |parts| > 1 {
      JoinAvoids(parts[1..], sep, c);
    }
  }

  /** `Split` undoes `Join` whenever no part contains the separator. */
  lemma {:induction false} SplitJoin(parts: seq<string>, sep: char)
    requires |parts| >= 1
    requires forall i :: 0 <= i < |parts| ==> sep !in parts[i]
    ensures Split(Join(parts, sep), sep) == parts
    decreases |parts|
  {
    if |parts| == 1 {
      SplitNoSeparator(parts[0], sep);
    } else {
      SplitJoin(parts[1..], sep);
      SplitAfterPart(parts[0], sep, Join(parts[1..], sep));
    }
  }

  /* ---------- decimal numerals ---------- */

  predicate IsDigit(c: char) {
    '0' <= c <= '9'
  }

  predicate AllDigits(s: string) {
    forall i :: 0 <= i < |s| ==> IsDigit(s[i])
  }

  function DigitValue(c: char): (v: nat)
    requires IsDigit(c)
    ensures v < 10
  {
    (c as int) - ('0' as int)
  }

  function DigitChar(v: nat): (c: char)
    requires v < 10
    ensures IsDigit(c) && DigitValue(c) == v
  {
    ('0' as int + v) as char
  }

  function Pow10(k: nat): (p: nat)
    ensures p >= 1
  {
    if k == 0 then 1 else 10 * Pow10(k - 1)
  }

  /** The number a string of decimal digits denotes, most significant digit first. */
  function DigitsValue(s: string): nat
    requires AllDigits(s)
  {
    if s == [] then 0 else DigitsValue(s[..|s| - 1]) * 10 + DigitValue(s[|s| - 1])
  }

  /** The digits of `b` are worth `Pow10(|b|)` times less than those of `a` before them. */
  lemma {:induction false} DigitsValueAppend(a: string, b: string)
    requires AllDigits(a) && AllDigits(b)
    ensures AllDigits(a + b)
    ensures DigitsValue(a + b) == DigitsValue(a) * Pow10(|b|) + DigitsValue(b)
    decreases |b|
  {
    var s := a + b;
    if b != [] {
      var b' := b[..|b| - 1];
      var last := DigitValue(b[|b| - 1]);
      assert s[..|s| - 1] == a + b';
      assert DigitsValue(s) == DigitsValue(a + b') * 10 + last;
      DigitsValueAppend(a, b');
      assert DigitsValue(b) == DigitsValue(b') * 10 + last;
      ShiftDigit(DigitsValue(a), Pow10(|b'|), DigitsValue(b'), last);
    } else {
      assert s == a;
    }
  }

  /** Appending a digit to a number with `x` in front of `y` at place value `p`. */
  lemma ShiftDigit(x: int, p: int, y: int, d: int)
    ensures (x * p + y) * 10 + d == x * (p * 10) + (y * 10 + d)
  {
  }

  /** `str(n)` for a natural number: shortest decimal numeral, no leading zero. */
  function NatToDigits(n: nat): (s: string)
    ensures |s| >= 1 && AllDigits(s)
    ensures DigitsValue(s) == n
    ensures |s| == 1 || s[0] != '0'
  {
    if n < 10 then [DigitChar(n)]
    else
      var s := NatToDigits(n / 10) + [DigitChar(n % 10)];
      assert s[..|s| - 1] == NatToDigits(n / 10);
      s
  }

  /** A number below `10^k` has at most `k` digits. */
  lemma {:induction false} NatToDigitsBelow(n: nat, k: nat)
    requires 1 <= k && n < Pow10(k)
    ensures |NatToDigits(n)| <= k
    decreases k
  {
    if n >= 10 {
      assert k > 1;
      NatToDigitsBelow(n / 10, k - 1);
    }
  }

  function Zeros(k: nat): (s: string)
    ensures |s| == k && AllDigits(s) && DigitsValue(s) == 0
  {
    if k == 0 then []
    else
      var s := Zeros(k - 1) + ['0'];
      assert s[..|s| - 1] == Zeros(k - 1);
      s
  }

  /** `'%0wd' % n`: the numeral of `n`, left-padded with zeros to at least `width` characters. */
  function ZeroPad(n: nat, width: nat): (s: string)
    ensures AllDigits(s)
    ensures DigitsValue(s) == n
    ensures |s| == if |NatToDigits(n)| < width then width else |NatToDigits(n)|
  {
    var digits := NatToDigits(n);
    var s := Zeros(if |digits| < width then width - |digits| else 0) + digits;
    DigitsValueAppend(Zeros(|s| - |digits|), digits);
    s
  }

  /** `'%d' % i`: a minus sign for negative numbers, then the numeral of the magnitude. */
  function IntToString(i: int): (s: string)
    ensures |s| >= 1
    ensures (s[0] == '-') <==> i < 0
  {
    if i < 0 then "-" + NatToDigits(-i) else NatToDigits(i)
  }

  function Signed(negative: bool, n: nat): int {
    if negative then -(n as int) else n
  }

  /** Length of an optional leading `+` or `-`. */
  function SignLength(s: string): nat {
    if |s| > 0 && (s[0] == '-' || s[0] == '+') then 1 else 0
  }

  /**
   * `int(s)` in base 10: an optional sign followed by at least one digit;
   * anything else is a ValueError, here `None`.
   */
  function ParseInt(s: string): (r: Option<int>)
    ensures r.Some? ==> |s| > SignLength(s) && AllDigits(s[SignLength(s)..])
    ensures r.Some? ==> (r.value < 0 ==> s[0] == '-')
  {
    var body := s[SignLength(s)..];
    if |body| >= 1 && AllDigits(body) then
      Some(Signed(|s| > 0 && s[0] == '-', DigitsValue(body)))
    else
      None
  }

  /** `int` reads back what `%d` writes. */
  lemma ParseIntOfIntToString(i: int)
    ensures ParseInt(IntToString(i)) == Some(i)
  {
    var s := IntToString(i);
    if i < 0 {
      assert s[1..] == NatToDigits(-i);
    }
  }
}
