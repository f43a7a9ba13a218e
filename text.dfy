/** String helpers standing in for the Python built-ins the modelled code uses:
    str.split with a one-character separator, str.lower on ASCII letters, the `in`
    substring test, list.index, int() and float() on decimal text, and str() of an int. */
module Text {
  import opened Wrappers

  // ---------------------------------------------------------------------------
  // Characters and digits
  // ---------------------------------------------------------------------------

  predicate IsDigit(c: char) { '0' <= c <= '9' }

  predicate AllDigits(s: string) { forall i :: 0 <= i < |s| ==> IsDigit(s[i]) }

  function DigitChar(d: nat): (c: char)
    requires d < 10
    ensures IsDigit(c) && c as int - '0' as int == d
  {
    (d + '0' as int) as char
  }

  /** The value of a run of decimal digits, most significant first (leading zeros allowed). */
  function DigitsValue(s: string): nat
    requires AllDigits(s)
    decreases |s|
  {
    if s == [] then 0 else 10 * DigitsValue(s[..|s| - 1]) + (s[|s| - 1] as int - '0' as int)
  }

  function Pow10(k: nat): (p: nat)
    ensures p >= 1
  {
    if k == 0 then 1 else 10 * Pow10(k - 1)
  }

  /** str(n) for a natural number: decimal digits without leading zeros. */
  function NatToString(n: nat): (s: string)
    ensures |s| >= 1 && AllDigits(s)
  {
    if n < 10 then [DigitChar(n)] else NatToString(n / 10) + [DigitChar(n % 10)]
  }

  /** The digits NatToString writes read back as n, and only 0 is written with a leading zero. */
  lemma {:induction false} NatToStringValue(n: nat)
    ensures DigitsValue(NatToString(n)) == n
    ensures NatToString(n)[0] == '0' ==> n == 0
  {
    if n >= 10 {
      NatToStringValue(n / 10);
      var front := NatToString(n / 10);
      var s := front + [DigitChar(n % 10)];
      assert s[..|s| - 1] == front;
    }
  }

  /** str(i) for a Python int. */
  function IntToString(i: int): string
  {
    if i < 0 then "-" + NatToString(-i) else NatToString(i)
  }

  /** int(s) for a string made of an optional sign and ASCII digits; anything else is a
      ValueError. (Python also allows surrounding white space and '_' between digits.) */
  function ParseInt(s: string): Result<int>
  {
    if |s| > 0 && (s[0] == '-' || s[0] == '+') then
      if |s| > 1 && AllDigits(s[1..]) then
        var magnitude: int := DigitsValue(s[1..]);
        Ok(if s[0] == '-' then -magnitude else magnitude)
      else Err(ValueError)
    else if |s| > 0 && AllDigits(s) then Ok(DigitsValue(s))
    else Err(ValueError)
  }

  lemma ParseIntOfDigits(d: string)
    requires |d| >= 1 && AllDigits(d)
    ensures ParseInt(d) == Ok(DigitsValue(d))
    ensures ParseInt("-" + d) == Ok(-(DigitsValue(d) as int))
  {
    assert IsDigit(d[0]);
    assert ("-" + d)[1..] == d;
  }

  lemma ParseIntOfIntToString(i: int)
    ensures ParseInt(IntToString(i)) == Ok(i)
  {
    var n: nat := if i < 0 then -i else i;
    NatToStringValue(n);
    ParseIntOfDigits(NatToString(n));
  }

  /** float(s) for decimal text: an optional sign, digits, and an optional '.' followed by
      digits, with at least one digit in all. The value is exact (a rational number). */
  function ParseDecimal(s: string): Result<real>
  {
    var negative := |s| > 0 && s[0] == '-';
    var body := if |s| > 0 && (s[0] == '-' || s[0] == '+') then s[1..] else s;
    var parts := Split(body, '.');
    if |parts| == 1 && |parts[0]| > 0 && AllDigits(parts[0]) then
      Ok(if negative then -(DigitsValue(parts[0]) as real) else DigitsValue(parts[0]) as real)
    else if |parts| == 2 && |parts[0]| + |parts[1]| > 0 && AllDigits(parts[0]) && AllDigits(parts[1]) then
      var magnitude := DecimalValue(parts[0], parts[1]);
      Ok(if negative then -magnitude else magnitude)
    else Err(ValueError)
  }

  /** The value of the decimal numeral whole.frac. */
  function DecimalValue(whole: string, frac: string): real
    requires AllDigits(whole) && AllDigits(frac)
  {
    DigitsValue(whole) as real + DigitsValue(frac) as real / Pow10(|frac|) as real
  }

  lemma ParseDecimalOfNatToString(n: nat)
    ensures ParseDecimal(NatToString(n)) == Ok(n as real)
  {
    var s := NatToString(n);
    NatToStringValue(n);
    assert forall k :: 0 <= k < |s| ==> s[k] != '.';
    SplitWithoutSeparator(s, '.');
  }

  /** float() of digits, a point and at least one more digit is the exact decimal value. */
  lemma ParseDecimalOfPoint(whole: string, frac: string)
    requires AllDigits(whole) && AllDigits(frac) && |frac| >= 1
    ensures ParseDecimal(whole + ['.'] + frac) == Ok(DecimalValue(whole, frac))
  {
    var s := whole + ['.'] + frac;
    assert '.' !in whole by {
      assert forall i :: 0 <= i < |whole| ==> IsDigit(whole[i]);
    }
    assert '.' !in frac by {
      assert forall i :: 0 <= i < |frac| ==> IsDigit(frac[i]);
    }
    assert Split(s, '.') == [whole, frac] by {
      SplitAtSeparator(whole, '.', frac);
      SplitWithoutSeparator(frac, '.');
    }
    assert s[0] != '-' && s[0] != '+' by {
      if |whole| == 0 {
        assert s[0] == '.';
      } else {
        assert s[0] == whole[0] && IsDigit(whole[0]);
      }
    }
  }

  // ---------------------------------------------------------------------------
  // Case, prefixes and substrings
  // ---------------------------------------------------------------------------

  function LowerChar(c: char): char
  {
    if 'A' <= c <= 'Z' then (c as int + 32) as char else c
  }

  /** str.lower restricted to ASCII letters. */
  function Lower(s: string): (r: string)
    ensures |r| == |s|
    ensures forall i :: 0 <= i < |s| ==> r[i] == LowerChar(s[i])
  {
    seq(|s|, i requires 0 <= i < |s| => LowerChar(s[i]))
  }

  predicate StartsWith(s: string, prefix: string)
  {
    |prefix| <= |s| && s[..|prefix|] == prefix
  }

  /** Python's `sub in s`. */
  predicate Contains(s: string, sub: string)
    decreases |s|
  {
    StartsWith(s, sub) || (|s| > 0 && Contains(s[1..], sub))
  }

  /** `sub` occurs in `s` starting at position i. */
  predicate OccursAt(s: string, sub: string, i: int)
  {
    0 <= i <= |s| - |sub| && s[i..i + |sub|] == sub
  }

  lemma {:induction false} ContainsIffOccurs(s: string, sub: string)
    ensures Contains(s, sub) <==> exists i :: OccursAt(s, sub, i)
    decreases |s|
  {
    if |s| > 0 {
      ContainsIffOccurs(s[1..], sub);
      if exists i :: OccursAt(s, sub, i) {
        var i :| OccursAt(s, sub, i);
        if i > 0 {
          assert OccursAt(s[1..], sub, i - 1);
        }
      }
      if StartsWith(s, sub) {
        assert OccursAt(s, sub, 0);
      } else if Contains(s[1..], sub) {
        var j :| OccursAt(s[1..], sub, j);
        assert OccursAt(s, sub, j + 1);
      }
    } else if Contains(s, sub) {
      assert OccursAt(s, sub, 0);
    }
  }

  // ---------------------------------------------------------------------------
  // str.split and str.join with a one-character separator; list.index
  // ---------------------------------------------------------------------------

  /** s.split(sep): the pieces between separators, empty pieces kept; never empty. */
  function Split(s: string, sep: char): (parts: seq<string>)
    ensures |parts| >= 1
    ensures forall k :: 0 <= k < |parts| ==> sep !in parts[k]
    ensures |parts[0]| <= |s| && parts[0] == s[..|parts[0]|]
    decreases |s|
  {
    if s == [] then [[]]
    else
      var rest := Split(s[1..], sep);
      if s[0] == sep then [[]] + rest else [[s[0]] + rest[0]] + rest[1..]
  }

  /** sep.join(parts). */
  function Join(parts: seq<string>, sep: char): string
  {
    if |parts| == 0 then []
    else if |parts| == 1 then parts[0]
    else parts[0] + [sep] + Join(parts[1..], sep)
  }

  lemma {:induction false} JoinSplit(s: string, sep: char)
    ensures Join(Split(s, sep), sep) == s
    decreases |s|
  {
    if s != [] {
      JoinSplit(s[1..], sep);
      var rest := Split(s[1..], sep);
      if s[0] == sep {
        assert ([[]] + rest)[1..] == rest;
      } else if |rest| > 1 {
        assert ([[s[0]] + rest[0]] + rest[1..])[1..] == rest[1..];
        assert Join(rest, sep) == rest[0] + [sep] + Join(rest[1..], sep);
      }
    }
  }

  lemma {:induction false} SplitWithoutSeparator(s: string, sep: char)
    requires sep !in s
    ensures Split(s, sep) == [s]
    decreases |s|
  {
    if s != [] {
      SplitWithoutSeparator(s[1..], sep);
      assert [s[0]] + s[1..] == s;
    }
  }

  lemma {:induction false} SplitAtSeparator(a: string, sep: char, b: string)
    requires sep !in a
    ensures Split(a + [sep] + b, sep) == [a] + Split(b, sep)
    decreases |a|
  {
    if a == [] {
      assert a + [sep] + b == [sep] + b;
      assert ([sep] + b)[1..] == b;
    } else {
      SplitAtSeparator(a[1..], sep, b);
      assert (a + [sep] + b)[1..] == a[1..] + [sep] + b;
      assert [a[0]] + a[1..] == a;
    }
  }

  lemma {:induction false} SplitJoin(parts: seq<string>, sep: char)
    requires |parts| >= 1
    requires forall k :: 0 <= k < |parts| ==> sep !in parts[k]
    ensures Split(Join(parts, sep), sep) == parts
    decreases |parts|
  {
    if |parts| == 1 {
      SplitWithoutSeparator(parts[0], sep);
    } else {
      SplitJoin(parts[1..], sep);
      SplitAtSeparator(parts[0], sep, Join(parts[1..], sep));
      assert [parts[0]] + parts[1..] == parts;
    }
  }

  /** list.index(x) as an Option: the position of the first occurrence. */
  function IndexOf<T(==)>(xs: seq<T>, x: T): (r: Option<nat>)
    ensures r.None? <==> x !in xs
    ensures r.Some? ==> r.value < |xs| && xs[r.value] == x && x !in xs[..r.value]
  {
    if xs == [] then None
    else if xs[0] == x then Some(0)
    else match IndexOf(xs[1..], x)
      case None => None
      case Some(k) =>
        assert xs[..k + 1] == [xs[0]] + xs[1..][..k];
        Some(k + 1)
  }
}
