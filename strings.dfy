/**
 * String operations of Python's `str` that the cleaning pass relies on, written on `seq<char>`:
 * substring test (`p in s`), `endswith`, `replace(p, '')`, `split(c)[-1]`, and the decimal
 * rendering of a non-negative integer (`str(n)`), with the reading-back function that shows the
 * rendering loses nothing.
 */
module Strings {

  /** `s.startswith(p)` */
  predicate StartsWith(s: string, p: string) {
    |p| <= |s| && s[..|p|] == p
  }

  /** `s.endswith(p)` */
  predicate EndsWith(s: string, p: string) {
    |p| <= |s| && s[|s| - |p|..] == p
  }

  /** Python's `p in s` for strings: `p` occurs somewhere in `s` (the empty string occurs everywhere). */
  predicate Contains(s: string, p: string)
    decreases |s|
  {
    StartsWith(s, p) || (|s| > 0 && Contains(s[1..], p))
  }

  /** Any character of `p` is a character of every string that contains `p`. */
  lemma {:induction false} ContainsChar(s: string, p: string, c: char)
    requires Contains(s, p) && c in p
    ensures c in s
    decreases |s|
  {
    if StartsWith(s, p) {
      var i :| 0 <= i < |p| && p[i] == c;
      assert s[..|p|][i] == s[i];
    } else {
      ContainsChar(s[1..], p, c);
    }
  }

  /** Python's `s.replace(p, '')` for a non-empty `p`: every occurrence found by a left-to-right scan is cut out. */
  function DeleteAll(s: string, p: string): (r: string)
    requires |p| > 0
    ensures |r| <= |s|
    decreases |s|
  {
    if |s| == 0 then ""
    else if StartsWith(s, p) then DeleteAll(s[|p|..], p)
    else [s[0]] + DeleteAll(s[1..], p)
  }

  /** Cutting out an absent pattern changes nothing. */
  lemma {:induction false} DeleteAllAbsent(s: string, p: string)
    requires |p| > 0 && !Contains(s, p)
    ensures DeleteAll(s, p) == s
    decreases |s|
  {
    if |s| > 0 {
      DeleteAllAbsent(s[1..], p);
      assert [s[0]] + s[1..] == s;
    }
  }

  /** Cutting out a pattern that occurs removes at least one copy of it. */
  lemma {:induction false} DeleteAllShrinks(s: string, p: string)
    requires |p| > 0 && Contains(s, p)
    ensures |DeleteAll(s, p)| <= |s| - |p|
    decreases |s|
  {
    if !StartsWith(s, p) {
      DeleteAllShrinks(s[1..], p);
    }
  }

  /** Removing a single character (`s.replace(']', '')`) leaves none of it, and keeps every other character. */
  lemma {:induction false} DeleteCharSpec(s: string, c: char)
    ensures c !in DeleteAll(s, [c])
    ensures forall d :: d != c ==> (d in DeleteAll(s, [c]) <==> d in s)
    decreases |s|
  {
    if |s| > 0 {
      DeleteCharSpec(s[1..], c);
      if StartsWith(s, [c]) {
        assert s[0] == c;
        assert s == [s[0]] + s[1..];
      } else {
        assert s[..1] == [s[0]];
        assert s == [s[0]] + s[1..];
      }
    }
  }

  /** Python's `s.split(c)[-1]`: the text after the last `c`, or all of `s` when `c` does not occur. */
  function AfterLast(s: string, c: char): (r: string)
    decreases |s|
  {
    if |s| == 0 then ""
    else if s[|s| - 1] == c then ""
    else AfterLast(s[..|s| - 1], c) + [s[|s| - 1]]
  }

  /** Without `c`, `split(c)[-1]` is the whole string; in every case the result holds no `c`. */
  lemma {:induction false} AfterLastFree(s: string, c: char)
    ensures c !in s ==> AfterLast(s, c) == s
    ensures c !in AfterLast(s, c)
    decreases |s|
  {
    if |s| > 0 && s[|s| - 1] != c {
      AfterLastFree(s[..|s| - 1], c);
      assert s == s[..|s| - 1] + [s[|s| - 1]];
    }
  }

  /** With `c` present, `split(c)[-1]` is the suffix that starts right after the last `c`. */
  lemma {:induction false} AfterLastSuffix(s: string, c: char)
    requires c in s
    ensures exists k :: 0 <= k < |s| && s[k] == c && c !in s[k + 1..] && AfterLast(s, c) == s[k + 1..]
    decreases |s|
  {
    var init, last := s[..|s| - 1], s[|s| - 1];
    assert s == init + [last];
    if last == c {
      assert s[|s| - 1] == c && s[|s|..] == [];
    } else {
      assert c in init;
      AfterLastSuffix(init, c);
      var k :| 0 <= k < |init| && init[k] == c && c !in init[k + 1..] && AfterLast(init, c) == init[k + 1..];
      assert s[k + 1..] == init[k + 1..] + [last];
      assert s[k] == c && c !in s[k + 1..] && AfterLast(s, c) == s[k + 1..];
    }
  }

  /** The character for a decimal digit. */
  function DigitChar(n: nat): (c: char)
    requires n < 10
    ensures '0' <= c <= '9'
  {
    (48 + n) as char
  }

  /** The digit a decimal character stands for. */
  function DigitValue(c: char): (n: nat)
    requires '0' <= c <= '9'
    ensures n < 10 && DigitChar(n) == c
  {
    (c as int - 48) as nat
  }

  predicate IsDigits(s: string) {
    forall i :: 0 <= i < |s| ==> '0' <= s[i] <= '9'
  }

  /** Python's `str(n)` for a non-negative integer: its decimal digits, most significant first, without leading zeros. */
  function Decimal(n: nat): (r: string)
    ensures 1 <= |r| && IsDigits(r)
    ensures (|r| > 1 ==> r[0] != '0') && (n < 10 <==> |r| == 1)
    decreases n
  {
    if n < 10 then [DigitChar(n)] else Decimal(n / 10) + [DigitChar(n % 10)]
  }

  /** The number a string of decimal digits denotes (Python's `int(s)` on such a string). */
  function DecimalValue(s: string): nat
    requires IsDigits(s)
    decreases |s|
  {
    if |s| == 0 then 0 else 10 * DecimalValue(s[..|s| - 1]) + DigitValue(s[|s| - 1])
  }

  /** Reading the decimal rendering back gives the number: the rendering is lossless. */
  lemma {:induction false} DecimalRoundTrip(n: nat)
    ensures DecimalValue(Decimal(n)) == n
    decreases n
  {
    if n >= 10 {
      DecimalRoundTrip(n / 10);
      var s := Decimal(n);
      assert s[..|s| - 1] == Decimal(n / 10);
    }
  }

  /** Python's `s.zfill(2)` for a string without a sign: pad with leading zeros to width two. */
  function ZeroFill2(s: string): (r: string)
    ensures |r| == if |s| >= 2 then |s| else 2
    ensures IsDigits(s) ==> IsDigits(r)
  {
    if |s| >= 2 then s else seq(2 - |s|, _ => '0') + s
  }

  /** Zero-filling a number below 100 gives two digits that still denote it. */
  lemma ZeroFill2Value(n: nat)
    requires n < 100
    ensures |ZeroFill2(Decimal(n))| == 2
    ensures DecimalValue(ZeroFill2(Decimal(n))) == n
  {
    DecimalRoundTrip(n);
    var s := ZeroFill2(Decimal(n));
    if n < 10 {
      assert s[..1] == "0";
      assert DecimalValue(s[..1]) == 0 by {
        assert s[..1][..0] == [];
      }
    } else {
      assert Decimal(n / 10) == [DigitChar(n / 10)];
    }
  }

  /** Python's `a <= b` on strings: lexicographic order of code points. */
  predicate LexLe(a: string, b: string)
    decreases |a|
  {
    if |a| == 0 then true
    else if |b| == 0 then false
    else if a[0] != b[0] then a[0] < b[0]
    else LexLe(a[1..], b[1..])
  }

  lemma {:induction false} LexLeTotal(a: string, b: string)
    ensures LexLe(a, b) || LexLe(b, a)
    decreases |a|
  {
    if |a| > 0 && |b| > 0 && a[0] == b[0] {
      LexLeTotal(a[1..], b[1..]);
    }
  }

  lemma {:induction false} LexLeTransitive(a: string, b: string, c: string)
    requires LexLe(a, b) && LexLe(b, c)
    ensures LexLe(a, c)
    decreases |a|
  {
    if |a| > 0 && |b| > 0 && |c| > 0 && a[0] == b[0] && b[0] == c[0] {
      LexLeTransitive(a[1..], b[1..], c[1..]);
    }
  }

  lemma {:induction false} LexLeAntisymmetric(a: string, b: string)
    requires LexLe(a, b) && LexLe(b, a)
    ensures a == b
    decreases |a|
  {
    if |a| > 0 {
      LexLeAntisymmetric(a[1..], b[1..]);
      assert a == [a[0]] + a[1..] && b == [b[0]] + b[1..];
    }
  }
}
