/** The pieces of Python's `str` and `int` built-ins that the application relies on:
  * `isspace`, `isalpha`, `isdigit`, `strip`, `lower`, `replace`, `split`, `partition`,
  * `int(text)` and the `0Nd` format specification.
  *
  * Character classes are exact for every code point up to U+00FF (and `IsSpace` for all
  * of Unicode); letters and digits above U+00FF are not classified. */
module Texto {
  import opened Wrappers

  // ---------------------------------------------------------------------------------------
  // Character classes
  // ---------------------------------------------------------------------------------------

  /** `c.isspace()`: the characters Python strips. */
  predicate IsSpace(c: char) {
    || '\t' <= c <= '\r'
    || '\U{1C}' <= c <= ' '
    || c == '\U{85}' || c == '\U{A0}' || c == '\U{1680}'
    || '\U{2000}' <= c <= '\U{200A}'
    || c == '\U{2028}' || c == '\U{2029}' || c == '\U{202F}' || c == '\U{205F}' || c == '\U{3000}'
  }

  /** `c.isalpha()` for code points up to U+00FF. */
  predicate IsAlpha(c: char) {
    || 'A' <= c <= 'Z' || 'a' <= c <= 'z'
    || c == '\U{AA}' || c == '\U{B5}' || c == '\U{BA}'
    || '\U{C0}' <= c <= '\U{D6}' || '\U{D8}' <= c <= '\U{F6}' || '\U{F8}' <= c <= '\U{FF}'
  }

  /** `c.isdigit()` for code points up to U+00FF (the superscripts count as digits). */
  predicate IsDigit(c: char) {
    '0' <= c <= '9' || c == '\U{B2}' || c == '\U{B3}' || c == '\U{B9}'
  }

  /** The decimal digits that `int()` accepts. */
  predicate IsDecimal(c: char) {
    '0' <= c <= '9'
  }

  predicate IsUpper(c: char) {
    'A' <= c <= 'Z' || ('\U{C0}' <= c <= '\U{DE}' && c != '\U{D7}')
  }

  /** `c.lower()` for code points up to U+00FF. */
  function LowerChar(c: char): (r: char)
    ensures !IsUpper(r)
    ensures IsSpace(r) <==> IsSpace(c)
    ensures IsAlpha(r) <==> IsAlpha(c)
    ensures IsUpper(c) ==> r != c
    ensures !IsUpper(c) ==> r == c
  {
    if IsUpper(c) then (c as int + 32) as char else c
  }

  // ---------------------------------------------------------------------------------------
  // strip, lower, replace
  // ---------------------------------------------------------------------------------------

  /** Drops the leading whitespace. */
  function TrimStart(s: string): (r: string)
    ensures |r| <= |s| && r == s[|s| - |r|..]
    ensures r == [] || !IsSpace(r[0])
    ensures forall i :: 0 <= i < |s| - |r| ==> IsSpace(s[i])
  {
    if s != [] && IsSpace(s[0]) then TrimStart(s[1..]) else s
  }

  /** Drops the trailing whitespace. */
  function TrimEnd(s: string): (r: string)
    ensures |r| <= |s| && r == s[..|r|]
    ensures r == [] || !IsSpace(r[|r| - 1])
    ensures forall i :: |r| <= i < |s| ==> IsSpace(s[i])
  {
    if s != [] && IsSpace(s[|s| - 1]) then TrimEnd(s[..|s| - 1]) else s
  }

  /** `s.strip()`. */
  function Strip(s: string): (r: string)
    ensures forall c :: c in r ==> c in s
    ensures r == [] || (!IsSpace(r[0]) && !IsSpace(r[|r| - 1]))
  {
    TrimEnd(TrimStart(s))
  }

  /** `strip()` yields the empty string exactly when every character is whitespace. */
  lemma StripEmptyIffAllSpace(s: string)
    ensures Strip(s) == [] <==> forall i :: 0 <= i < |s| ==> IsSpace(s[i])
  {
    var t := TrimStart(s);
    if TrimEnd(t) == [] {
      assert t == [];
    }
  }

  /** `strip()` changes nothing in a string without whitespace. */
  lemma StripNoSpace(s: string)
    requires forall i :: 0 <= i < |s| ==> !IsSpace(s[i])
    ensures Strip(s) == s
  {
  }

  /** `s.lower()`. */
  function Lower(s: string): (r: string)
    ensures |r| == |s|
    ensures forall i :: 0 <= i < |s| ==> r[i] == LowerChar(s[i])
  {
    seq(|s|, i requires 0 <= i < |s| => LowerChar(s[i]))
  }

  /** `s.strip().lower()`, the normal form of an e-mail address throughout the application. */
  function StripLower(s: string): (r: string)
    ensures |r| <= |s|
    ensures forall i :: 0 <= i < |r| ==> !IsUpper(r[i])
  {
    Lower(Strip(s))
  }

  /** Normalising an address twice is the same as normalising it once, so every service may
    * normalise what it receives even when the caller already did. */
  lemma StripLowerIdempotent(s: string)
    ensures StripLower(StripLower(s)) == StripLower(s)
  {
    var t := Strip(s);
    var n := Lower(t);
    if n != [] {
      assert n[0] == LowerChar(t[0]) && n[|n| - 1] == LowerChar(t[|t| - 1]);
    }
    StripNoSpaceEnds(n);
    forall i | 0 <= i < |n|
      ensures Lower(n)[i] == n[i]
    {
      assert n[i] == LowerChar(t[i]);
    }
  }

  /** Stripping twice is the same as stripping once. */
  lemma StripIdempotent(s: string)
    ensures Strip(Strip(s)) == Strip(s)
  {
    StripNoSpaceEnds(Strip(s));
  }

  lemma StripNoSpaceEnds(s: string)
    requires s == [] || (!IsSpace(s[0]) && !IsSpace(s[|s| - 1]))
    ensures Strip(s) == s
  {
  }

  /** `s.replace(a, b)` for single characters. */
  function Replace(s: string, a: char, b: char): (r: string)
    ensures |r| == |s|
    ensures forall i :: 0 <= i < |s| ==> r[i] == (if s[i] == a then b else s[i])
    ensures a != b ==> a !in r
  {
    seq(|s|, i requires 0 <= i < |s| => if s[i] == a then b else s[i])
  }

  lemma ReplaceAbsent(s: string, a: char, b: char)
    requires a !in s
    ensures Replace(s, a, b) == s
  {
  }

  // ---------------------------------------------------------------------------------------
  // split and partition
  // ---------------------------------------------------------------------------------------

  /** `s.split(sep)`: the pieces between the separators, always at least one. */
  function Split(s: string, sep: char): (r: seq<string>)
    ensures |r| >= 1
    ensures forall i :: 0 <= i < |r| ==> sep !in r[i]
    ensures forall i :: 0 <= i < |r| ==> forall c :: c in r[i] ==> c in s
  {
    if s == [] then [[]]
    else
      var rest := Split(s[1..], sep);
      if s[0] == sep then [[]] + rest
      else [[s[0]] + rest[0]] + rest[1..]
  }

  /** `sep.join(parts)`. */
  function Join(parts: seq<string>, sep: char): string
    requires |parts| >= 1
  {
    if |parts| == 1 then parts[0] else parts[0] + [sep] + Join(parts[1..], sep)
  }

  /** Three separator-free pieces joined by the separator split back into those pieces. */
  lemma Split3(a: string, b: string, c: string, sep: char)
    requires sep !in a && sep !in b && sep !in c
    ensures Split(a + [sep] + b + [sep] + c, sep) == [a, b, c]
  {
    SplitFree(c, sep);
    SplitPrefix(b, c, sep);
    assert a + [sep] + b + [sep] + c == a + [sep] + (b + [sep] + c);
    SplitPrefix(a, b + [sep] + c, sep);
  }

  /** Splitting and joining again gives back the text. */
  lemma {:induction false} JoinSplit(s: string, sep: char)
    ensures Join(Split(s, sep), sep) == s
  {
    if s != [] {
      JoinSplit(s[1..], sep);
      var rest := Split(s[1..], sep);
      if s[0] != sep && |rest| > 1 {
        assert Join(rest, sep) == rest[0] + [sep] + Join(rest[1..], sep);
      }
    }
  }

  /** Joining separator-free pieces and splitting again gives back the pieces. */
  lemma {:induction false} SplitJoin(parts: seq<string>, sep: char)
    requires |parts| >= 1
    requires forall i :: 0 <= i < |parts| ==> sep !in parts[i]
    ensures Split(Join(parts, sep), sep) == parts
  {
    if |parts| == 1 {
      SplitFree(parts[0], sep);
    } else {
      SplitJoin(parts[1..], sep);
      SplitPrefix(parts[0], Join(parts[1..], sep), sep);
      assert Join(parts, sep) == parts[0] + ([sep] + Join(parts[1..], sep));
    }
  }

  lemma {:induction false} SplitFree(s: string, sep: char)
    requires sep !in s
    ensures Split(s, sep) == [s]
  {
    if s != [] {
      SplitFree(s[1..], sep);
      assert [s[0]] + s[1..] == s;
    }
  }

  lemma {:induction false} SplitPrefix(a: string, b: string, sep: char)
    requires sep !in a
    ensures Split(a + [sep] + b, sep) == [a] + Split(b, sep)
  {
    if a == [] {
      assert a + [sep] + b == [sep] + b;
      assert ([sep] + b)[1..] == b;
    } else {
      assert (a + [sep] + b)[1..] == a[1..] + [sep] + b;
      SplitPrefix(a[1..], b, sep);
      assert [a[0]] + a[1..] == a;
    }
  }

  /** `s.partition(c)` when `c` occurs: the text before the first `c` and the text after it. */
  function Partition(s: string, c: char): (r: (string, string))
    requires c in s
    ensures r.0 + [c] + r.1 == s
    ensures c !in r.0
  {
    if s[0] == c then ([], s[1..])
    else
      var p := Partition(s[1..], c);
      ([s[0]] + p.0, p.1)
  }

  /** `partition` splits at the first occurrence: the part before it is the prefix up to the
    * first `c`, the part after it everything that follows that `c`. */
  lemma {:induction false} PartitionAt(s: string, c: char, i: int)
    requires 0 <= i < |s| && s[i] == c && c !in s[..i]
    ensures Partition(s, c) == (s[..i], s[i + 1..])
  {
    if i > 0 {
      assert s[0] in s[..i];
      assert s[1..][..i - 1] == s[1..i];
      assert c !in s[1..][..i - 1] by {
        assert forall x :: x in s[1..i] ==> x in s[..i];
      }
      PartitionAt(s[1..], c, i - 1);
      assert [s[0]] + s[1..i] == s[..i];
    }
  }

  /** The number of occurrences of `c` in `s`. */
  function Count(s: string, c: char): nat {
    if s == [] then 0 else (if s[0] == c then 1 else 0) + Count(s[1..], c)
  }

  lemma {:induction false} CountAppend(a: string, b: string, c: char)
    ensures Count(a + b, c) == Count(a, c) + Count(b, c)
  {
    if a != [] {
      assert a + b != [] && (a + b)[0] == a[0];
      assert (a + b)[1..] == a[1..] + b;
      CountAppend(a[1..], b, c);
      calc {
        Count(a + b, c);
        (if a[0] == c then 1 else 0) + Count(a[1..] + b, c);
        (if a[0] == c then 1 else 0) + Count(a[1..], c) + Count(b, c);
        Count(a, c) + Count(b, c);
      }
    } else {
      assert a + b == b;
    }
  }

  lemma {:induction false} CountAbsent(s: string, c: char)
    ensures c !in s <==> Count(s, c) == 0
  {
    if s != [] {
      CountAbsent(s[1..], c);
      assert c in s <==> s[0] == c || c in s[1..];
    }
  }

  /** `s.split(sep)` has exactly one piece more than there are separators. */
  lemma {:induction false} SplitLength(s: string, sep: char)
    ensures |Split(s, sep)| == Count(s, sep) + 1
  {
    if s != [] {
      SplitLength(s[1..], sep);
    }
  }

  /** A text with exactly one separator splits into the two sides of `partition`. */
  lemma SplitOnce(s: string, sep: char)
    requires Count(s, sep) == 1
    ensures sep in s
    ensures Split(s, sep) == [Partition(s, sep).0, Partition(s, sep).1]
  {
    CountAbsent(s, sep);
    var p := Partition(s, sep);
    CountAppend(p.0 + [sep], p.1, sep);
    CountAppend(p.0, [sep], sep);
    CountAbsent(p.0, sep);
    CountAbsent(p.1, sep);
    assert Count([sep], sep) == 1 by { assert [sep][1..] == []; }
    SplitFree(p.1, sep);
    SplitPrefix(p.0, p.1, sep);
  }

  // ---------------------------------------------------------------------------------------
  // Comparison
  // ---------------------------------------------------------------------------------------

  /** `a <= b` on strings: code point by code point, a proper prefix first. */
  predicate StrLe(a: string, b: string) {
    a == [] || (b != [] && (a[0] < b[0] || (a[0] == b[0] && StrLe(a[1..], b[1..]))))
  }

  /** String comparison is a total order. */
  lemma {:induction false} StrLeTotal(a: string, b: string)
    ensures StrLe(a, b) || StrLe(b, a)
    ensures StrLe(a, b) && StrLe(b, a) ==> a == b
  {
    if a != [] && b != [] && a[0] == b[0] {
      StrLeTotal(a[1..], b[1..]);
      if StrLe(a, b) && StrLe(b, a) {
        assert a == [a[0]] + a[1..] && b == [b[0]] + b[1..];
      }
    }
  }

  lemma {:induction false} StrLeTrans(a: string, b: string, c: string)
    requires StrLe(a, b) && StrLe(b, c)
    ensures StrLe(a, c)
  {
    if a != [] && b != [] && c != [] && a[0] == b[0] && b[0] == c[0] {
      StrLeTrans(a[1..], b[1..], c[1..]);
    }
  }

  // ---------------------------------------------------------------------------------------
  // int(text) and the 0Nd format
  // ---------------------------------------------------------------------------------------

  function DigitValue(c: char): nat
    requires IsDecimal(c)
  {
    c as int - '0' as int
  }

  predicate AllDecimal(ds: string) {
    forall i :: 0 <= i < |ds| ==> IsDecimal(ds[i])
  }

  /** The value of a string of decimal digits, most significant first. */
  function DecValue(ds: string): nat
    requires AllDecimal(ds)
  {
    if ds == [] then 0 else DecValue(ds[..|ds| - 1]) * 10 + DigitValue(ds[|ds| - 1])
  }

  /** `10 ** n`. */
  function Pot10(n: nat): (r: nat)
    ensures r >= 1
  {
    if n == 0 then 1 else 10 * Pot10(n - 1)
  }

  /** A string of `n` decimal digits is worth less than `10 ** n`. */
  lemma {:induction false} DecValueCota(ds: string)
    requires AllDecimal(ds)
    ensures DecValue(ds) < Pot10(|ds|)
  {
    if ds != [] {
      var init := ds[..|ds| - 1];
      DecValueCota(init);
      assert DecValue(ds) <= (Pot10(|init|) - 1) * 10 + 9;
    }
  }

  /** The value of one or two decimal digits, digit by digit. */
  lemma CifrasCortas(ds: string)
    ensures |ds| == 1 && AllDecimal(ds) ==> DecValue(ds) == DigitValue(ds[0])
    ensures |ds| == 2 && AllDecimal(ds) ==> DecValue(ds) == DigitValue(ds[0]) * 10 + DigitValue(ds[1])
  {
    if |ds| == 2 && AllDecimal(ds) {
      assert ds[..1] == [ds[0]] && [ds[0]][..0] == [];
    }
    if |ds| == 1 && AllDecimal(ds) {
      assert ds[..0] == [];
    }
  }

  /** The body `int()` accepts after the sign: digits, with single underscores between digits. */
  predicate DigitRun(t: string) {
    |t| > 0 && forall i :: 0 <= i < |t| ==> RunCharOk(t, i)
  }

  /** Position `i` holds a digit, or an underscore with a digit on either side. */
  predicate RunCharOk(t: string, i: int)
    requires 0 <= i < |t|
  {
    IsDecimal(t[i]) || (t[i] == '_' && 0 < i < |t| - 1 && IsDecimal(t[i - 1]) && IsDecimal(t[i + 1]))
  }

  function DropUnderscores(t: string): (r: string)
    ensures forall i :: 0 <= i < |r| ==> r[i] != '_' && r[i] in t
    ensures '_' !in t ==> r == t
  {
    if t == [] then []
    else (if t[0] == '_' then [] else [t[0]]) + DropUnderscores(t[1..])
  }

  lemma DigitRunAt(t: string, j: int)
    requires DigitRun(t) && 0 <= j < |t|
    ensures IsDecimal(t[j]) || t[j] == '_'
  {
    assert RunCharOk(t, j);
  }

  function RunValue(t: string): nat
    requires DigitRun(t)
  {
    var ds := DropUnderscores(t);
    assert AllDecimal(ds) by {
      forall i | 0 <= i < |ds| ensures IsDecimal(ds[i]) {
        var j :| 0 <= j < |t| && t[j] == ds[i];
        DigitRunAt(t, j);
      }
    }
    DecValue(ds)
  }

  /** `int(text)`: `None` stands for the `ValueError` Python raises. */
  function ParseInt(s: string): (r: Option<int>)
    ensures r.Some? && '-' !in s ==> r.value >= 0
  {
    var t := Strip(s);
    if |t| > 0 && (t[0] == '+' || t[0] == '-') then
      if DigitRun(t[1..]) then
        var v: int := RunValue(t[1..]);
        Some(if t[0] == '-' then -v else v)
      else None
    else if DigitRun(t) then Some(RunValue(t))
    else None
  }

  /** `str(n)` for a natural number. */
  function Dec(n: nat): (r: string)
    ensures |r| >= 1 && AllDecimal(r)
    ensures DecValue(r) == n
    ensures |r| == 1 || r[0] != '0'
  {
    if n < 10 then [('0' as int + n) as char]
    else
      var r := Dec(n / 10) + [('0' as int + n % 10) as char];
      assert r[..|r| - 1] == Dec(n / 10);
      r
  }

  /** A number of ten or more is written with one digit more than its tenth. */
  lemma DecLength(n: nat)
    requires n >= 10
    ensures |Dec(n)| == |Dec(n / 10)| + 1
  {
  }

  function Zeros(k: nat): (r: string)
    ensures |r| == k && forall i :: 0 <= i < k ==> r[i] == '0'
  {
    if k == 0 then [] else ['0'] + Zeros(k - 1)
  }

  function ZeroPad(ds: string, width: nat): (r: string)
    ensures |r| == if |ds| < width then width else |ds|
  {
    if |ds| < width then Zeros(width - |ds|) + ds else ds
  }

  /** `f"{n:0{width}d}"`: the sign counts towards the width, the zeros go after it. */
  function FormatInt(n: int, width: nat): (r: string)
    ensures n >= 0 ==> |r| == if |Dec(n)| < width then width else |Dec(n)|
    ensures n < 0 ==> |r| >= 1 && r[0] == '-'
  {
    if n < 0 then "-" + ZeroPad(Dec(-n), if width > 0 then width - 1 else 0)
    else ZeroPad(Dec(n), width)
  }

  lemma {:induction false} LeadingZeros(k: nat, ds: string)
    requires AllDecimal(ds)
    ensures AllDecimal(Zeros(k) + ds) && DecValue(Zeros(k) + ds) == DecValue(ds)
  {
    if k > 0 {
      LeadingZeros(k - 1, ds);
      var rest := Zeros(k - 1) + ds;
      assert Zeros(k) + ds == ['0'] + rest;
      LeadingZero(rest);
      assert DecValue(['0'] + rest) == DecValue(rest);
    } else {
      assert Zeros(k) + ds == ds;
    }
  }

  lemma {:induction false} LeadingZero(ds: string)
    requires AllDecimal(ds)
    ensures AllDecimal(['0'] + ds) && DecValue(['0'] + ds) == DecValue(ds)
  {
    if ds != [] {
      var z := ['0'] + ds;
      assert z[..|z| - 1] == ['0'] + ds[..|ds| - 1];
      LeadingZero(ds[..|ds| - 1]);
    }
  }

  /** `int()` reads a plain string of decimal digits as its decimal value. */
  lemma ParseDecimal(f: string)
    requires |f| > 0 && AllDecimal(f)
    ensures ParseInt(f) == Some(DecValue(f) as int)
  {
    DecimalSinEspacios(f);
    DecimalRun(f);
  }

  lemma DecimalSinEspacios(f: string)
    requires AllDecimal(f)
    ensures Strip(f) == f
  {
    if f != [] {
      assert IsDecimal(f[0]) && IsDecimal(f[|f| - 1]);
    }
    StripNoSpaceEnds(f);
  }

  /** Plain decimal digits are a run without underscores, whose value is theirs. */
  lemma DecimalRun(f: string)
    requires |f| > 0 && AllDecimal(f)
    ensures DigitRun(f) && RunValue(f) == DecValue(f) && f[0] != '+' && f[0] != '-'
  {
    assert forall i :: 0 <= i < |f| ==> RunCharOk(f, i);
    assert '_' !in f;
  }

  /** The zero-padded decimal form of a natural number is read back by `int()` as that number,
    * and consists of decimal digits only. */
  lemma FormatIntRoundTrip(n: nat, width: nat)
    ensures AllDecimal(FormatInt(n, width))
    ensures ParseInt(FormatInt(n, width)) == Some(n)
  {
    var f, ds := FormatInt(n, width), Dec(n);
    if |ds| < width {
      LeadingZeros(width - |ds|, ds);
      assert f == Zeros(width - |ds|) + ds;
    } else {
      assert f == ds;
    }
    ParseDecimal(f);
  }
}
