/**
 * Models of the two Rust standard-library string operations the vocabulary
 * loader relies on: `str::split_whitespace` and `str::parse::<isize>`.
 */
module RustStr {
  import opened Wrappers
  import opened Seqs

  /** `char::is_whitespace`: the characters with the Unicode White_Space property. */
  predicate IsWhitespace(c: char) {
    ('\U{0009}' <= c <= '\U{000D}') || c == ' ' || c == '\U{0085}' || c == '\U{00A0}' ||
    c == '\U{1680}' || ('\U{2000}' <= c <= '\U{200A}') || c == '\U{2028}' || c == '\U{2029}' ||
    c == '\U{202F}' || c == '\U{205F}' || c == '\U{3000}'
  }

  /** A field of `split_whitespace`: non-empty and free of whitespace. */
  predicate IsField(f: string) {
    |f| > 0 && forall i :: 0 <= i < |f| ==> !IsWhitespace(f[i])
  }

  /** The length of the run of non-whitespace characters that starts the string. */
  function RunLength(s: string): (n: nat)
    ensures n <= |s|
    ensures forall i :: 0 <= i < n ==> !IsWhitespace(s[i])
    ensures n < |s| ==> IsWhitespace(s[n])
    decreases |s|
  {
    if s == [] || IsWhitespace(s[0]) then 0 else 1 + RunLength(s[1..])
  }

  /** `str::split_whitespace`: the maximal runs of non-whitespace characters, in order. */
  function SplitWhitespace(s: string): (fields: seq<string>)
    ensures forall k :: 0 <= k < |fields| ==> IsField(fields[k])
    decreases |s|
  {
    if s == [] then []
    else if IsWhitespace(s[0]) then SplitWhitespace(s[1..])
    else
      var n := RunLength(s);
      [s[..n]] + SplitWhitespace(s[n..])
  }

  /** The non-whitespace characters of a string, in order. */
  function NonWhitespace(s: string): string
    decreases |s|
  {
    if s == [] then [] else (if IsWhitespace(s[0]) then [] else [s[0]]) + NonWhitespace(s[1..])
  }

  lemma {:induction false} NonWhitespaceAppend(a: string, b: string)
    ensures NonWhitespace(a + b) == NonWhitespace(a) + NonWhitespace(b)
    decreases |a|
  {
    if a != [] {
      assert (a + b)[1..] == a[1..] + b;
      NonWhitespaceAppend(a[1..], b);
    } else {
      assert a + b == b;
    }
  }

  lemma {:induction false} NonWhitespaceOfField(f: string)
    requires forall i :: 0 <= i < |f| ==> !IsWhitespace(f[i])
    ensures NonWhitespace(f) == f
    decreases |f|
  {
    if f != [] {
      NonWhitespaceOfField(f[1..]);
    }
  }

  /** Splitting loses exactly the whitespace: the fields spell the other characters. */
  lemma {:induction false} SplitWhitespaceSpells(s: string)
    ensures Concat(SplitWhitespace(s)) == NonWhitespace(s)
    decreases |s|
  {
    if s != [] {
      if IsWhitespace(s[0]) {
        SplitWhitespaceSpells(s[1..]);
      } else {
        var n := RunLength(s);
        SplitWhitespaceSpells(s[n..]);
        ConcatAppend([s[..n]], SplitWhitespace(s[n..]));
        NonWhitespaceOfField(s[..n]);
        NonWhitespaceAppend(s[..n], s[n..]);
        assert s[..n] + s[n..] == s;
      }
    }
  }

  /** The fields joined by single spaces. */
  function JoinFields(fields: seq<string>): string
    decreases |fields|
  {
    if fields == [] then [] else if |fields| == 1 then fields[0] else fields[0] + " " + JoinFields(fields[1..])
  }

  lemma {:induction false} RunLengthOfField(f: string, rest: string)
    requires IsField(f)
    requires rest == [] || IsWhitespace(rest[0])
    ensures RunLength(f + rest) == |f|
    decreases |f|
  {
    if |f| > 1 {
      assert (f + rest)[1..] == f[1..] + rest;
      RunLengthOfField(f[1..], rest);
    } else {
      assert (f + rest)[1..] == rest;
    }
  }

  /** Splitting fields joined by spaces gives the fields back. */
  lemma {:induction false} SplitJoin(fields: seq<string>)
    requires forall k :: 0 <= k < |fields| ==> IsField(fields[k])
    ensures SplitWhitespace(JoinFields(fields)) == fields
    decreases |fields|
  {
    if |fields| == 1 {
      var f := fields[0];
      RunLengthOfField(f, []);
      assert f + [] == f;
      assert f[|f|..] == [];
    } else if |fields| > 1 {
      var f := fields[0];
      var tail := " " + JoinFields(fields[1..]);
      assert JoinFields(fields) == f + tail;
      RunLengthOfField(f, tail);
      assert (f + tail)[..|f|] == f;
      assert (f + tail)[|f|..] == tail;
      assert tail[1..] == JoinFields(fields[1..]);
      SplitJoin(fields[1..]);
      assert fields == [f] + fields[1..];
    }
  }

  // ---------------------------------------------------------------------------
  // parse::<isize>
  // ---------------------------------------------------------------------------

  /** `isize` on a 64-bit target. */
  const IsizeMin: int := -0x8000_0000_0000_0000
  const IsizeMax: int := 0x7FFF_FFFF_FFFF_FFFF

  predicate IsDigit(c: char) {
    '0' <= c <= '9'
  }

  predicate AllDigits(s: string) {
    forall i :: 0 <= i < |s| ==> IsDigit(s[i])
  }

  /** The value of a string of decimal digits, most significant first. */
  function DigitsValue(s: string): nat
    requires AllDigits(s)
    decreases |s|
  {
    if s == [] then 0 else DigitsValue(s[..|s| - 1]) * 10 + (s[|s| - 1] as int - '0' as int)
  }

  /**
   * `str::parse::<isize>`: an optional `+` or `-`, then one or more decimal
   * digits, with a value inside the `isize` range; anything else is an error.
   */
  function ParseIsize(s: string): (r: Option<int>)
    ensures r.Some? ==> IsizeMin <= r.value <= IsizeMax
  {
    if s == [] then None
    else
      var negative := s[0] == '-';
      var digits := if s[0] == '+' || s[0] == '-' then s[1..] else s;
      if digits == [] || !AllDigits(digits) then None
      else
        var n: int := if negative then -(DigitsValue(digits) as int) else DigitsValue(digits);
        if IsizeMin <= n <= IsizeMax then Some(n) else None
  }

  /** The shortest decimal digits of a natural number. */
  function NatDigits(n: nat): (s: string)
    ensures |s| > 0 && AllDigits(s)
    decreases n
  {
    (if n < 10 then [] else NatDigits(n / 10)) + [('0' as int + n % 10) as char]
  }

  lemma {:induction false} NatDigitsValue(n: nat)
    ensures DigitsValue(NatDigits(n)) == n
    decreases n
  {
    var s := NatDigits(n);
    var last := ('0' as int + n % 10) as char;
    if n < 10 {
      assert s == [last];
      assert s[..0] == [];
    } else {
      NatDigitsValue(n / 10);
      assert s[..|s| - 1] == NatDigits(n / 10);
    }
  }

  /** The decimal text of an integer, with a `-` for negatives (Rust's `to_string`). */
  function FormatInt(n: int): string {
    if n < 0 then "-" + NatDigits(-n) else NatDigits(n)
  }

  /** Parsing the decimal text of an `isize` gives it back, with or without a `+`. */
  lemma ParseFormat(n: int)
    requires IsizeMin <= n <= IsizeMax
    ensures ParseIsize(FormatInt(n)) == Some(n)
    ensures n >= 0 ==> ParseIsize("+" + FormatInt(n)) == Some(n)
  {
    if n < 0 {
      var digits := NatDigits(-n);
      NatDigitsValue(-n);
      assert FormatInt(n) == "-" + digits;
      ParseSigned('-', digits);
    } else {
      var digits := NatDigits(n);
      NatDigitsValue(n);
      ParseUnsigned(digits);
      ParseSigned('+', digits);
    }
  }

  lemma ParseSigned(sign: char, digits: string)
    requires sign == '+' || sign == '-'
    requires |digits| > 0 && AllDigits(digits)
    ensures var v: int := if sign == '-' then -(DigitsValue(digits) as int) else DigitsValue(digits);
      ParseIsize([sign] + digits) == (if IsizeMin <= v <= IsizeMax then Some(v) else None)
  {
    var s := [sign] + digits;
    assert s[0] == sign;
    assert s[1..] == digits;
  }

  lemma ParseUnsigned(digits: string)
    requires |digits| > 0 && AllDigits(digits)
    ensures ParseIsize(digits) == (if DigitsValue(digits) <= IsizeMax then Some(DigitsValue(digits) as int) else None)
  {
    assert IsDigit(digits[0]);
  }

  /** Only a sign followed by digits parses; a lone sign, a blank or a stray character does not. */
  lemma ParseRejects(s: string)
    requires s == [] || s == "+" || s == "-" ||
             (|s| > 0 && s[0] != '+' && s[0] != '-' && !IsDigit(s[0])) ||
             exists i :: 1 <= i < |s| && !IsDigit(s[i])
    ensures ParseIsize(s) == None
  {
    if |s| > 0 && s[0] != '+' && s[0] != '-' && !IsDigit(s[0]) {
      assert !AllDigits(s);
    } else if exists i :: 1 <= i < |s| && !IsDigit(s[i]) {
      var i :| 1 <= i < |s| && !IsDigit(s[i]);
      if s[0] == '+' || s[0] == '-' {
        assert !IsDigit(s[1..][i - 1]);
      } else {
        assert !AllDigits(s);
      }
    }
  }
}
