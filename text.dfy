// The .NET string operations the metadata parsers and formatters rely on,
// on `seq<char>`: prefix and substring tests, ToLower on ASCII
// letters, Split on a separator string (with its inverse, Join), Trim of a
// character set, and int.Parse on the invariant culture.

module Text {
  import opened Common

  /**
   * `s.StartsWith(p)`, compared character by character. The library's
   * `string.StartsWith(string)` compares by the current culture, which
   * skips ignorable characters such as U+00AD; the model does not.
   */
  predicate StartsWith(s: string, p: string)
  {
    |p| <= |s| && s[..|p|] == p
  }

  /** `p` occurs in `s` at position `i`. */
  predicate OccursAt(s: string, p: string, i: int)
  {
    0 <= i && i + |p| <= |s| && s[i..i + |p|] == p
  }

  /** `s.Contains(p)`, compared ordinally. */
  predicate Contains(s: string, p: string)
  {
    exists i :: 0 <= i <= |s| && OccursAt(s, p, i)
  }

  /** A string that starts with `p` contains it. */
  lemma StartsWithContains(s: string, p: string)
    requires StartsWith(s, p)
    ensures Contains(s, p)
  {
    assert OccursAt(s, p, 0);
  }

  /** A string that contains a string starting with `p` contains `p`. */
  lemma ContainsPrefixOf(s: string, q: string, p: string)
    requires Contains(s, q) && StartsWith(q, p)
    ensures Contains(s, p)
  {
    var i :| 0 <= i <= |s| && OccursAt(s, q, i);
    assert s[i..i + |p|] == q[..|p|];
    assert OccursAt(s, p, i);
  }

  /** Two prefixes of one string are prefixes of each other: the shorter one starts the longer one. */
  lemma PrefixesNest(s: string, p: string, q: string)
    requires StartsWith(s, p) && StartsWith(s, q) && |p| <= |q|
    ensures StartsWith(q, p)
  {
    assert q[..|p|] == s[..|q|][..|p|];
  }

  /** The first position at or after `from` where `p` occurs in `s`, or -1 (String.IndexOf, ordinal). */
  function IndexOfFrom(s: string, p: string, from: nat): (r: int)
    requires |p| > 0
    ensures r == -1 || (from <= r && OccursAt(s, p, r))
    ensures r == -1 ==> forall i :: from <= i ==> !OccursAt(s, p, i)
    ensures r != -1 ==> forall i :: from <= i < r ==> !OccursAt(s, p, i)
    decreases |s| - from
  {
    if from + |p| > |s| then -1
    else if s[from..from + |p|] == p then from
    else IndexOfFrom(s, p, from + 1)
  }

  /**
   * `s.Split(sep)` with a non-empty separator and no options: every piece,
   * empty ones included, between occurrences of `sep` taken left to right.
   */
  function Split(s: string, sep: string): (r: seq<string>)
    requires |sep| > 0
    ensures |r| >= 1
    decreases |s|
  {
    var i := IndexOfFrom(s, sep, 0);
    if i == -1 then [s] else [s[..i]] + Split(s[i + |sep|..], sep)
  }

  /** `string.Join(sep, parts)`. */
  function Join(parts: seq<string>, sep: string): string
  {
    if |parts| == 0 then []
    else if |parts| == 1 then parts[0]
    else parts[0] + sep + Join(parts[1..], sep)
  }

  /** Splitting and joining back on the same separator gives the string again. */
  lemma {:induction false} SplitJoin(s: string, sep: string)
    requires |sep| > 0
    ensures Join(Split(s, sep), sep) == s
    decreases |s|
  {
    var i := IndexOfFrom(s, sep, 0);
    if i != -1 {
      var rest := s[i + |sep|..];
      var parts := Split(s, sep);
      SplitJoin(rest, sep);
      assert parts[0] == s[..i] && parts[1..] == Split(rest, sep);
      assert Join(parts, sep) == s[..i] + sep + rest;
      SliceRejoin(s, i, i + |sep|);
    }
  }

  /** A string is the concatenation of the three slices two cut points make. */
  lemma SliceRejoin(s: string, i: nat, j: nat)
    requires i <= j <= |s|
    ensures s == s[..i] + s[i..j] + s[j..]
  {
  }

  /** No piece of a split holds the separator. */
  lemma {:induction false} SplitPiecesFree(s: string, sep: string)
    requires |sep| > 0
    ensures forall k :: 0 <= k < |Split(s, sep)| ==> !Contains(Split(s, sep)[k], sep)
    decreases |s|
  {
    var i := IndexOfFrom(s, sep, 0);
    if i == -1 {
      assert Split(s, sep) == [s];
    } else {
      var rest := s[i + |sep|..];
      SplitPiecesFree(rest, sep);
      forall j | OccursAt(s[..i], sep, j)
        ensures false
      {
        assert s[..i][j..j + |sep|] == s[j..j + |sep|];
        assert OccursAt(s, sep, j);
      }
    }
  }

  /** `s.Trim(chars)`: drops every leading and trailing character `strip` selects. */
  function Trim(s: string, strip: char -> bool): (r: string)
    ensures |r| <= |s|
    ensures |r| > 0 ==> !strip(r[0]) && !strip(r[|r| - 1])
  {
    TrimEnd(TrimStart(s, strip), strip)
  }

  function TrimStart(s: string, strip: char -> bool): (r: string)
    ensures |r| <= |s| && (|r| > 0 ==> !strip(r[0]))
    ensures r == s[|s| - |r|..]
    ensures |s| > 0 && !strip(s[0]) ==> r == s
  {
    if |s| > 0 && strip(s[0]) then TrimStart(s[1..], strip) else s
  }

  function TrimEnd(s: string, strip: char -> bool): (r: string)
    ensures |r| <= |s| && (|r| > 0 ==> !strip(r[|r| - 1]))
    ensures r == s[..|r|]
    ensures |s| > 0 && !strip(s[|s| - 1]) ==> r == s
  {
    if |s| > 0 && strip(s[|s| - 1]) then TrimEnd(s[..|s| - 1], strip) else s
  }

  /** `s.Replace(c.ToString(), "")`: every occurrence of `c` removed, the rest kept in order. */
  function Remove(s: string, c: char): (r: string)
    ensures |r| <= |s| && c !in r
  {
    if |s| == 0 then []
    else if s[|s| - 1] == c then Remove(s[..|s| - 1], c)
    else Remove(s[..|s| - 1], c) + [s[|s| - 1]]
  }

  /** Char.ToLower on the invariant culture, restricted to ASCII letters. */
  function LowerChar(c: char): (r: char)
    ensures 'A' <= c <= 'Z' ==> r as int == c as int + 32
    ensures !('A' <= c <= 'Z') ==> r == c
  {
    if 'A' <= c <= 'Z' then (c as int + 32) as char else c
  }

  /** `s.ToLower()`. */
  function Lower(s: string): (r: string)
    ensures |r| == |s| && forall k :: 0 <= k < |s| ==> r[k] == LowerChar(s[k])
  {
    seq(|s|, k requires 0 <= k < |s| => LowerChar(s[k]))
  }

  /** Lower-casing twice is lower-casing once. */
  lemma LowerIdempotent(s: string)
    ensures Lower(Lower(s)) == Lower(s)
  {
    var l := Lower(s);
    forall k | 0 <= k < |s|
      ensures Lower(l)[k] == l[k]
    {
      assert !('A' <= l[k] <= 'Z');
    }
  }

  // ---- int.Parse ----

  const Int32Min := -0x8000_0000
  const Int32Max := 0x7FFF_FFFF

  predicate IsDigit(c: char) { '0' <= c <= '9' }

  /** The white space NumberStyles.Integer admits around the number: tab to carriage return, and space. */
  predicate IsWhite(c: char) { c == ' ' || '\t' <= c <= '\r' }

  predicate AllDigits(ds: string)
  {
    forall k :: 0 <= k < |ds| ==> IsDigit(ds[k])
  }

  /** The value of a string of decimal digits, most significant first. */
  function DigitsValue(ds: string): (r: nat)
    requires AllDigits(ds)
  {
    if |ds| == 0 then 0
    else
      assert IsDigit(ds[|ds| - 1]);
      DigitsValue(ds[..|ds| - 1]) * 10 + (ds[|ds| - 1] as int - '0' as int)
  }

  /**
   * `int.Parse(s)`: optional white space, an optional sign, at least one
   * digit, optional white space. FormatException when the text is not of
   * that form, OverflowException when the value is outside Int32.
   */
  function ParseInt(s: string): (r: Result<int>)
    ensures r.Ok? ==> Int32Min <= r.value <= Int32Max
    ensures r.Err? ==> r.error == FormatError || r.error == Overflow
  {
    ParseSigned(Trim(s, IsWhite))
  }

  /** The sign and digits left once the white space is trimmed. */
  function ParseSigned(t: string): (r: Result<int>)
    ensures r.Ok? ==> Int32Min <= r.value <= Int32Max
    ensures r.Err? ==> r.error == FormatError || r.error == Overflow
  {
    if |t| > 0 && t[0] == '-' then ParseMagnitude(t[1..], true)
    else if |t| > 0 && t[0] == '+' then ParseMagnitude(t[1..], false)
    else ParseMagnitude(t, false)
  }

  function ParseMagnitude(ds: string, negative: bool): (r: Result<int>)
    ensures r.Ok? ==> Int32Min <= r.value <= Int32Max
    ensures r.Err? ==> r.error == FormatError || r.error == Overflow
    ensures r.Ok? <==> |ds| > 0 && AllDigits(ds) &&
                       (if negative then DigitsValue(ds) <= -Int32Min else DigitsValue(ds) <= Int32Max)
    ensures r.Ok? ==> r.value == if negative then -(DigitsValue(ds) as int) else DigitsValue(ds)
  {
    if |ds| == 0 || !AllDigits(ds) then Err(FormatError)
    else
      var magnitude: int := DigitsValue(ds);
      var v := if negative then -magnitude else magnitude;
      if v < Int32Min || v > Int32Max then Err(Overflow) else Ok(v)
  }

  /** The decimal digits of a natural number, most significant first, without leading zeros. */
  function Decimal(n: nat): (r: string)
    ensures |r| > 0 && AllDigits(r)
  {
    var d := ((n % 10) + '0' as int) as char;
    if n < 10 then [d] else Decimal(n / 10) + [d]
  }

  /** `n.ToString()` on the invariant culture. */
  function IntToString(n: int): (r: string)
  {
    if n < 0 then "-" + Decimal(-n) else Decimal(n)
  }

  lemma {:induction false} DecimalValue(n: nat)
    ensures DigitsValue(Decimal(n)) == n
  {
    if n >= 10 {
      DecimalValue(n / 10);
      var r := Decimal(n);
      assert r[..|r| - 1] == Decimal(n / 10);
    }
  }

  /** Trimming a string that neither starts nor ends with a stripped character leaves it alone. */
  lemma TrimKeeps(s: string, strip: char -> bool)
    requires |s| > 0 && !strip(s[0]) && !strip(s[|s| - 1])
    ensures Trim(s, strip) == s
  {
    assert TrimStart(s, strip) == s;
  }

  /** Text with no white space at either end parses as its sign and digits directly. */
  lemma ParseUntrimmed(s: string)
    requires |s| > 0 && !IsWhite(s[0]) && !IsWhite(s[|s| - 1])
    ensures ParseInt(s) == ParseSigned(s)
  {
    TrimKeeps(s, IsWhite);
  }

  /** A plain run of digits parses to its value when that fits. */
  lemma ParseDigits(ds: string)
    requires |ds| > 0 && AllDigits(ds) && DigitsValue(ds) <= Int32Max
    ensures ParseInt(ds) == Ok(DigitsValue(ds))
  {
    assert IsDigit(ds[0]) && IsDigit(ds[|ds| - 1]);
    ParseUntrimmed(ds);
    assert ParseSigned(ds) == ParseMagnitude(ds, false);
  }

  /** A minus sign and a run of digits read as the negated value when that fits. */
  lemma SignedNegated(ds: string)
    requires |ds| > 0 && AllDigits(ds) && DigitsValue(ds) <= -Int32Min
    ensures ParseSigned("-" + ds) == Ok(-(DigitsValue(ds) as int))
  {
    var s := "-" + ds;
    assert s[0] == '-' && s[1..] == ds;
  }

  /** int.Parse reads back what ToString wrote, for every Int32. */
  lemma ParseIntToString(n: int)
    requires Int32Min <= n <= Int32Max
    ensures ParseInt(IntToString(n)) == Ok(n)
  {
    if n < 0 {
      var ds := Decimal(-n);
      var s := "-" + ds;
      assert IntToString(n) == s;
      DecimalValue(-n);
      assert IsDigit(ds[|ds| - 1]) && s[|s| - 1] == ds[|ds| - 1];
      ParseUntrimmed(s);
      SignedNegated(ds);
    } else {
      var ds := Decimal(n);
      assert IntToString(n) == ds;
      DecimalValue(n);
      ParseDigits(ds);
    }
  }
}
