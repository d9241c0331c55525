/**
  The parts of Rust's `str` and integer parsing that the HTTP parser and the
  stream classifier depend on: lower-casing, trimming, `find`, `lines`,
  `u32`/`usize` parsing and formatting, and byte-offset slicing (which panics
  outside the string or off a character boundary).
*/
module Text {
  import opened Base
  import opened Utf8

  // ---------------------------------------------------------------- case

  function LowerChar(c: char): char {
    if 'A' <= c <= 'Z' then (c as int + 32) as char else c
  }

  /** `str::to_lowercase`, on the ASCII letters; every other character is kept. */
  function ToLower(s: string): (r: string)
    ensures |r| == |s|
    decreases |s|
  {
    if s == [] then [] else [LowerChar(s[0])] + ToLower(s[1..])
  }

  predicate SameIgnoringCase(s: string, t: string) {
    |s| == |t| && forall i :: 0 <= i < |s| ==> LowerChar(s[i]) == LowerChar(t[i])
  }

  lemma {:induction false} ToLowerAt(s: string, i: nat)
    requires i < |s|
    ensures ToLower(s)[i] == LowerChar(s[i])
  {
    if i > 0 {
      ToLowerAt(s[1..], i - 1);
    }
  }

  /** Two strings that differ only in the case of ASCII letters lower-case to the same string. */
  lemma {:induction false} ToLowerIgnoresCase(s: string, t: string)
    requires SameIgnoringCase(s, t)
    ensures ToLower(s) == ToLower(t)
  {
    forall i | 0 <= i < |s|
      ensures ToLower(s)[i] == ToLower(t)[i]
    {
      ToLowerAt(s, i);
      ToLowerAt(t, i);
    }
  }

  lemma {:induction false} ToLowerCons(c: char, s: string)
    ensures ToLower([c] + s) == [LowerChar(c)] + ToLower(s)
  {
    assert ([c] + s)[1..] == s;
  }

  /** A string without ASCII capitals is its own lower-case form. */
  lemma {:induction false} ToLowerKeeps(s: string)
    requires forall i :: 0 <= i < |s| ==> !('A' <= s[i] <= 'Z')
    ensures ToLower(s) == s
    decreases |s|
  {
    if s != [] {
      ToLowerKeeps(s[1..]);
    }
  }

  /** Lower-casing leaves no ASCII capital behind and is idempotent. */
  lemma {:induction false} ToLowerIdempotent(s: string)
    ensures forall i :: 0 <= i < |s| ==> !('A' <= ToLower(s)[i] <= 'Z')
    ensures ToLower(ToLower(s)) == ToLower(s)
  {
    forall i | 0 <= i < |s|
      ensures !('A' <= ToLower(s)[i] <= 'Z') && ToLower(ToLower(s))[i] == ToLower(s)[i]
    {
      ToLowerAt(s, i);
      ToLowerAt(ToLower(s), i);
    }
  }

  // ---------------------------------------------------------------- trim

  /** `char::is_whitespace`: the Unicode White_Space property. */
  predicate IsWhitespace(c: char) {
    ('\t' <= c <= '\r') || c == ' ' || c == '\U{0085}' || c == '\U{00A0}' || c == '\U{1680}'
    || ('\U{2000}' <= c <= '\U{200A}') || c == '\U{2028}' || c == '\U{2029}'
    || c == '\U{202F}' || c == '\U{205F}' || c == '\U{3000}'
  }

  function TrimStart(s: string): (r: string)
    ensures |r| <= |s|
    decreases |s|
  {
    if s != [] && IsWhitespace(s[0]) then TrimStart(s[1..]) else s
  }

  function TrimEnd(s: string): string
    decreases |s|
  {
    if s != [] && IsWhitespace(s[|s| - 1]) then TrimEnd(s[..|s| - 1]) else s
  }

  /** `str::trim`. */
  function Trim(s: string): string {
    TrimEnd(TrimStart(s))
  }

  lemma {:induction false} TrimStartSpec(s: string)
    ensures var r := TrimStart(s);
            && |r| <= |s| && r == s[|s| - |r|..]
            && (forall k :: 0 <= k < |s| - |r| ==> IsWhitespace(s[k]))
            && (r == [] || !IsWhitespace(r[0]))
    decreases |s|
  {
    if s != [] && IsWhitespace(s[0]) {
      TrimStartSpec(s[1..]);
    }
  }

  lemma {:induction false} TrimEndSpec(s: string)
    ensures var r := TrimEnd(s);
            && |r| <= |s| && r == s[..|r|]
            && (forall k :: |r| <= k < |s| ==> IsWhitespace(s[k]))
            && (r == [] || !IsWhitespace(r[|r| - 1]))
    decreases |s|
  {
    if s != [] && IsWhitespace(s[|s| - 1]) {
      TrimEndSpec(s[..|s| - 1]);
    }
  }

  /** How many characters `trim` drops from the front. */
  function TrimOffset(s: string): nat {
    |s| - |TrimStart(s)|
  }

  /** The trim of `s` is the infix left after removing leading and trailing
      whitespace: what was removed is all whitespace, what is left neither
      starts nor ends with it. */
  lemma {:induction false} TrimSpec(s: string)
    ensures var i := TrimOffset(s);
            var j := i + |Trim(s)|;
            && j <= |s| && Trim(s) == s[i..j]
            && (forall k :: 0 <= k < i ==> IsWhitespace(s[k]))
            && (forall k :: j <= k < |s| ==> IsWhitespace(s[k]))
    ensures Trim(s) == [] || (!IsWhitespace(Trim(s)[0]) && !IsWhitespace(Trim(s)[|Trim(s)| - 1]))
  {
    var t := TrimStart(s);
    TrimStartSpec(s);
    TrimEndSpec(t);
    var i := |s| - |t|;
    assert forall k :: i + |Trim(s)| <= k < |s| ==> s[k] == t[k - i];
  }

  /** A string that neither starts nor ends with whitespace is its own trim. */
  lemma {:induction false} TrimKeeps(s: string)
    requires s == [] || (!IsWhitespace(s[0]) && !IsWhitespace(s[|s| - 1]))
    ensures Trim(s) == s
  {
  }

  /** Trimming is idempotent. */
  lemma {:induction false} TrimIdempotent(s: string)
    ensures Trim(Trim(s)) == Trim(s)
  {
    TrimSpec(s);
    TrimKeeps(Trim(s));
  }

  /** A string trims to "" exactly when it consists of whitespace only. */
  lemma {:induction false} BlankIffWhitespace(s: string)
    ensures Trim(s) == [] <==> forall k :: 0 <= k < |s| ==> IsWhitespace(s[k])
  {
    TrimSpec(s);
  }

  // ---------------------------------------------------------------- find and lines

  /** `str::find` for one character: the index of its first occurrence. */
  function Find(s: string, c: char): (r: Option<nat>)
    ensures r.None? <==> c !in s
    ensures r.Some? ==> r.value < |s| && s[r.value] == c && c !in s[..r.value]
    decreases |s|
  {
    if s == [] then None
    else if s[0] == c then Some(0)
    else match Find(s[1..], c)
      case None => None
      case Some(i) => assert s[1..][..i] == s[1..i + 1]; Some(i + 1)
  }

  function StripCr(line: string): string {
    if |line| > 0 && line[|line| - 1] == '\r' then line[..|line| - 1] else line
  }

  /** `str::lines`: split after each '\n', dropping the "\n" or "\r\n" that
      ends each line; a final line without a line ending is kept, an empty
      remainder after the last '\n' is not. */
  function Lines(s: string): (r: seq<string>)
    ensures forall k :: 0 <= k < |r| ==> '\n' !in r[k]
    decreases |s|
  {
    if s == [] then []
    else match Find(s, '\n')
      case None => [s]
      case Some(i) => [StripCr(s[..i])] + Lines(s[i + 1..])
  }

  lemma {:induction false} LinesCrlf(a: string, b: string)
    requires '\n' !in a
    ensures Lines(a + "\r\n" + b) == [a] + Lines(b)
  {
    var s := a + "\r\n" + b;
    assert s[|a| + 1] == '\n' && s[..|a| + 1] == a + "\r";
    assert Find(s, '\n') == Some(|a| + 1);
    assert s[|a| + 2..] == b;
    assert StripCr(a + "\r") == a;
  }

  /** A line ended by a bare '\n' is split off too, with a trailing '\r' removed. */
  lemma {:induction false} LinesLf(a: string, b: string)
    requires '\n' !in a
    ensures Lines(a + "\n" + b) == [StripCr(a)] + Lines(b)
  {
    var s := a + "\n" + b;
    assert s[|a|] == '\n' && s[..|a|] == a;
    assert Find(s, '\n') == Some(|a|);
    assert s[|a| + 1..] == b;
  }

  /** A last line without a line ending is kept whole, a '\r' included. */
  lemma {:induction false} LinesLast(a: string)
    requires '\n' !in a && a != []
    ensures Lines(a) == [a]
  {
  }

  // ---------------------------------------------------------------- integers

  const U32Max: nat := 0xFFFF_FFFF
  const UsizeMax: nat := 0xFFFF_FFFF_FFFF_FFFF

  /** The kinds of `ParseIntError` an unsigned parse can report. */
  datatype IntErrorKind = Empty | InvalidDigit | PosOverflow

  /** The text `ParseIntError` displays for each kind. */
  function IntErrorMessage(k: IntErrorKind): string {
    match k
    case Empty => "cannot parse integer from empty string"
    case InvalidDigit => "invalid digit found in string"
    case PosOverflow => "number too large to fit in target type"
  }

  predicate IsDigit(c: char) {
    '0' <= c <= '9'
  }

  function DigitValue(c: char): nat
    requires IsDigit(c)
  {
    c as int - '0' as int
  }

  predicate AllDigits(s: string) {
    forall k :: 0 <= k < |s| ==> IsDigit(s[k])
  }

  /** The number the decimal digits `ds` denote when read after `acc`. */
  function DigitsValue(ds: string, acc: nat): nat
    requires AllDigits(ds)
    decreases |ds|
  {
    if ds == [] then acc else DigitsValue(ds[1..], acc * 10 + DigitValue(ds[0]))
  }

  /** Left-to-right accumulation of `from_str_radix`: each character is first
      checked to be a digit, then the running value checked against `max`. */
  function Accumulate(ds: string, acc: nat, max: nat): Result<nat, IntErrorKind>
    decreases |ds|
  {
    if ds == [] then Ok(acc)
    else if !IsDigit(ds[0]) then Err(InvalidDigit)
    else
      var v := acc * 10 + DigitValue(ds[0]);
      if v > max then Err(PosOverflow) else Accumulate(ds[1..], v, max)
  }

  /** `str::parse` for an unsigned type whose largest value is `max`: an
      optional '+' and then at least one decimal digit, nothing else. */
  function ParseUnsigned(s: string, max: nat): (r: Result<nat, IntErrorKind>)
    ensures r.Ok? ==> r.value <= max
  {
    if s == [] then Err(Empty)
    else if (s[0] == '+' || s[0] == '-') && |s| == 1 then Err(InvalidDigit)
    else
      var digits := if s[0] == '+' then s[1..] else s;
      AccumulateBound(digits, 0, max);
      Accumulate(digits, 0, max)
  }

  lemma {:induction false} AccumulateBound(ds: string, acc: nat, max: nat)
    requires acc <= max
    ensures Accumulate(ds, acc, max).Ok? ==> Accumulate(ds, acc, max).value <= max
    decreases |ds|
  {
    if ds != [] && IsDigit(ds[0]) && acc * 10 + DigitValue(ds[0]) <= max {
      AccumulateBound(ds[1..], acc * 10 + DigitValue(ds[0]), max);
    }
  }

  lemma {:induction false} DigitsValueGrows(ds: string, acc: nat)
    requires AllDigits(ds)
    ensures DigitsValue(ds, acc) >= acc
    decreases |ds|
  {
    if ds != [] {
      DigitsValueGrows(ds[1..], acc * 10 + DigitValue(ds[0]));
    }
  }

  /** On a string of digits the parser yields their value, or overflow when it exceeds `max`. */
  lemma {:induction false} AccumulateDigits(ds: string, acc: nat, max: nat)
    requires AllDigits(ds) && acc <= max
    ensures Accumulate(ds, acc, max)
            == if DigitsValue(ds, acc) <= max then Ok(DigitsValue(ds, acc)) else Err(PosOverflow)
    decreases |ds|
  {
    if ds != [] {
      var v := acc * 10 + DigitValue(ds[0]);
      DigitsValueGrows(ds[1..], v);
      if v <= max {
        AccumulateDigits(ds[1..], v, max);
      }
    }
  }

  lemma {:induction false} DigitsValueAppend(ds: string, d: char, acc: nat)
    requires AllDigits(ds) && IsDigit(d)
    ensures AllDigits(ds + [d])
    ensures DigitsValue(ds + [d], acc) == DigitsValue(ds, acc) * 10 + DigitValue(d)
    decreases |ds|
  {
    if ds == [] {
      assert ds + [d] == [d];
    } else {
      assert (ds + [d])[1..] == ds[1..] + [d];
      DigitsValueAppend(ds[1..], d, acc * 10 + DigitValue(ds[0]));
    }
  }

  function DigitChar(d: nat): (c: char)
    requires d < 10
    ensures IsDigit(c) && DigitValue(c) == d
  {
    ('0' as int + d) as char
  }

  /** `Display` for an unsigned integer: its decimal digits, without leading zeros. */
  function FormatNat(n: nat): (r: string)
    ensures |r| >= 1 && AllDigits(r)
    ensures r[0] == '0' ==> n == 0
    decreases n
  {
    if n < 10 then [DigitChar(n)] else FormatNat(n / 10) + [DigitChar(n % 10)]
  }

  lemma {:induction false} FormatNatValue(n: nat)
    ensures DigitsValue(FormatNat(n), 0) == n
    decreases n
  {
    if n >= 10 {
      FormatNatValue(n / 10);
      DigitsValueAppend(FormatNat(n / 10), DigitChar(n % 10), 0);
    }
  }

  /** Parsing what `Display` printed gives back the number, or overflow when
      it does not fit. */
  lemma {:induction false} ParseFormatNat(n: nat, max: nat)
    ensures ParseUnsigned(FormatNat(n), max) == if n <= max then Ok(n) else Err(PosOverflow)
  {
    var s := FormatNat(n);
    FormatNatValue(n);
    AccumulateDigits(s, 0, max);
    assert s[0] != '+' && s[0] != '-';
  }

  /** Exactly three digits for the numbers 100 to 999, all ASCII. */
  lemma {:induction false} FormatThreeDigits(n: nat)
    requires 100 <= n <= 999
    ensures |FormatNat(n)| == 3 && IsAscii(FormatNat(n))
  {
    assert FormatNat(n) == FormatNat(n / 100) + [DigitChar((n / 10) % 10)] + [DigitChar(n % 10)];
  }

  // ---------------------------------------------------------------- byte slicing

  lemma {:induction false} PrefixByteLen(s: string, i: nat)
    requires 1 <= i <= |s|
    ensures ByteLen(s[..i]) == Width(s[0]) + ByteLen(s[1..][..i - 1])
  {
    assert s[..i][1..] == s[1..][..i - 1];
  }

  /** The character index at which byte offset `b` of `s` falls, when `b`
      is a character boundary of `s`. */
  function CharIndex(s: string, b: nat): (r: Option<nat>)
    ensures r.Some? ==> r.value <= |s| && ByteLen(s[..r.value]) == b
    ensures r.None? ==> forall i :: 0 <= i <= |s| ==> ByteLen(s[..i]) != b
    decreases |s|
  {
    if b == 0 then assert s[..0] == []; Some(0)
    else if s == [] then None
    else if b < Width(s[0]) then
      assert s[..0] == [] by {}
      assert forall i :: 1 <= i <= |s| ==> ByteLen(s[..i]) >= Width(s[0]) by {
        forall i | 1 <= i <= |s| { PrefixByteLen(s, i); }
      }
      None
    else match CharIndex(s[1..], b - Width(s[0]))
      case None =>
        assert s[..0] == [];
        assert forall i :: 1 <= i <= |s| ==> ByteLen(s[..i]) != b by {
          forall i | 1 <= i <= |s| { PrefixByteLen(s, i); }
        }
        None
      case Some(i) => PrefixByteLen(s, i + 1); Some(i + 1)
  }

  predicate IsCharBoundary(s: string, b: nat) {
    exists i :: 0 <= i <= |s| && ByteLen(s[..i]) == b
  }

  lemma {:induction false} ByteLenSplit(s: string, i: nat, j: nat)
    requires i <= j <= |s|
    ensures Encode(s) == Encode(s[..i]) + Encode(s[i..j]) + Encode(s[j..])
  {
    assert s == s[..i] + s[i..j] + s[j..];
    EncodeAppend(s[..i] + s[i..j], s[j..]);
    EncodeAppend(s[..i], s[i..j]);
  }

  lemma {:induction false} ByteLenAtLeastLength(t: string)
    ensures ByteLen(t) >= |t|
    decreases |t|
  {
    if t != [] {
      ByteLenAtLeastLength(t[1..]);
    }
  }

  /** Byte offsets grow strictly with character indices. */
  lemma {:induction false} ByteLenMonotone(s: string, i: nat, j: nat)
    requires i < j <= |s|
    ensures ByteLen(s[..i]) < ByteLen(s[..j])
  {
    ByteLenSplit(s[..j], i, j);
    assert s[..j][..i] == s[..i] && s[..j][..j] == s[..j];
    ByteLenAtLeastLength(s[..j][i..j]);
  }

  lemma {:induction false} SliceBytes(s: string, a: nat, b: nat, i: nat, j: nat)
    requires a <= b && i <= |s| && j <= |s|
    requires ByteLen(s[..i]) == a && ByteLen(s[..j]) == b
    ensures i <= j && b <= ByteLen(s)
    ensures Encode(s[i..j]) == Encode(s)[a..b]
  {
    if j < i {
      ByteLenMonotone(s, j, i);
      assert false;
    }
    ByteLenSplit(s, i, j);
    var p, m, q := Encode(s[..i]), Encode(s[i..j]), Encode(s[j..]);
    assert s[..j] == s[..i] + s[i..j];
    EncodeAppend(s[..i], s[i..j]);
    assert |p| == a && |p| + |m| == b;
    assert Encode(s) == p + m + q;
    assert (p + m + q)[a..b] == m;
  }

  /** `&s[a..b]` with byte offsets: the characters whose UTF-8 bytes are
      bytes a to b of `s`, or None where Rust panics (an offset past the end,
      a > b, or an offset inside a character). */
  function Slice(s: string, a: nat, b: nat): (r: Option<string>)
    ensures r.Some? <==> a <= b && IsCharBoundary(s, a) && IsCharBoundary(s, b)
    ensures r.Some? ==> b <= ByteLen(s) && Encode(r.value) == Encode(s)[a..b]
  {
    if a > b then None
    else match (CharIndex(s, a), CharIndex(s, b))
      case (Some(i), Some(j)) =>
        SliceBytes(s, a, b, i, j);
        Some(s[i..j])
      case _ => None
  }

  lemma {:induction false} AsciiCharIndex(s: string, k: nat, a: nat)
    requires k <= |s| && IsAscii(s[..k]) && a <= k
    ensures CharIndex(s, a) == Some(a)
    decreases |s|
  {
    if a > 0 {
      assert s[0] == s[..k][0];
      assert s[1..][..k - 1] == s[..k][1..];
      AsciiCharIndex(s[1..], k - 1, a - 1);
    }
  }

  lemma {:induction false} EndCharIndex(s: string)
    ensures CharIndex(s, ByteLen(s)) == Some(|s|)
    decreases |s|
  {
    if s != [] {
      assert Encode(s) == EncodeChar(s[0]) + Encode(s[1..]);
      EndCharIndex(s[1..]);
    }
  }

  /** Slicing inside an ASCII prefix works on character indices. */
  lemma {:induction false} AsciiSlice(s: string, k: nat, a: nat, b: nat)
    requires k <= |s| && IsAscii(s[..k]) && a <= b <= k
    ensures Slice(s, a, b) == Some(s[a..b])
  {
    AsciiCharIndex(s, k, a);
    AsciiCharIndex(s, k, b);
  }

  /** Slicing from the end of an ASCII prefix to the end of the string. */
  lemma {:induction false} AsciiSliceToEnd(s: string, k: nat, a: nat)
    requires k <= |s| && IsAscii(s[..k]) && a <= k
    ensures ByteLen(s) >= a
    ensures Slice(s, a, ByteLen(s)) == Some(s[a..])
  {
    AsciiCharIndex(s, k, a);
    EndCharIndex(s);
    ByteLenAtLeastLength(s);
    assert s[a..|s|] == s[a..];
  }
}
