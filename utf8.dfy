/**
  UTF-8 as the Rust standard library handles it: `str::as_bytes` (Encode),
  `String::from_utf8` (Decode, which refuses ill-formed input) and
  `String::from_utf8_lossy` (DecodeLossy, which puts U+FFFD in place of each
  maximal ill-formed subsequence). A Dafny `char` is a Unicode scalar value.
*/
module Utf8 {
  import opened Base

  type byte = x: int | 0 <= x < 0x100

  const Replacement: char := '\U{FFFD}'

  predicate IsContinuation(b: byte) {
    0x80 <= b <= 0xBF
  }

  /** Number of bytes UTF-8 uses for `c`. */
  function Width(c: char): (n: nat)
    ensures 1 <= n <= 4
  {
    var v := c as int;
    if v < 0x80 then 1 else if v < 0x800 then 2 else if v < 0x10000 then 3 else 4
  }

  function EncodeChar(c: char): (b: seq<byte>)
    ensures |b| == Width(c)
    ensures (c as int < 0x80) == (b[0] < 0x80)
    ensures forall k :: 1 <= k < |b| ==> IsContinuation(b[k])
  {
    var v := c as int;
    if v < 0x80 then [v]
    else if v < 0x800 then [0xC0 + v / 64, 0x80 + v % 64]
    else if v < 0x10000 then [0xE0 + v / 64 / 64, 0x80 + v / 64 % 64, 0x80 + v % 64]
    else [0xF0 + v / 64 / 64 / 64, 0x80 + v / 64 / 64 % 64, 0x80 + v / 64 % 64, 0x80 + v % 64]
  }

  /** `str::as_bytes`. */
  function Encode(s: string): seq<byte>
  {
    if s == [] then [] else EncodeChar(s[0]) + Encode(s[1..])
  }

  function ByteLen(s: string): nat {
    |Encode(s)|
  }

  predicate IsAscii(s: string) {
    forall i :: 0 <= i < |s| ==> s[i] as int < 0x80
  }

  /** One step of the decoder: the character that starts `b`, how many bytes
      it takes, and whether those bytes are well formed. An ill-formed step
      covers the longest prefix of a well-formed sequence (at least one byte)
      and stands for U+FFFD. */
  datatype Chunk = Chunk(c: char, len: nat, valid: bool)

  function Invalid(n: nat): Chunk {
    Chunk(Replacement, n, false)
  }

  function Step(b: seq<byte>): (r: Chunk)
    requires |b| > 0
    ensures 1 <= r.len <= |b|
  {
    var b0 := b[0] as int;
    if b0 < 0x80 then Chunk(b0 as char, 1, true)
    else if 0xC2 <= b0 <= 0xDF then
      if |b| < 2 || !IsContinuation(b[1]) then Invalid(1)
      else Chunk(((b0 - 0xC0) * 64 + (b[1] as int - 0x80)) as char, 2, true)
    else if 0xE0 <= b0 <= 0xEF then
      var lo := if b0 == 0xE0 then 0xA0 else 0x80;
      var hi := if b0 == 0xED then 0x9F else 0xBF;
      if |b| < 2 || !(lo <= b[1] <= hi) then Invalid(1)
      else if |b| < 3 || !IsContinuation(b[2]) then Invalid(2)
      else Chunk(((b0 - 0xE0) * 4096 + (b[1] as int - 0x80) * 64 + (b[2] as int - 0x80)) as char, 3, true)
    else if 0xF0 <= b0 <= 0xF4 then
      var lo := if b0 == 0xF0 then 0x90 else 0x80;
      var hi := if b0 == 0xF4 then 0x8F else 0xBF;
      if |b| < 2 || !(lo <= b[1] <= hi) then Invalid(1)
      else if |b| < 3 || !IsContinuation(b[2]) then Invalid(2)
      else if |b| < 4 || !IsContinuation(b[3]) then Invalid(3)
      else Chunk(((b0 - 0xF0) * 262144 + (b[1] as int - 0x80) * 4096 + (b[2] as int - 0x80) * 64 + (b[3] as int - 0x80)) as char, 4, true)
    else Invalid(1)
  }

  /** `String::from_utf8_lossy`. */
  function DecodeLossy(b: seq<byte>): string
    decreases |b|
  {
    if b == [] then [] else var ch := Step(b); [ch.c] + DecodeLossy(b[ch.len..])
  }

  /** `String::from_utf8`: None when the bytes are not well-formed UTF-8. */
  function Decode(b: seq<byte>): Option<string>
    decreases |b|
  {
    if b == [] then Some([])
    else
      var ch := Step(b);
      if !ch.valid then None
      else match Decode(b[ch.len..])
        case None => None
        case Some(s) => Some([ch.c] + s)
  }

  lemma {:induction false} EncodeAppend(s: string, t: string)
    ensures Encode(s + t) == Encode(s) + Encode(t)
  {
    if s != [] {
      assert (s + t)[1..] == s[1..] + t;
      EncodeAppend(s[1..], t);
    } else {
      assert s + t == t;
    }
  }

  lemma {:induction false} EncodeAscii(s: string)
    requires IsAscii(s)
    ensures |Encode(s)| == |s|
    ensures forall i :: 0 <= i < |s| ==> Encode(s)[i] == s[i] as int
  {
    if s != [] {
      EncodeAscii(s[1..]);
    }
  }

  /** The byte 10 (LF) occurs in the encoding only where the text has a '\n'. */
  lemma {:induction false} EncodeNoNewline(s: string)
    requires '\n' !in s
    ensures forall k :: 0 <= k < |Encode(s)| ==> Encode(s)[k] != 10
  {
    if s != [] {
      EncodeNoNewline(s[1..]);
      var e := EncodeChar(s[0]);
      assert s[0] != '\n';
      forall k | 0 <= k < |Encode(s)|
        ensures Encode(s)[k] != 10
      {
        if k >= |e| {
          assert Encode(s)[k] == Encode(s[1..])[k - |e|];
        } else {
          assert Encode(s)[k] == e[k];
        }
      }
    }
  }

  lemma {:induction false} StepTwo(c: char, rest: seq<byte>)
    requires 0x80 <= c as int < 0x800
    ensures Step(EncodeChar(c) + rest) == Chunk(c, 2, true)
  {
    var v := c as int;
    var b := EncodeChar(c) + rest;
    assert b[0] as int == 0xC0 + v / 64 && b[1] as int == 0x80 + v % 64;
  }

  lemma {:induction false} StepThree(c: char, rest: seq<byte>)
    requires 0x800 <= c as int < 0x10000
    ensures Step(EncodeChar(c) + rest) == Chunk(c, 3, true)
  {
    var v := c as int;
    var b := EncodeChar(c) + rest;
    var q1 := v / 64;
    var hi, mid, lo := q1 / 64, q1 % 64, v % 64;
    assert v == q1 * 64 + lo && q1 == hi * 64 + mid;
    assert b[0] as int == 0xE0 + hi && b[1] as int == 0x80 + mid && b[2] as int == 0x80 + lo;
    assert hi == 0 ==> mid >= 32;
    assert hi == 13 ==> mid < 32;
  }

  lemma {:induction false} StepFour(c: char, rest: seq<byte>)
    requires 0x10000 <= c as int
    ensures Step(EncodeChar(c) + rest) == Chunk(c, 4, true)
  {
    var v := c as int;
    var b := EncodeChar(c) + rest;
    var q1 := v / 64;
    var q2 := q1 / 64;
    var top, hi, mid, lo := q2 / 64, q2 % 64, q1 % 64, v % 64;
    assert v == q1 * 64 + lo && q1 == q2 * 64 + mid && q2 == top * 64 + hi;
    assert b[0] as int == 0xF0 + top && b[1] as int == 0x80 + hi;
    assert b[2] as int == 0x80 + mid && b[3] as int == 0x80 + lo;
    assert top == 0 ==> hi >= 16;
    assert top == 4 ==> hi < 16;
  }

  /** The decoder reads back exactly the character the encoder wrote. */
  lemma {:induction false} StepEncodeChar(c: char, rest: seq<byte>)
    ensures Step(EncodeChar(c) + rest) == Chunk(c, Width(c), true)
  {
    var v := c as int;
    if v < 0x80 {
    } else if v < 0x800 {
      StepTwo(c, rest);
    } else if v < 0x10000 {
      StepThree(c, rest);
    } else {
      StepFour(c, rest);
    }
  }

  /** Decoding what `as_bytes` produced gives back the string, both strictly and lossily. */
  lemma {:induction false} DecodeEncode(s: string)
    ensures Decode(Encode(s)) == Some(s)
    ensures DecodeLossy(Encode(s)) == s
  {
    if s != [] {
      var b := Encode(s);
      StepEncodeChar(s[0], Encode(s[1..]));
      assert b[Width(s[0])..] == Encode(s[1..]);
      DecodeEncode(s[1..]);
      assert [s[0]] + s[1..] == s;
    }
  }

  lemma {:induction false} DivMod64(q: int, r: int)
    requires 0 <= r < 64
    ensures (q * 64 + r) / 64 == q && (q * 64 + r) % 64 == r
  {
  }

  /** The three-byte encoding of a code point read back from its lead and continuation bits. */
  lemma {:induction false} EncodeThreeBytes(hi: int, mid: int, lo: int)
    requires 0 <= hi < 16 && 0 <= mid < 64 && 0 <= lo < 64
    requires 0x800 <= hi * 4096 + mid * 64 + lo
    requires !(0xD800 <= hi * 4096 + mid * 64 + lo < 0xE000)
    ensures EncodeChar((hi * 4096 + mid * 64 + lo) as char) == [0xE0 + hi, 0x80 + mid, 0x80 + lo]
  {
    var v := hi * 4096 + mid * 64 + lo;
    DivMod64(hi * 64 + mid, lo);
    DivMod64(hi, mid);
    assert v == (hi * 64 + mid) * 64 + lo;
  }

  /** The four-byte encoding of a code point read back from its lead and continuation bits. */
  lemma {:induction false} EncodeFourBytes(top: int, hi: int, mid: int, lo: int)
    requires 0 <= top < 5 && 0 <= hi < 64 && 0 <= mid < 64 && 0 <= lo < 64
    requires 0x10000 <= top * 262144 + hi * 4096 + mid * 64 + lo < 0x110000
    ensures EncodeChar((top * 262144 + hi * 4096 + mid * 64 + lo) as char)
            == [0xF0 + top, 0x80 + hi, 0x80 + mid, 0x80 + lo]
  {
    var v := top * 262144 + hi * 4096 + mid * 64 + lo;
    DivMod64((top * 64 + hi) * 64 + mid, lo);
    DivMod64(top * 64 + hi, mid);
    DivMod64(top, hi);
    assert v == ((top * 64 + hi) * 64 + mid) * 64 + lo;
  }

  /** A well-formed step covers exactly the encoding of the character it
      yields: the strict decoder accepts no overlong form and no surrogate. */
  lemma {:induction false} StepValidEncodes(b: seq<byte>)
    requires |b| > 0 && Step(b).valid
    ensures b[..Step(b).len] == EncodeChar(Step(b).c)
  {
    var b0 := b[0] as int;
    if b0 < 0x80 {
    } else if 0xC2 <= b0 <= 0xDF {
      DivMod64(b0 - 0xC0, b[1] as int - 0x80);
    } else if 0xE0 <= b0 <= 0xEF {
      EncodeThreeBytes(b0 - 0xE0, b[1] as int - 0x80, b[2] as int - 0x80);
      assert b[..3] == [b[0], b[1], b[2]];
    } else {
      EncodeFourBytes(b0 - 0xF0, b[1] as int - 0x80, b[2] as int - 0x80, b[3] as int - 0x80);
      assert b[..4] == [b[0], b[1], b[2], b[3]];
    }
  }

  /** What the strict decoder accepts is exactly the encoding of the text it
      returns, so `from_utf8` succeeds only on well-formed UTF-8. */
  lemma {:induction false} EncodeDecode(b: seq<byte>)
    requires Decode(b).Some?
    ensures Encode(Decode(b).value) == b
    decreases |b|
  {
    if b != [] {
      var ch := Step(b);
      var tail := b[ch.len..];
      var s := Decode(tail).value;
      var t := [ch.c] + s;
      assert Decode(b) == Some(t);
      EncodeDecode(tail);
      StepValidEncodes(b);
      assert t[0] == ch.c && t[1..] == s;
      assert Encode(t) == EncodeChar(ch.c) + Encode(s);
      assert b == b[..ch.len] + tail;
    }
  }

  /** `from_utf8` accepts the bytes with result `s` exactly when they are `s`'s encoding. */
  lemma {:induction false} DecodeIffEncoding(b: seq<byte>, s: string)
    ensures Decode(b) == Some(s) <==> Encode(s) == b
  {
    if Decode(b) == Some(s) {
      EncodeDecode(b);
    }
    if Encode(s) == b {
      DecodeEncode(s);
    }
  }

  /** When the strict decoder accepts, the lossy decoder gives the same text. */
  lemma {:induction false} DecodeAgreesWithLossy(b: seq<byte>)
    requires Decode(b).Some?
    ensures DecodeLossy(b) == Decode(b).value
  {
    if b != [] {
      DecodeAgreesWithLossy(b[Step(b).len..]);
    }
  }
}
