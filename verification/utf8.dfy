/** UTF-8 as Rust's `String::from_utf8` and `BufRead::read_line` accept it:
    the well-formed byte sequences of Table 3-7 of the Unicode Standard
    (no overlong forms, no surrogates, nothing above U+10FFFF).  `Decode` is
    the validating decoder, `Encode` its inverse; the two round trips below
    make each the partner of the other. */
module Utf8 {
  import opened Results
  import opened Text

  newtype byte = x: int | 0 <= x < 0x100

  /** A byte that can only continue a multi-byte sequence. */
  predicate IsContinuation(b: byte) {
    0x80 <= b <= 0xBF
  }

  /** How many bytes the sequence led by `lead` occupies, or 0 when `lead`
      starts no well-formed sequence (0x80..0xC1 and 0xF5..0xFF). */
  function SequenceLength(lead: byte): (n: nat)
    ensures n <= 4
    ensures n == 1 <==> lead < 0x80
    ensures n == 0 <==> IsContinuation(lead) || lead == 0xC0 || lead == 0xC1 || lead > 0xF4
  {
    if lead < 0x80 then 1
    else if 0xC2 <= lead <= 0xDF then 2
    else if 0xE0 <= lead <= 0xEF then 3
    else if 0xF0 <= lead <= 0xF4 then 4
    else 0
  }

  /** The second byte of a multi-byte sequence; four leads narrow its range
      to exclude overlong forms, surrogates and values above U+10FFFF. */
  predicate SecondByteOk(lead: byte, b: byte) {
    if lead == 0xE0 then 0xA0 <= b <= 0xBF
    else if lead == 0xED then 0x80 <= b <= 0x9F
    else if lead == 0xF0 then 0x90 <= b <= 0xBF
    else if lead == 0xF4 then 0x80 <= b <= 0x8F
    else IsContinuation(b)
  }

  /** The low six payload bits of a continuation byte. */
  function Low6(b: byte): (v: int)
    requires IsContinuation(b)
    ensures 0 <= v < 64
  {
    b as int - 0x80
  }

  /** Decodes the scalar value at the front of `b` and says how many bytes it
      took; `None` when `b` does not start with a well-formed sequence. */
  function DecodeFirst(b: seq<byte>): (r: Option<(char, nat)>)
    requires |b| > 0
    ensures r.Some? ==> r.value.1 == SequenceLength(b[0]) && 1 <= r.value.1 <= |b|
  {
    var n := SequenceLength(b[0]);
    if n == 0 || |b| < n then None
    else if n == 1 then Some((b[0] as int as char, 1))
    else if !SecondByteOk(b[0], b[1]) then None
    else if n == 2 then
      Some((((b[0] as int - 0xC0) * 64 + Low6(b[1])) as char, 2))
    else if !IsContinuation(b[2]) then None
    else if n == 3 then
      Some((((b[0] as int - 0xE0) * 4096 + Low6(b[1]) * 64 + Low6(b[2])) as char, 3))
    else if !IsContinuation(b[3]) then None
    else
      Some((((b[0] as int - 0xF0) * 0x40000 + Low6(b[1]) * 4096 + Low6(b[2]) * 64 + Low6(b[3])) as char, 4))
  }

  /** `String::from_utf8`: the decoded text, or `None` when `b` is not UTF-8. */
  function Decode(b: seq<byte>): Option<string>
    decreases |b|
  {
    if |b| == 0 then Some([])
    else
      match DecodeFirst(b)
      case None => None
      case Some((c, n)) =>
        match Decode(b[n..])
        case None => None
        case Some(rest) => Some([c] + rest)
  }

  predicate IsValid(b: seq<byte>) {
    Decode(b).Some?
  }

  /** The UTF-8 form of one scalar value. */
  function EncodeChar(c: char): (r: seq<byte>)
    ensures 1 <= |r| <= 4 && |r| == SequenceLength(r[0])
    ensures |r| == 1 <==> c as int < 0x80
    ensures |r| == 1 ==> r[0] as int == c as int
    ensures forall k :: 1 <= k < |r| ==> IsContinuation(r[k])
  {
    var cp := c as int;
    if cp < 0x80 then [cp as byte]
    else if cp < 0x800 then
      [(0xC0 + cp / 64) as byte, (0x80 + cp % 64) as byte]
    else if cp < 0x10000 then
      [(0xE0 + cp / 64 / 64) as byte, (0x80 + cp / 64 % 64) as byte, (0x80 + cp % 64) as byte]
    else
      [(0xF0 + cp / 64 / 64 / 64) as byte, (0x80 + cp / 64 / 64 % 64) as byte,
       (0x80 + cp / 64 % 64) as byte, (0x80 + cp % 64) as byte]
  }

  /** The UTF-8 form of a string (what a Rust `&str` holds). */
  function Encode(s: string): seq<byte>
  {
    if s == [] then [] else EncodeChar(s[0]) + Encode(s[1..])
  }

  // ---------------------------------------------------------------------
  // Encoding one scalar value, and decoding it again

  lemma DecodeFirstEncodeChar(c: char, rest: seq<byte>)
    ensures DecodeFirst(EncodeChar(c) + rest) == Some((c, |EncodeChar(c)|))
  {
    var e := EncodeChar(c);
    var b := e + rest;
    var cp := c as int;
    assert b[..|e|] == e;
    if cp < 0x80 {
    } else if cp < 0x800 {
      assert (b[0] as int - 0xC0) * 64 + Low6(b[1]) == cp;
    } else if cp < 0x10000 {
      var q := cp / 64;
      assert cp == q * 64 + cp % 64;
      assert q == q / 64 * 64 + q % 64;
      assert (b[0] as int - 0xE0) * 4096 + Low6(b[1]) * 64 + Low6(b[2]) == cp;
    } else {
      var q := cp / 64;
      var q2 := q / 64;
      assert cp == q * 64 + cp % 64;
      assert q == q2 * 64 + q % 64;
      assert q2 == q2 / 64 * 64 + q2 % 64;
      assert (b[0] as int - 0xF0) * 0x40000 + Low6(b[1]) * 4096 + Low6(b[2]) * 64 + Low6(b[3]) == cp;
    }
  }

  /** Whatever `DecodeFirst` accepts is exactly the encoding of the value it
      returns: UTF-8 has one form per scalar value. */
  lemma EncodeCharDecodeFirst(b: seq<byte>)
    requires |b| > 0 && DecodeFirst(b).Some?
    ensures EncodeChar(DecodeFirst(b).value.0) == b[..DecodeFirst(b).value.1]
  {
    var n := DecodeFirst(b).value.1;
    if n == 2 {
      Reencode2(b);
    } else if n == 3 {
      Reencode3(b);
    } else if n == 4 {
      Reencode4(b);
    }
  }

  lemma Reencode2(b: seq<byte>)
    requires |b| > 0 && DecodeFirst(b).Some? && DecodeFirst(b).value.1 == 2
    ensures EncodeChar(DecodeFirst(b).value.0) == b[..2]
  {
    var cp := DecodeFirst(b).value.0 as int;
    assert cp == (b[0] as int - 0xC0) * 64 + Low6(b[1]);
    assert cp / 64 == b[0] as int - 0xC0 && cp % 64 == Low6(b[1]);
  }

  lemma Reencode3(b: seq<byte>)
    requires |b| > 0 && DecodeFirst(b).Some? && DecodeFirst(b).value.1 == 3
    ensures EncodeChar(DecodeFirst(b).value.0) == b[..3]
  {
    var cp := DecodeFirst(b).value.0 as int;
    var hi := b[0] as int - 0xE0;
    assert cp == (hi * 64 + Low6(b[1])) * 64 + Low6(b[2]);
    assert cp / 64 == hi * 64 + Low6(b[1]) && cp % 64 == Low6(b[2]);
    assert cp / 64 / 64 == hi && cp / 64 % 64 == Low6(b[1]);
  }

  lemma Reencode4(b: seq<byte>)
    requires |b| > 0 && DecodeFirst(b).Some? && DecodeFirst(b).value.1 == 4
    ensures EncodeChar(DecodeFirst(b).value.0) == b[..4]
  {
    var cp := DecodeFirst(b).value.0 as int;
    var hi := b[0] as int - 0xF0;
    assert cp == ((hi * 64 + Low6(b[1])) * 64 + Low6(b[2])) * 64 + Low6(b[3]);
    assert cp / 64 == (hi * 64 + Low6(b[1])) * 64 + Low6(b[2]) && cp % 64 == Low6(b[3]);
    assert cp / 64 / 64 == hi * 64 + Low6(b[1]) && cp / 64 % 64 == Low6(b[2]);
    assert cp / 64 / 64 / 64 == hi && cp / 64 / 64 % 64 == Low6(b[1]);
  }

  // ---------------------------------------------------------------------
  // Whole strings

  lemma {:induction false} EncodeAppend(a: string, b: string)
    ensures Encode(a + b) == Encode(a) + Encode(b)
    decreases |a|
  {
    if a == [] {
      assert a + b == b;
    } else {
      assert (a + b)[1..] == a[1..] + b;
      EncodeAppend(a[1..], b);
    }
  }

  lemma {:induction false} EncodeEmpty(s: string)
    ensures Encode(s) == [] <==> s == []
  {
    if s != [] {
      assert |Encode(s)| >= |EncodeChar(s[0])| >= 1;
    }
  }

  /** Encoding then decoding gives the string back. */
  lemma {:induction false} DecodeEncode(s: string)
    ensures Decode(Encode(s)) == Some(s)
    decreases |s|
  {
    if s != [] {
      var e := EncodeChar(s[0]);
      var b := Encode(s);
      assert b == e + Encode(s[1..]);
      DecodeFirstEncodeChar(s[0], Encode(s[1..]));
      assert b[|e|..] == Encode(s[1..]);
      DecodeEncode(s[1..]);
      assert s == [s[0]] + s[1..];
    }
  }

  /** Decoding then encoding gives the bytes back: `Decode` accepts nothing
      but encodings. */
  lemma {:induction false} EncodeDecode(b: seq<byte>)
    requires IsValid(b)
    ensures Encode(Decode(b).value) == b
    decreases |b|
  {
    if |b| > 0 {
      var (c, n) := DecodeFirst(b).value;
      assert IsValid(b[n..]);
      var rest := Decode(b[n..]).value;
      var s := [c] + rest;
      assert Decode(b) == Some(s);
      assert s[0] == c && s[1..] == rest;
      EncodeDecode(b[n..]);
      EncodeCharDecodeFirst(b);
      assert Encode(s) == b[..n] + b[n..];
    }
  }

  /** `Decode` and `Encode` are inverse bijections between the valid byte
      sequences and the strings. */
  lemma DecodeIff(b: seq<byte>, s: string)
    ensures Decode(b) == Some(s) <==> Encode(s) == b
  {
    if Decode(b) == Some(s) {
      EncodeDecode(b);
    }
    if Encode(s) == b {
      DecodeEncode(s);
    }
  }

  /** An ASCII character occurs in a string exactly when its byte occurs in
      the string's encoding: bytes below 0x80 never appear inside a
      multi-byte sequence. */
  lemma {:induction false} AsciiInEncode(s: string, c: char)
    requires c as int < 0x80
    ensures c in s <==> (c as int as byte) in Encode(s)
    decreases |s|
  {
    if s != [] {
      var e := EncodeChar(s[0]);
      assert Encode(s) == e + Encode(s[1..]);
      AsciiInEncode(s[1..], c);
      assert s == [s[0]] + s[1..];
      assert (c as int as byte) in e <==> s[0] == c by {
        if |e| == 1 {
        } else {
          assert e[0] >= 0x80;
          assert forall k :: 0 <= k < |e| ==> e[k] >= 0x80;
        }
      }
    }
  }

  /** An encoding that ends in an ASCII byte ends with that character, and
      the bytes before it encode the characters before it. */
  lemma EncodeEndsWithAscii(s: string, c: char)
    requires c as int < 0x80
    requires |Encode(s)| > 0 && Encode(s)[|Encode(s)| - 1] == c as int as byte
    ensures s != [] && s[|s| - 1] == c
    ensures Encode(s[..|s| - 1]) == Encode(s)[..|Encode(s)| - 1]
  {
    EncodeEmpty(s);
    var body, last := s[..|s| - 1], s[|s| - 1];
    assert s == body + [last];
    EncodeAppend(body, [last]);
    var e := EncodeChar(last);
    assert Encode([last]) == e + Encode([]);
    assert Encode(s) == Encode(body) + e;
    assert e[|e| - 1] == c as int as byte;
  }

  // ---------------------------------------------------------------------
  // Self-synchronization: character boundaries can be found from the bytes

  /** The encoding of a string splits at every character index. */
  lemma EncodeSplit(s: string, i: nat)
    requires i <= |s|
    ensures Encode(s) == Encode(s[..i]) + Encode(s[i..])
  {
    assert s == s[..i] + s[i..];
    EncodeAppend(s[..i], s[i..]);
  }

  /** Every byte of an encoding that is not a continuation byte starts a
      character. */
  lemma {:induction false} LeadByteIsBoundary(s: string, p: nat)
    requires p < |Encode(s)| && !IsContinuation(Encode(s)[p])
    ensures exists i :: 0 <= i < |s| && |Encode(s[..i])| == p
    decreases |s|
  {
    EncodeEmpty(s);
    var e := EncodeChar(s[0]);
    assert Encode(s) == e + Encode(s[1..]);
    if p == 0 {
      assert Encode(s[..0]) == [];
    } else {
      LeadByteIsBoundary(s[1..], p - |e|);
      var i :| 0 <= i < |s| - 1 && |Encode(s[1..][..i])| == p - |e|;
      assert s[..i + 1] == [s[0]] + s[1..][..i];
      assert Encode(s[..i + 1]) == e + Encode(s[1..][..i]);
    }
  }

  /** Two characters whose encodings start the same byte sequence are the
      same character. */
  lemma EncodeCharInjective(a: char, b: char, ra: seq<byte>, rb: seq<byte>)
    requires EncodeChar(a) + ra == EncodeChar(b) + rb
    ensures a == b && ra == rb
  {
    DecodeFirstEncodeChar(a, ra);
    DecodeFirstEncodeChar(b, rb);
    var n := |EncodeChar(a)|;
    assert ra == (EncodeChar(a) + ra)[n..];
  }

  /** If the encoding of `t` begins the encoding of `u`, then `t` begins
      `u`. */
  lemma {:induction false} EncodePrefix(t: string, u: string)
    requires Encode(t) <= Encode(u)
    ensures t <= u
    decreases |t|
  {
    if t != [] {
      EncodeEmpty(t);
      EncodeEmpty(u);
      var x := Encode(u)[|Encode(t)|..];
      assert Encode(u) == Encode(t) + x;
      assert Encode(t) == EncodeChar(t[0]) + Encode(t[1..]);
      assert Encode(u) == EncodeChar(u[0]) + Encode(u[1..]);
      assert EncodeChar(t[0]) + (Encode(t[1..]) + x) == EncodeChar(u[0]) + Encode(u[1..]);
      EncodeCharInjective(t[0], u[0], Encode(t[1..]) + x, Encode(u[1..]));
      EncodePrefix(t[1..], u[1..]);
      assert t == [t[0]] + t[1..];
      assert u == [u[0]] + u[1..];
    }
  }

  /** One string occurs in another exactly when its encoding occurs in the
      other's encoding: substring search over the bytes of two `&str`s and
      over their characters agree. */
  lemma SubstringOfEncodings(t: string, s: string)
    ensures IsSubstring(t, s) <==> IsSubstring(Encode(t), Encode(s))
  {
    if IsSubstring(t, s) {
      var i :| OccursAt(t, s, i);
      EncodedOccurrence(t, s, i);
    }
    if IsSubstring(Encode(t), Encode(s)) {
      var p :| OccursAt(Encode(t), Encode(s), p);
      DecodedOccurrence(t, s, p);
    }
  }

  /** A character occurrence gives a byte occurrence. */
  lemma EncodedOccurrence(t: string, s: string, i: int)
    requires OccursAt(t, s, i)
    ensures OccursAt(Encode(t), Encode(s), |Encode(s[..i])|)
  {
    EncodeSplit(s, i);
    EncodeSplit(s[i..], |t|);
    assert s[i..][..|t|] == t;
  }

  /** A byte occurrence of a non-empty string starts at a character
      boundary and gives a character occurrence there. */
  lemma DecodedOccurrence(t: string, s: string, p: int)
    requires OccursAt(Encode(t), Encode(s), p)
    ensures IsSubstring(t, s)
  {
    if t == [] {
      assert OccursAt(t, s, 0);
    } else {
      EncodeEmpty(t);
      assert Encode(t) == EncodeChar(t[0]) + Encode(t[1..]);
      assert Encode(s)[p] == Encode(t)[0];
      LeadByteIsBoundary(s, p);
      var i :| 0 <= i < |s| && |Encode(s[..i])| == p;
      EncodeSplit(s, i);
      assert Encode(t) <= Encode(s[i..]);
      EncodePrefix(t, s[i..]);
      assert OccursAt(t, s, i);
    }
  }

  /** Only the byte 0x00 decodes to U+0000. */
  lemma DecodedNul(b: seq<byte>)
    requires IsValid(b)
    ensures '\0' in Decode(b).value <==> 0 in b
  {
    EncodeDecode(b);
    AsciiInEncode(Decode(b).value, '\0');
  }
}
