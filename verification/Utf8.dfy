/** UTF-8 as defined in section 3 of RFC 3629: strings are sequences of code points. */
module Utf8 {
  import opened Wrappers

  type Byte = x: int | 0 <= x < 256

  /** Unicode scalar values: code points that are not surrogates. */
  predicate IsScalar(c: nat) {
    c < 0xD800 || 0xE000 <= c < 0x110000
  }

  predicate AllScalars(s: seq<nat>) {
    forall i :: 0 <= i < |s| ==> IsScalar(s[i])
  }

  function Tail(c: nat): Byte {
    0x80 + c % 0x40
  }

  function EncodeScalar(c: nat): (r: seq<Byte>)
    requires IsScalar(c)
    ensures r != []
  {
    if c < 0x80 then [c]
    else if c < 0x800 then [0xC0 + c / 0x40, Tail(c)]
    else if c < 0x10000 then [0xE0 + c / 0x1000, Tail(c / 0x40), Tail(c)]
    else [0xF0 + c / 0x40000, Tail(c / 0x1000), Tail(c / 0x40), Tail(c)]
  }

  /** str.encode: fails on surrogates. */
  function EncodeText(s: seq<nat>): Option<seq<Byte>> {
    if s == [] then Some([])
    else if !IsScalar(s[0]) then None
    else
      match EncodeText(s[1..])
      case None => None
      case Some(later) => Some(EncodeScalar(s[0]) + later)
  }

  predicate IsTail(b: Byte) {
    0x80 <= b < 0xC0
  }

  /** The payloads of a two-, three- and four-byte form put together. */
  function Join2(a: int, b: int): int { (a - 0xC0) * 0x40 + (b - 0x80) }
  function Join3(a: int, b: int, c: int): int { (a - 0xE0) * 0x1000 + (b - 0x80) * 0x40 + (c - 0x80) }
  function Join4(a: int, b: int, c: int, d: int): int {
    (a - 0xF0) * 0x40000 + (b - 0x80) * 0x1000 + (c - 0x80) * 0x40 + (d - 0x80)
  }

  predicate Two(b: seq<Byte>) {
    |b| >= 2 && 0xC2 <= b[0] < 0xE0 && IsTail(b[1])
  }

  predicate Three(b: seq<Byte>) {
    && |b| >= 3 && 0xE0 <= b[0] < 0xF0 && IsTail(b[1]) && IsTail(b[2])
    && (b[0] == 0xE0 ==> b[1] >= 0xA0) && (b[0] == 0xED ==> b[1] < 0xA0)
  }

  predicate Four(b: seq<Byte>) {
    && |b| >= 4 && 0xF0 <= b[0] < 0xF5 && IsTail(b[1]) && IsTail(b[2]) && IsTail(b[3])
    && (b[0] == 0xF0 ==> b[1] >= 0x90) && (b[0] == 0xF4 ==> b[1] < 0x90)
  }

  /** The first code point and its length; overlong forms, surrogates and values over 0x10FFFF fail. */
  function DecodeFirst(b: seq<Byte>): (r: Option<(nat, nat)>)
    requires b != []
    ensures r.Some? ==> 0 < r.value.1 <= |b|
  {
    if b[0] < 0x80 then Some((b[0], 1))
    else if Two(b) then Some((Join2(b[0], b[1]), 2))
    else if Three(b) then Some((Join3(b[0], b[1], b[2]), 3))
    else if Four(b) then Some((Join4(b[0], b[1], b[2], b[3]), 4))
    else None
  }

  /** bytes.decode, strict. */
  function DecodeText(b: seq<Byte>): Option<seq<nat>> {
    if b == [] then Some([])
    else
      match DecodeFirst(b)
      case None => None
      case Some((c, n)) =>
        match DecodeText(b[n..])
        case None => None
        case Some(later) => Some([c] + later)
  }

  lemma Split2(c: int)
    ensures c == c / 0x40 * 0x40 + c % 0x40
    ensures c / 0x40 == c / 0x1000 * 0x40 + (c / 0x40) % 0x40
    ensures c / 0x1000 == c / 0x40000 * 0x40 + (c / 0x1000) % 0x40
  {}

  lemma FirstOfEncoded(c: nat, later: seq<Byte>)
    requires IsScalar(c)
    ensures DecodeFirst(EncodeScalar(c) + later) == Some((c, |EncodeScalar(c)|))
  {
    var b := EncodeScalar(c) + later;
    Split2(c);
    if c < 0x80 {
    } else if c < 0x800 {
      assert b[..2] == [0xC0 + c / 0x40, Tail(c)];
      assert Two(b) && Join2(b[0], b[1]) == c;
    } else if c < 0x10000 {
      assert b[..3] == [0xE0 + c / 0x1000, Tail(c / 0x40), Tail(c)];
      assert Three(b) && Join3(b[0], b[1], b[2]) == c;
    } else {
      assert b[..4] == [0xF0 + c / 0x40000, Tail(c / 0x1000), Tail(c / 0x40), Tail(c)];
      assert Four(b) && Join4(b[0], b[1], b[2], b[3]) == c;
    }
  }

  /** Quotients and remainders by 64 of a number written in base 64. */
  lemma Digits(high: int, low: int)
    requires 0 <= low < 0x40
    ensures (high * 0x40 + low) / 0x40 == high && (high * 0x40 + low) % 0x40 == low
  {}

  lemma Digits3(a: int, b: int, c: int)
    requires 0 <= b < 0x40 && 0 <= c < 0x40
    ensures var x := a * 0x1000 + b * 0x40 + c; x / 0x1000 == a && (x / 0x40) % 0x40 == b && x % 0x40 == c
  {
    Digits(a * 0x40 + b, c);
    Digits(a, b);
    assert a * 0x1000 + b * 0x40 + c == (a * 0x40 + b) * 0x40 + c;
  }

  lemma Digits4(a: int, b: int, c: int, d: int)
    requires 0 <= b < 0x40 && 0 <= c < 0x40 && 0 <= d < 0x40
    ensures var x := a * 0x40000 + b * 0x1000 + c * 0x40 + d;
      x / 0x40000 == a && (x / 0x1000) % 0x40 == b && (x / 0x40) % 0x40 == c && x % 0x40 == d
  {
    Digits3(a * 0x40 + b, c, d);
    Digits(a, b);
    assert a * 0x40000 + b * 0x1000 + c * 0x40 + d == (a * 0x40 + b) * 0x1000 + c * 0x40 + d;
  }

  lemma JoinTwo(a: Byte, b: Byte)
    requires 0xC2 <= a < 0xE0 && IsTail(b)
    ensures IsScalar(Join2(a, b)) && EncodeScalar(Join2(a, b)) == [a, b]
  {
    Digits(a - 0xC0, b - 0x80);
  }

  lemma JoinThree(a: Byte, b: Byte, c: Byte)
    requires 0xE0 <= a < 0xF0 && IsTail(b) && IsTail(c) && (a == 0xE0 ==> b >= 0xA0) && (a == 0xED ==> b < 0xA0)
    ensures IsScalar(Join3(a, b, c)) && EncodeScalar(Join3(a, b, c)) == [a, b, c]
  {
    Digits3(a - 0xE0, b - 0x80, c - 0x80);
  }

  lemma JoinFour(a: Byte, b: Byte, c: Byte, d: Byte)
    requires 0xF0 <= a < 0xF5 && IsTail(b) && IsTail(c) && IsTail(d)
    requires (a == 0xF0 ==> b >= 0x90) && (a == 0xF4 ==> b < 0x90)
    ensures IsScalar(Join4(a, b, c, d)) && EncodeScalar(Join4(a, b, c, d)) == [a, b, c, d]
  {
    Digits4(a - 0xF0, b - 0x80, c - 0x80, d - 0x80);
  }

  lemma EncodedFirst(b: seq<Byte>)
    requires b != [] && DecodeFirst(b).Some?
    ensures var (c, n) := DecodeFirst(b).value; IsScalar(c) && EncodeScalar(c) == b[..n]
  {
    if b[0] < 0x80 {
    } else if Two(b) {
      hide EncodeScalar, IsScalar, Join2;
      JoinTwo(b[0], b[1]);
      assert b[..2] == [b[0], b[1]];
    } else if Three(b) {
      hide EncodeScalar, IsScalar, Join3;
      JoinThree(b[0], b[1], b[2]);
      assert b[..3] == [b[0], b[1], b[2]];
    } else {
      hide EncodeScalar, IsScalar, Join4;
      JoinFour(b[0], b[1], b[2], b[3]);
      assert b[..4] == [b[0], b[1], b[2], b[3]];
    }
  }

  /** The table of section 3 of RFC 3629: how many bytes a code point takes, where their leading bits lie, and that
      the remaining bits, put together, are the code point. */
  lemma ScalarBytes(c: nat)
    requires IsScalar(c)
    ensures var b := EncodeScalar(c);
      if c <= 0x7F then b == [c]
      else if c <= 0x7FF then
        && |b| == 2
        && var x: int, y: int := b[0] - 0xC0, b[1] - 0x80;
        0 <= x < 0x20 && 0 <= y < 0x40 && c == x * 0x40 + y
      else if c <= 0xFFFF then
        && |b| == 3
        && var x: int, y: int, z: int := b[0] - 0xE0, b[1] - 0x80, b[2] - 0x80;
        0 <= x < 0x10 && 0 <= y < 0x40 && 0 <= z < 0x40 && c == x * 0x1000 + y * 0x40 + z
      else
        && |b| == 4
        && var w: int, x: int, y: int, z: int := b[0] - 0xF0, b[1] - 0x80, b[2] - 0x80, b[3] - 0x80;
        0 <= w < 8 && 0 <= x < 0x40 && 0 <= y < 0x40 && 0 <= z < 0x40 && c == w * 0x40000 + x * 0x1000 + y * 0x40 + z
  {
    Split2(c);
  }

  /** Two of the examples in section 7 of RFC 3629. */
  lemma Rfc3629Examples()
    ensures EncodeText([0x41, 0x2262, 0x391, 0x2E]) == Some([0x41, 0xE2, 0x89, 0xA2, 0xCE, 0x91, 0x2E])
    ensures EncodeText([0xFEFF, 0x233B4]) == Some([0xEF, 0xBB, 0xBF, 0xF0, 0xA3, 0x8E, 0xB4])
  {
    assert EncodeScalar(0x41) == [0x41] && EncodeScalar(0x2E) == [0x2E] && EncodeScalar(0x391) == [0xCE, 0x91];
    assert EncodeScalar(0x2262) == [0xE2, 0x89, 0xA2] && EncodeScalar(0xFEFF) == [0xEF, 0xBB, 0xBF];
    assert EncodeScalar(0x233B4) == [0xF0, 0xA3, 0x8E, 0xB4];
    hide EncodeScalar;
    EncodesNext(0x2E, [], [0x2E], [], [0x2E]);
    EncodesNext(0x391, [0x2E], [0x391, 0x2E], [0x2E], [0xCE, 0x91, 0x2E]);
    EncodesNext(0x2262, [0x391, 0x2E], [0x2262, 0x391, 0x2E], [0xCE, 0x91, 0x2E], [0xE2, 0x89, 0xA2, 0xCE, 0x91, 0x2E]);
    EncodesNext(0x41, [0x2262, 0x391, 0x2E], [0x41, 0x2262, 0x391, 0x2E], [0xE2, 0x89, 0xA2, 0xCE, 0x91, 0x2E],
      [0x41, 0xE2, 0x89, 0xA2, 0xCE, 0x91, 0x2E]);
    EncodesNext(0x233B4, [], [0x233B4], [], [0xF0, 0xA3, 0x8E, 0xB4]);
    EncodesNext(0xFEFF, [0x233B4], [0xFEFF, 0x233B4], [0xF0, 0xA3, 0x8E, 0xB4],
                [0xEF, 0xBB, 0xBF, 0xF0, 0xA3, 0x8E, 0xB4]);
  }

  lemma EncodesNext(c: nat, later: seq<nat>, all: seq<nat>, b: seq<Byte>, r: seq<Byte>)
    requires IsScalar(c) && all == [c] + later && EncodeText(later) == Some(b) && r == EncodeScalar(c) + b
    ensures EncodeText(all) == Some(r)
  {
    assert all[1..] == later;
  }

  /** Decoding undoes encoding. */
  lemma {:induction false} DecodeEncoded(s: seq<nat>)
    ensures EncodeText(s).Some? <==> AllScalars(s)
    ensures AllScalars(s) ==> DecodeText(EncodeText(s).value) == Some(s)
    decreases |s|
  {
    if s != [] {
      DecodeEncoded(s[1..]);
      if AllScalars(s) {
        var first, later := EncodeScalar(s[0]), EncodeText(s[1..]).value;
        FirstOfEncoded(s[0], later);
        assert (first + later)[|first|..] == later;
        assert s == [s[0]] + s[1..];
      } else if IsScalar(s[0]) {
        assert !AllScalars(s[1..]);
      }
    }
  }

  /** Encoding undoes decoding: every accepted byte string is the one encoding of its text. */
  lemma {:induction false} EncodeDecoded(b: seq<Byte>)
    requires DecodeText(b).Some?
    ensures EncodeText(DecodeText(b).value) == Some(b)
    decreases |b|
  {
    hide EncodeScalar, DecodeFirst, IsScalar;
    if b != [] {
      var (c, n) := DecodeFirst(b).value;
      EncodedFirst(b);
      EncodeDecoded(b[n..]);
      var s := DecodeText(b).value;
      assert s[1..] == DecodeText(b[n..]).value;
      assert b == b[..n] + b[n..];
    }
  }
}
