/** UTF-8 from the side of the characters, against the byte-level predicates of the codecs. */
module Utf8 {
  import opened Basics
  import opened Cbor
  import Dotenv

  /** A character in UTF-8, as section 3 of RFC 3629 defines it. */
  function CharBytes(c: char): Bytes {
    var n := c as int;
    if n < 0x80 then [n]
    else if n < 0x800 then [0xc0 + n / 64, 0x80 + n % 64]
    else if n < 0x1_0000 then [0xe0 + n / 4096, 0x80 + n / 64 % 64, 0x80 + n % 64]
    else [0xf0 + n / 262144, 0x80 + n / 4096 % 64, 0x80 + n / 64 % 64, 0x80 + n % 64]
  }

  function TextBytes(text: string): Bytes {
    if text == "" then [] else CharBytes(text[0]) + TextBytes(text[1..])
  }

  /** The size limit of the dotenv merge is one on these bytes. */
  lemma {:induction false} ByteLengthIs(text: string)
    ensures Dotenv.ByteLength(text) == |TextBytes(text)|
  {
    if text != "" {
      var n := |text| - 1;
      ByteLengthIs(text[..n]);
      TextBytesLast(text);
    }
  }

  lemma {:induction false} TextBytesLast(text: string)
    requires text != ""
    ensures TextBytes(text) == TextBytes(text[..|text| - 1]) + CharBytes(text[|text| - 1])
  {
    if |text| == 1 {
      assert text[1..] == "" && text[..0] == "";
    } else {
      TextBytesLast(text[1..]);
      assert text[1..][..|text| - 2] == text[..|text| - 1][1..];
    }
  }

  predicate IsTail(x: byte) {
    0x80 <= x <= 0xbf
  }

  /** The ranges of the bytes of one character. */
  lemma ByteRanges(c: char)
    ensures var b := CharBytes(c);
            match |b|
            case 1 => b[0] < 0x80
            case 2 => 0xc2 <= b[0] <= 0xdf && IsTail(b[1])
            case 3 => && 0xe0 <= b[0] <= 0xef && IsTail(b[1]) && IsTail(b[2])
                      && (b[0] == 0xe0 ==> b[1] >= 0xa0) && (b[0] == 0xed ==> b[1] <= 0x9f)
            case _ => && |b| == 4 && 0xf0 <= b[0] <= 0xf4 && IsTail(b[1]) && IsTail(b[2]) && IsTail(b[3])
                      && (b[0] == 0xf0 ==> b[1] >= 0x90) && (b[0] == 0xf4 ==> b[1] <= 0x8f)
  {
    var n := c as int;
    if 0x800 <= n < 0x1_0000 { Surrogates(n); }
  }

  /** One character in front changes nothing. */
  lemma CharIsUtf8(c: char, rest: Bytes)
    ensures IsUtf8(CharBytes(c) + rest) <==> IsUtf8(rest)
  {
    hide CharBytes;
    var b, w := CharBytes(c) + rest, |CharBytes(c)|;
    ByteRanges(c);
    assert forall i :: 0 <= i < w ==> b[i] == CharBytes(c)[i];
    assert b[w..] == rest;
  }

  lemma Surrogates(n: int)
    requires 0x800 <= n < 0xd800 || 0xe000 <= n < 0x1_0000
    ensures 0xe0 + n / 4096 == 0xed ==> 0x80 + n / 64 % 64 <= 0x9f
  {
  }

  /** Every text is well formed. */
  lemma {:induction false} TextsAreUtf8(text: string)
    ensures IsUtf8(TextBytes(text))
  {
    if text != "" {
      TextsAreUtf8(text[1..]);
      CharIsUtf8(text[0], TextBytes(text[1..]));
    }
  }

  /** Whatever is well formed is a text. */
  lemma {:induction false} Utf8IsText(b: Bytes) returns (text: string)
    requires IsUtf8(b)
    ensures TextBytes(text) == b
  {
    if b == [] {
      text := "";
    } else {
      var c, w := FirstChar(b);
      var rest := Utf8IsText(b[w..]);
      text := [c] + rest;
      assert text[1..] == rest;
      assert b == b[..w] + b[w..];
    }
  }

  lemma FirstChar(b: Bytes) returns (c: char, w: nat)
    requires IsUtf8(b) && b != []
    ensures 1 <= w <= |b| && CharBytes(c) == b[..w] && IsUtf8(b[w..])
  {
    if b[0] < 0x80 {
      w := 1;
      c := b[0] as char;
    } else if b[0] <= 0xdf {
      w := 2;
      c := TwoBytes(b[0], b[1]);
      assert b[..2] == [b[0], b[1]];
    } else if b[0] <= 0xef {
      w := 3;
      c := ThreeBytes(b[0], b[1], b[2]);
      assert b[..3] == [b[0], b[1], b[2]];
    } else {
      w := 4;
      c := FourBytes(b[0], b[1], b[2], b[3]);
      assert b[..4] == [b[0], b[1], b[2], b[3]];
    }
  }

  lemma TwoBytes(x: byte, y: byte) returns (c: char)
    requires 0xc2 <= x <= 0xdf && 0x80 <= y <= 0xbf
    ensures CharBytes(c) == [x, y]
  {
    var n: int := (x - 0xc0) * 64 + (y - 0x80);
    c := n as char;
  }

  lemma ThreeBytes(x: byte, y: byte, z: byte) returns (c: char)
    requires 0xe0 <= x <= 0xef && 0x80 <= y <= 0xbf && 0x80 <= z <= 0xbf
    requires (x == 0xe0 ==> y >= 0xa0) && (x == 0xed ==> y <= 0x9f)
    ensures CharBytes(c) == [x, y, z]
  {
    var a: int, d: int, e: int := x - 0xe0, y - 0x80, z - 0x80;
    var n: int := a * 4096 + d * 64 + e;
    c := n as char;
    FourDigits(0, a, d, e);
    assert n / 4096 < 64;
  }

  lemma FourBytes(x: byte, y: byte, z: byte, u: byte) returns (c: char)
    requires 0xf0 <= x <= 0xf4 && 0x80 <= y <= 0xbf && 0x80 <= z <= 0xbf && 0x80 <= u <= 0xbf
    requires (x == 0xf0 ==> y >= 0x90) && (x == 0xf4 ==> y <= 0x8f)
    ensures CharBytes(c) == [x, y, z, u]
  {
    var a: int, d: int, e: int, f: int := x - 0xf0, y - 0x80, z - 0x80, u - 0x80;
    var n: int := a * 262144 + d * 4096 + e * 64 + f;
    c := n as char;
    FourDigits(a, d, e, f);
  }

  lemma FourDigits(a: nat, d: nat, e: nat, f: nat)
    requires d < 64 && e < 64 && f < 64
    ensures var n := a * 262144 + d * 4096 + e * 64 + f;
            n / 262144 == a && n / 4096 % 64 == d && n / 64 % 64 == e && n % 64 == f
  {
    var n := a * 262144 + d * 4096 + e * 64 + f;
    DivModOfSum(64, a * 4096 + d * 64 + e, f);
    DivModOfSum(64, a * 64 + d, e);
    DivModOfSum(64, a, d);
    assert n / 4096 == n / 64 / 64 && n / 262144 == n / 64 / 64 / 64;
  }

  // ----------------------------------------------------------------------- names

  /** `char::is_control` */
  predicate IsControl(c: char) {
    var n := c as int;
    n < 0x20 || 0x7f <= n <= 0x9f
  }

  predicate HasControlChar(text: string) {
    exists i :: 0 <= i < |text| && IsControl(text[i])
  }

  /** The bytes of a control character show it, and those of no other character. */
  lemma CharControl(c: char)
    ensures HasControl(CharBytes(c)) <==> IsControl(c)
    ensures CharBytes(c)[|CharBytes(c)| - 1] != 0xc2
  {
    var a := CharBytes(c);
    if IsControl(c) {
      if c as int < 0x80 { assert a[0] < 0x20 || a[0] == 0x7f; } else { assert a[0] == 0xc2 && 0x80 <= a[1] <= 0x9f; }
    }
    assert |a| > 1 ==> forall i :: 0 <= i < |a| ==> a[i] >= 0x80;
    assert forall i :: 1 <= i < |a| ==> a[i] != 0xc2;
    assert |a| > 2 ==> a[0] != 0xc2;
  }

  lemma ControlInEither(a: Bytes, b: Bytes)
    requires a != [] && a[|a| - 1] != 0xc2
    ensures HasControl(a + b) <==> HasControl(a) || HasControl(b)
  {
    var n, w := |a|, a + b;
    assert forall i :: 0 <= i < n ==> w[i] == a[i];
    assert forall i :: n <= i < |w| ==> w[i] == b[i - n];
    if i :| 0 <= i < |b| && (b[i] < 0x20 || b[i] == 0x7f) { assert w[n + i] == b[i]; }
    if i :| 0 <= i < |b| - 1 && b[i] == 0xc2 && 0x80 <= b[i + 1] <= 0x9f {
      assert w[n + i] == b[i] && w[n + i + 1] == b[i + 1];
    }
    if i :| 0 <= i < |w| - 1 && w[i] == 0xc2 && 0x80 <= w[i + 1] <= 0x9f { assert i != n - 1; }
  }

  lemma {:induction false} ControlsShow(text: string)
    ensures HasControl(TextBytes(text)) <==> HasControlChar(text)
  {
    if text != "" {
      ControlsShow(text[1..]);
      CharControl(text[0]);
      ControlInEither(CharBytes(text[0]), TextBytes(text[1..]));
      assert forall i :: 1 <= i < |text| ==> text[i] == text[1..][i - 1];
      if i :| 0 <= i < |text[1..]| && IsControl(text[1..][i]) { assert text[i + 1] == text[1..][i]; }
    }
  }

  /** An ASCII character is in a text exactly if its byte is in the bytes. */
  lemma {:induction false} AsciiShows(text: string, c: char)
    requires c as int < 128
    ensures c as int in TextBytes(text) <==> c in text
  {
    if text != "" {
      AsciiShows(text[1..], c);
      var a := CharBytes(text[0]);
      assert c as int in a <==> text[0] == c;
      assert text == [text[0]] + text[1..];
    }
  }

  /** Exactly which names a file may be suggested under, in terms of their characters. */
  lemma NamesExactly(text: string)
    ensures IsUtf8(TextBytes(text))
    ensures ValidName(TextBytes(text)) <==>
            && text != "" && |TextBytes(text)| <= 128
            && !HasControlChar(text) && '/' !in text && '\\' !in text
  {
    TextsAreUtf8(text);
    ControlsShow(text);
    AsciiShows(text, '/');
    AsciiShows(text, '\\');
    if text != "" { assert |CharBytes(text[0])| >= 1; }
  }
}
