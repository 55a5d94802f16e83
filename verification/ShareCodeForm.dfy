/** The visible form of a share code: its letters, its look-alikes, its groups and its checksum. */
module ShareCodeForm {
  import opened Basics
  import opened ShareCode

  /** The letters a symbol may be typed as: its own, in either case, and the look-alikes of 0 and 1. */
  predicate Spells(c: byte, v: Symbol) {
    || ToUpper(c) == EncodeSymbol(v)
    || (v == 0 && c in Ascii("Oo"))
    || (v == 1 && c in Ascii("IiLl"))
  }

  /** Exactly these letters are read, and exactly as these symbols. */
  lemma DecodesExactly(c: byte, v: Symbol)
    ensures DecodeSymbol(c) == Some(v) <==> Spells(c, v)
  {
    AlphabetIsPiecewise(v);
    assert Ascii("Oo") == [79, 111] && Ascii("IiLl") == [73, 105, 76, 108];
  }

  /** Case is changed for the letters of ASCII and for nothing else. */
  lemma UpperCase(c: byte)
    ensures ToUpper(c) == c <==> !(97 <= c <= 122)
    ensures 97 <= c <= 122 ==> 65 <= ToUpper(c) <= 90 && ToUpper(c) + 32 == c
    ensures ToUpper(ToUpper(c)) == ToUpper(c)
  {
  }

  /** The checksum symbols are the ten leading bits of the digest. */
  lemma ChecksumIsLeadingBits(hash: Hash, secret: Bytes20)
    ensures var digest := hash(Ascii("envshare/code-checksum/v1") + secret);
            Value(32, ChecksumSymbols(hash, secret)) == Value(256, digest[..2]) / 64
  {
    var digest := hash(Ascii("envshare/code-checksum/v1") + secret);
    var c := ChecksumSymbols(hash, secret);
    assert c[..1] == [c[0]] && [c[0]][..0] == [];
    var high: nat, low: nat := c[0], c[1];
    assert Value(32, [c[0]]) == high;
    assert Value(32, c) == high * 32 + low;
    var d := digest[..2];
    assert d[..1] == [d[0]] && [d[0]][..0] == [];
    var first: nat, second: nat := d[0], d[1];
    assert Value(256, [d[0]]) == first;
    assert Value(256, d) == first * 256 + second;
    TenBits(d[0], d[1]);
  }

  lemma TenBits(a: nat, b: nat)
    ensures a / 8 * 32 + (a % 8 * 4 + b / 64) == (a * 256 + b) / 64
  {
    assert a == a / 8 * 8 + a % 8;
    assert b == b / 64 * 64 + b % 64;
    assert a * 256 + b == (a * 4 + b / 64) * 64 + b % 64;
    DivModOfSum(64, a * 4 + b / 64, b % 64);
  }

  /** Groups of four with a dash in front of each: where every symbol stands, and where every dash. */
  lemma {:induction false} GroupsOfFour(text: Bytes, i: nat)
    requires i < |text|
    ensures |Grouped(text)| == |text| + (|text| + 3) / 4
    ensures i + i / 4 + 1 < |Grouped(text)| && Grouped(text)[i + i / 4 + 1] == text[i]
    ensures i % 4 == 0 ==> Grouped(text)[i + i / 4] == DASH
  {
    hide Grouped;
    var n := |text| - 1;
    GroupedLast(text);
    if n > 0 { GroupsOfFour(text[..n], if i < n then i else n - 1); }
    assert |Grouped(text[..n])| == n + (n + 3) / 4;
    assert (n + 4) / 4 == (n + 3) / 4 + if n % 4 == 0 then 1 else 0;
    assert n + (n + 3) / 4 + (if n % 4 == 0 then 1 else 0) == n + n / 4 + 1;
  }

  lemma GroupedLast(text: Bytes)
    requires text != []
    ensures Grouped(text) == Grouped(text[..|text| - 1]) + DashAt(|text| - 1) + [text[|text| - 1]]
    ensures Grouped([]) == []
  {
  }

  function DashAt(n: nat): Bytes {
    if n % 4 == 0 then [DASH] else []
  }

  /** A displayed code is the prefix and eight groups of four and one of two, 47 characters in all. */
  lemma DisplayLayout(hash: Hash, secret: Bytes20, i: nat)
    requires i < DATA_SYMBOLS
    ensures var text, symbols := Display(hash, secret), DataSymbols(hash, secret);
            && |text| == 47 && text[..4] == PREFIX
            && text[4 + i + i / 4 + 1] == EncodeSymbol(symbols[i])
            && (i % 4 == 0 ==> text[4 + i + i / 4] == DASH)
  {
    hide Grouped, DataSymbols, EncodeSymbol;
    GroupsOfFour(EncodeAll(DataSymbols(hash, secret)), i);
  }
}
