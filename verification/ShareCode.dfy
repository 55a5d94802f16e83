/**
 The version 1 share code: a 20-byte capability spelled as 32 Crockford Base32
 symbols and two checksum symbols, in dash-separated groups of four.

 Both directions of the secret conversion run a 16-bit accumulator whose high bits
 are never cleared.  They are specified by positional notation: the symbols are the
 base-32 digits of the number whose base-256 digits are the secret.
 */
module ShareCode {
  import opened Basics

  const SECRET_BYTES := 20
  const SECRET_SYMBOLS := 32
  const DATA_SYMBOLS := 34
  const PREFIX_LENGTH := 4
  const NORMALIZED_SYMBOLS := 38
  const ALPHABET := "0123456789ABCDEFGHJKMNPQRSTVWXYZ"
  const DASH: byte := '-' as int
  const PREFIX: Bytes := ['e' as int, 's' as int, 'h' as int, '1' as int]
  const UPPER_PREFIX: Bytes := ['E' as int, 'S' as int, 'H' as int, '1' as int]

  datatype ParseError = Invalid

  type Symbol = v: int | 0 <= v < 32

  // ---------------------------------------------------------------- symbols

  function EncodeSymbol(value: Symbol): byte {
    ALPHABET[value] as int
  }

  function ToUpper(c: byte): byte {
    if 'a' as int <= c <= 'z' as int then c - 32 else c
  }

  function DecodeSymbol(symbol: byte): Option<Symbol> {
    var c := ToUpper(symbol);
    if c == 48 || c == 79 then Some(0)                 // 0 O
    else if c == 49 || c == 73 || c == 76 then Some(1) // 1 I L
    else if 50 <= c <= 57 then Some(c - 48)            // 2-9
    else if 65 <= c <= 72 then Some(c - 65 + 10)       // A-H
    else if 74 <= c <= 75 then Some(c - 74 + 18)       // J-K
    else if 77 <= c <= 78 then Some(c - 77 + 20)       // M-N
    else if 80 <= c <= 84 then Some(c - 80 + 22)       // P-T
    else if 86 <= c <= 90 then Some(c - 86 + 27)       // V-Z
    else None
  }

  /** The alphabet is a right inverse of the decoder and needs no normalisation. */
  lemma SymbolRoundTrip(v: Symbol)
    ensures DecodeSymbol(EncodeSymbol(v)) == Some(v)
    ensures EncodeSymbol(v) != DASH && EncodeSymbol(v) < 128
    ensures ToUpper(EncodeSymbol(v)) == EncodeSymbol(v)
  {
    AlphabetIsPiecewise(v);
  }

  lemma AlphabetIsPiecewise(v: Symbol)
    ensures EncodeSymbol(v) == if v < 10 then v + 48 else if v < 18 then v + 55 else if v < 20 then v + 56
                               else if v < 22 then v + 57 else if v < 27 then v + 58 else v + 59
  {
  }

  // ------------------------------------------------------- secret conversion

  function SymbolsOf(secret: Bytes20): (d: seq<Symbol>)
    ensures |d| == SECRET_SYMBOLS
  {
    Digits(32, SECRET_SYMBOLS, Value(256, secret))
  }

  function SecretOf(symbols: seq<Symbol>): (b: Bytes20)
    requires |symbols| == SECRET_SYMBOLS
  {
    Digits(256, SECRET_BYTES, Value(32, symbols))
  }

  lemma SamePower()
    ensures Pow(32, 32) == Pow(256, 20)
  {
    PowersOfPow(5, 32);
    PowersOfPow(8, 20);
    assert Pow(2, 5) == 32 by { assert Pow(2, 3) == 8; }
    assert Pow(2, 8) == 256 by { assert Pow(2, 4) == 16; assert Pow(2, 6) == 64; }
  }

  lemma {:induction false} PowersOfPow(a: nat, b: nat)
    ensures Pow(Pow(2, a), b) == Pow(2, a * b)
  {
    if b > 0 {
      PowersOfPow(a, b - 1);
      PowAdd(2, a, a * (b - 1));
      assert a + a * (b - 1) == a * b;
    }
  }

  /** Decoding undoes encoding, for every secret. */
  lemma SecretRoundTrip(secret: Bytes20)
    ensures SecretOf(SymbolsOf(secret)) == secret
  {
    ValueBound(256, secret);
    SamePower();
    ValueOfDigits(32, SECRET_SYMBOLS, Value(256, secret));
    DigitsOfValue(256, secret);
  }

  /** Encoding undoes decoding, for every sequence of 32 five-bit symbols. */
  lemma SymbolsRoundTrip(symbols: seq<Symbol>)
    requires |symbols| == SECRET_SYMBOLS
    ensures SymbolsOf(SecretOf(symbols)) == symbols
  {
    ValueBound(32, symbols);
    SamePower();
    ValueOfDigits(256, SECRET_BYTES, Value(32, symbols));
    DigitsOfValue(32, symbols);
  }

  /** `(accumulator << 8) | low` on 16 bits: the shifted value has 8 clear low bits. */
  function PushByte(accumulator: u16, low: byte): u16 {
    accumulator * 256 % 0x1_0000 + low
  }

  /** `(accumulator << 5) | low` on 16 bits. */
  function PushSymbol(accumulator: u16, low: Symbol): u16 {
    accumulator * 32 % 0x1_0000 + low
  }

  /** `low_byte(accumulator >> shift)` */
  function LowByteAfterShift(accumulator: u16, shift: nat): byte {
    accumulator / Pow(2, shift) % 256
  }

  lemma SmallPowers()
    ensures Pow(2, 0) == 1 && Pow(2, 1) == 2 && Pow(2, 2) == 4 && Pow(2, 3) == 8 && Pow(2, 4) == 16
    ensures Pow(2, 5) == 32 && Pow(2, 6) == 64 && Pow(2, 7) == 128 && Pow(2, 8) == 256
    ensures Pow(2, 9) == 512 && Pow(2, 10) == 1024 && Pow(2, 11) == 2048 && Pow(2, 12) == 4096
  {
    assert Pow(2, 2) == 4;
    assert Pow(2, 4) == 16;
    assert Pow(2, 6) == 64;
    assert Pow(2, 8) == 256;
    assert Pow(2, 10) == 1024;
  }

  lemma ModUnique(n: int, d: nat, q: int, r: nat)
    requires n == q * d + r && r < d
    ensures n % d == r
  {
    var t := n / d - q;
    assert t * d == r - n % d by {
      assert n == n / d * d + n % d;
      assert t * d == n / d * d - q * d;
    }
    if t >= 1 { MulMono(1, t, d); } else if t <= -1 { MulMono(1, -t, d); }
  }

  lemma ModOfScaled(a: nat, p: nat, k: nat, m: nat, z: nat, low: nat)
    requires p > 0 && m > 0 && m == z * (p * k) && low < k
    ensures p * k > 0 && (a * k % m + low) % (p * k) == a % p * k + low
  {
    var q, r, t := a / p, a % p, a * k / m;
    assert p * k > 0 by { MulMono(1, p, k); }
    assert a * k == q * (p * k) + r * k by {
      assert a == q * p + r;
      Distribute(q, p, k, r);
    }
    assert a * k == t * m + a * k % m;
    assert t * m == t * z * (p * k);
    assert a * k % m + low == (q - t * z) * (p * k) + (r * k + low);
    DigitStep(k, r, low, p);
    ModUnique(a * k % m + low, p * k, q - t * z, r * k + low);
  }

  lemma ModSplits(a: nat, k: nat, q: nat)
    requires k > 0 && q > 0
    ensures k * q > 0 && a % (k * q) == a / q % k * q + a % q
  {
    assert k * q > 0 by { MulMono(1, k, q); }
    var t, s, r := a / q / k, a / q % k, a % q;
    assert a == a / q * q + r;
    assert a / q == t * k + s;
    Distribute(t, k, q, s);
    DigitStep(q, s, r, k);
    ModUnique(a, k * q, t, s * q + r);
  }

  lemma Distribute(w: int, p: int, q: int, rest: int)
    ensures (w * p + rest) * q == w * (p * q) + rest * q
  {
  }

  /** No needed bit is lost when the accumulator is shifted left within 16 bits. */
  lemma PushKeepsBits(accumulator: u16, available: nat, k: nat, low: nat)
    requires available + k <= 16 && low < Pow(2, k)
    ensures (accumulator * Pow(2, k) % 0x1_0000 + low) % Pow(2, available + k)
         == accumulator % Pow(2, available) * Pow(2, k) + low
  {
    var p, q, z := Pow(2, available), Pow(2, k), Pow(2, 16 - available - k);
    PowAdd(2, available, k);
    PowAdd(2, available + k, 16 - available - k);
    assert Pow(2, 16) == 0x1_0000 by { PowAdd(2, 8, 8); SmallPowers(); }
    assert z * (p * q) == 0x1_0000 by {
      assert p * q == Pow(2, available + k);
      assert Pow(2, available + k) * z == Pow(2, 16);
    }
    ModOfScaled(accumulator, p, q, 0x1_0000, z, low);
  }

  lemma SplitTopBits(accumulator: u16, available: nat, k: nat)
    requires k <= available
    ensures accumulator % Pow(2, available)
         == BitsAbove(accumulator, available - k, k) * Pow(2, available - k)
            + accumulator % Pow(2, available - k)
  {
    hide Pow;
    PowAdd(2, k, available - k);
    ModSplits(accumulator, Pow(2, k), Pow(2, available - k));
  }

  /** Appending one digit, seen through the positional value. */
  lemma AppendDigit(base: nat, d: seq<nat>, digit: nat)
    ensures Value(base, d + [digit]) == Value(base, d) * base + digit
  {
    assert (d + [digit])[..|d|] == d;
  }

  /**
   What both loops maintain: the digits read so far denote the number made of the
   digits written so far followed by the `available` low bits of the accumulator.
   */
  ghost predicate Carries(inBase: nat, input: seq<nat>, outBase: nat, output: seq<nat>,
                          available: nat, accumulator: nat) {
    Value(inBase, input) == Value(outBase, output) * Pow(2, available) + accumulator % Pow(2, available)
  }

  lemma PushCarries(k: nat, input: seq<nat>, outBase: nat, output: seq<nat>,
                    available: nat, accumulator: u16, low: nat)
    requires Carries(Pow(2, k), input, outBase, output, available, accumulator)
    requires available + k <= 16 && low < Pow(2, k)
    ensures Carries(Pow(2, k), input + [low], outBase, output, available + k,
                    accumulator * Pow(2, k) % 0x1_0000 + low)
  {
    hide Pow, Value;
    PushKeepsBits(accumulator, available, k, low);
    AppendDigit(Pow(2, k), input, low);
    PowAdd(2, available, k);
    PushSum(Value(outBase, output), Pow(2, available), Pow(2, k), accumulator % Pow(2, available), low);
  }

  /** One more digit behind a number that is split in two. */
  lemma PushSum(high: nat, p: nat, q: nat, rest: nat, low: nat)
    ensures (high * p + rest) * q + low == high * (p * q) + (rest * q + low)
  {
    Distribute(high, p, q, rest);
  }

  /** A digit moved from the low part of a number to its high part. */
  lemma PopSum(high: nat, p: nat, q: nat, top: nat, rest: nat)
    ensures high * (p * q) + (top * q + rest) == (high * p + top) * q + rest
  {
    Distribute(high, p, q, top);
  }

  /** The `k` bits of a number from position `shift` on. */
  function BitsAbove(n: nat, shift: nat, k: nat): nat {
    n / Pow(2, shift) % Pow(2, k)
  }

  lemma LowBits(accumulator: u16, shift: nat)
    ensures LowByteAfterShift(accumulator, shift) == BitsAbove(accumulator, shift, 8)
    ensures LowByteAfterShift(accumulator, shift) % 32 == BitsAbove(accumulator, shift, 5)
  {
    SmallPowers();
    ModOfMod(accumulator / Pow(2, shift));
  }

  lemma PopCarries(inBase: nat, input: seq<nat>, k: nat, output: seq<nat>,
                   available: nat, accumulator: u16)
    requires Carries(inBase, input, Pow(2, k), output, available, accumulator)
    requires k <= available
    ensures Carries(inBase, input, Pow(2, k), output + [BitsAbove(accumulator, available - k, k)],
                    available - k, accumulator)
  {
    hide Pow, Value, BitsAbove;
    var top := BitsAbove(accumulator, available - k, k);
    SplitTopBits(accumulator, available, k);
    AppendDigit(Pow(2, k), output, top);
    PowAdd(2, k, available - k);
    PopSum(Value(Pow(2, k), output), Pow(2, k), Pow(2, available - k), top, accumulator % Pow(2, available - k));
  }

  lemma PopSymbol(secret: seq<nat>, output: seq<nat>, available: nat, accumulator: u16)
    requires Carries(256, secret, 32, output, available, accumulator) && 5 <= available
    ensures Carries(256, secret, 32, output + [LowByteAfterShift(accumulator, available - 5) % 32],
                    available - 5, accumulator)
  {
    assert Pow(2, 5) == 32 by { SmallPowers(); }
    hide Carries, Pow, BitsAbove, LowByteAfterShift;
    PopCarries(256, secret, 5, output, available, accumulator);
    LowBits(accumulator, available - 5);
  }

  lemma ModOfMod(n: nat)
    ensures n % 256 % 32 == n % 32
  {
  }

  lemma PopByte(symbols: seq<nat>, output: seq<nat>, available: nat, accumulator: u16)
    requires Carries(32, symbols, 256, output, available, accumulator) && 8 <= available
    ensures Carries(32, symbols, 256, output + [LowByteAfterShift(accumulator, available - 8)],
                    available - 8, accumulator)
  {
    assert Pow(2, 8) == 256 by { SmallPowers(); }
    hide Carries, Pow, BitsAbove, LowByteAfterShift;
    PopCarries(32, symbols, 8, output, available, accumulator);
    LowBits(accumulator, available - 8);
  }

  lemma PushByteCarries(secret: seq<nat>, output: seq<nat>, available: nat, accumulator: u16, low: byte)
    requires Carries(256, secret, 32, output, available, accumulator) && available < 5
    ensures Carries(256, secret + [low], 32, output, available + 8, PushByte(accumulator, low))
  {
    assert Pow(2, 8) == 256 by { SmallPowers(); }
    hide Carries, Pow;
    PushCarries(8, secret, 32, output, available, accumulator, low);
  }

  lemma PushSymbolCarries(symbols: seq<nat>, output: seq<nat>, available: nat, accumulator: u16, low: Symbol)
    requires Carries(32, symbols, 256, output, available, accumulator) && available < 8
    ensures Carries(32, symbols + [low], 256, output, available + 5, PushSymbol(accumulator, low))
  {
    assert Pow(2, 5) == 32 by { SmallPowers(); }
    hide Carries, Pow;
    PushCarries(5, symbols, 256, output, available, accumulator, low);
  }

  method EncodeSecret(secret: Bytes20) returns (symbols: seq<Symbol>)
    ensures symbols == SymbolsOf(secret)
  {
    hide Carries, PushByte, LowByteAfterShift, SymbolsOf;
    var output := new Symbol[SECRET_SYMBOLS](i => 0);
    NothingCarried();
    assert secret[..0] == [] && output[..0] == [];
    var accumulator: u16 := 0;
    var available, k := 0, 0;
    for i := 0 to SECRET_BYTES
      invariant 0 <= available < 5 && 0 <= k && 8 * i == 5 * k + available
      invariant Carries(256, secret[..i], 32, output[..k], available, accumulator)
    {
      PushByteCarries(secret[..i], output[..k], available, accumulator, secret[i]);
      assert secret[..i + 1] == secret[..i] + [secret[i]];
      accumulator := PushByte(accumulator, secret[i]);
      available := available + 8;
      while available >= 5
        invariant 0 <= available <= 12 && 0 <= k && 8 * (i + 1) == 5 * k + available
        invariant Carries(256, secret[..i + 1], 32, output[..k], available, accumulator)
      {
        PopSymbol(secret[..i + 1], output[..k], available, accumulator);
        ghost var before := output[..k];
        available := available - 5;
        output[k] := LowByteAfterShift(accumulator, available) % 32;
        assert output[..k + 1] == before + [LowByteAfterShift(accumulator, available) % 32];
        k := k + 1;
      }
    }
    symbols := output[..];
    assert secret[..SECRET_BYTES] == secret && output[..k] == symbols;
    FullyCarried(secret, symbols, accumulator);
  }

  lemma NothingCarried()
    ensures Carries(256, [], 32, [], 0, 0) && Carries(32, [], 256, [], 0, 0)
  {
  }

  lemma FullyCarried(secret: Bytes20, symbols: seq<Symbol>, accumulator: u16)
    requires |symbols| == SECRET_SYMBOLS
    ensures Carries(256, secret, 32, symbols, 0, accumulator) ==> symbols == SymbolsOf(secret)
    ensures Carries(32, symbols, 256, secret, 0, accumulator) ==> secret == SecretOf(symbols)
  {
    DigitsOfValue(32, symbols);
    DigitsOfValue(256, secret);
  }

  method DecodeSecret(symbols: seq<Symbol>) returns (secret: Bytes20)
    requires |symbols| == SECRET_SYMBOLS
    ensures secret == SecretOf(symbols)
  {
    hide Carries, PushSymbol, LowByteAfterShift, SecretOf;
    var output := new byte[SECRET_BYTES](i => 0);
    NothingCarried();
    assert symbols[..0] == [] && output[..0] == [];
    var accumulator: u16 := 0;
    var available, k := 0, 0;
    for i := 0 to SECRET_SYMBOLS
      invariant 0 <= available < 8 && 0 <= k && 5 * i == 8 * k + available
      invariant Carries(32, symbols[..i], 256, output[..k], available, accumulator)
    {
      PushSymbolCarries(symbols[..i], output[..k], available, accumulator, symbols[i]);
      assert symbols[..i + 1] == symbols[..i] + [symbols[i]];
      accumulator := PushSymbol(accumulator, symbols[i]);
      available := available + 5;
      if available >= 8 {
        PopByte(symbols[..i + 1], output[..k], available, accumulator);
        ghost var before := output[..k];
        available := available - 8;
        output[k] := LowByteAfterShift(accumulator, available);
        assert output[..k + 1] == before + [LowByteAfterShift(accumulator, available)];
        k := k + 1;
      }
    }
    secret := output[..];
    assert symbols[..SECRET_SYMBOLS] == symbols && output[..k] == secret;
    FullyCarried(secret, symbols, accumulator);
  }

  // ------------------------------------------------------------- text form

  /** SHA-256, whose internals play no part here. */
  type Hash = Bytes -> Bytes32

  function ChecksumSymbols(hash: Hash, secret: Bytes20): (c: seq<Symbol>)
    ensures |c| == 2
  {
    var digest := hash(Ascii("envshare/code-checksum/v1") + secret);
    [digest[0] / 8, digest[0] % 8 * 4 + digest[1] / 64]
  }

  function DataSymbols(hash: Hash, secret: Bytes20): (d: seq<Symbol>)
    ensures |d| == DATA_SYMBOLS
  {
    SymbolsOf(secret) + ChecksumSymbols(hash, secret)
  }

  function EncodeAll(d: seq<Symbol>): (text: Bytes)
    ensures |text| == |d|
  {
    seq(|d|, i requires 0 <= i < |d| => EncodeSymbol(d[i]))
  }

  /** A dash in front of every fourth symbol, starting with the first. */
  function Grouped(text: Bytes): Bytes {
    if text == [] then [] else
    var n := |text| - 1;
    Grouped(text[..n]) + (if n % 4 == 0 then [DASH] else []) + [text[n]]
  }

  function Display(hash: Hash, secret: Bytes20): Bytes {
    PREFIX + Grouped(EncodeAll(DataSymbols(hash, secret)))
  }

  /** Upper case without dashes. */
  function Normalized(text: Bytes): (n: Bytes)
    ensures |n| <= |text|
  {
    if text == [] then [] else
    var last := text[|text| - 1];
    Normalized(text[..|text| - 1]) + if last == DASH then [] else [ToUpper(last)]
  }

  predicate IsAscii(text: Bytes) {
    forall i :: 0 <= i < |text| ==> text[i] < 128
  }

  predicate Decodable(text: Bytes) {
    forall i :: 0 <= i < |text| ==> DecodeSymbol(text[i]).Some?
  }

  function DecodeAll(text: Bytes): (d: seq<Symbol>)
    requires Decodable(text)
    ensures |d| == |text|
  {
    seq(|text|, i requires 0 <= i < |text| => DecodeSymbol(text[i]).value)
  }

  /** Everything the parser asks of a text apart from the checksum. */
  predicate WellFormed(text: Bytes) {
    var n := Normalized(text);
    && IsAscii(text)
    && |n| == NORMALIZED_SYMBOLS
    && n[..PREFIX_LENGTH] == UPPER_PREFIX
    && Decodable(n[PREFIX_LENGTH..])
  }

  function Parsed(hash: Hash, text: Bytes): Result<Bytes20, ParseError> {
    if !WellFormed(text) then Err(Invalid) else
    var data := DecodeAll(Normalized(text)[PREFIX_LENGTH..]);
    var secret := SecretOf(data[..SECRET_SYMBOLS]);
    if ChecksumSymbols(hash, secret) == data[SECRET_SYMBOLS..] then Ok(secret) else Err(Invalid)
  }

  /** The canonical spelling of the symbols a well-formed text carries. */
  function Respelled(text: Bytes): Bytes
    requires WellFormed(text)
  {
    PREFIX + Grouped(EncodeAll(DecodeAll(Normalized(text)[PREFIX_LENGTH..])))
  }

  lemma {:induction false} NormalizedConcat(a: Bytes, b: Bytes)
    ensures Normalized(a + b) == Normalized(a) + Normalized(b)
  {
    if b == [] {
      assert a + b == a;
    } else {
      var front := b[..|b| - 1];
      NormalizedConcat(a, front);
      assert (a + b)[..|a + b| - 1] == a + front;
    }
  }

  lemma {:induction false} UngroupSymbols(d: seq<Symbol>)
    ensures Normalized(Grouped(EncodeAll(d))) == EncodeAll(d)
    ensures IsAscii(Grouped(EncodeAll(d)))
  {
    hide EncodeSymbol, Normalized;
    var text := EncodeAll(d);
    if d == [] {
      UngroupOne(0, 0);
      assert text == [] && Grouped(text) == [];
    } else {
      var n := |d| - 1;
      assert text[..n] == EncodeAll(d[..n]);
      UngroupSymbols(d[..n]);
      var tail := (if n % 4 == 0 then [DASH] else []) + [text[n]];
      UngroupOne(n, d[n]);
      assert Grouped(text) == Grouped(text[..n]) + tail;
      NormalizedConcat(Grouped(text[..n]), tail);
      assert text == text[..n] + [text[n]];
    }
  }

  lemma UngroupOne(n: nat, symbol: Symbol)
    ensures var tail := (if n % 4 == 0 then [DASH] else []) + [EncodeSymbol(symbol)];
            Normalized(tail) == [EncodeSymbol(symbol)] && IsAscii(tail)
    ensures Normalized([]) == []
  {
    SymbolRoundTrip(symbol);
    var c := EncodeSymbol(symbol);
    assert Normalized([c]) == [c] by { assert [c][..0] == []; }
    assert Normalized([DASH]) == [] by { assert [DASH][..0] == []; }
    NormalizedConcat([DASH], [c]);
  }

  lemma DecodeEncodeAll(d: seq<Symbol>)
    ensures Decodable(EncodeAll(d)) && DecodeAll(EncodeAll(d)) == d
  {
    forall i | 0 <= i < |d| ensures DecodeSymbol(EncodeAll(d)[i]) == Some(d[i]) {
      SymbolRoundTrip(d[i]);
    }
  }

  lemma NormalizedPrefix()
    ensures Normalized(PREFIX) == UPPER_PREFIX
  {
    var a, b, c := PREFIX[..1], PREFIX[..2], PREFIX[..3];
    assert a[..0] == [] && b[..1] == a && c[..2] == b;
    assert Normalized(a) == [69];
    assert Normalized(b) == [69, 83];
    assert Normalized(c) == [69, 83, 72];
  }

  /** A canonical spelling is well formed and carries exactly the symbols it spells. */
  lemma SpellingCarries(d: seq<Symbol>)
    requires |d| == DATA_SYMBOLS
    ensures var text := PREFIX + Grouped(EncodeAll(d));
            && WellFormed(text)
            && DecodeAll(Normalized(text)[PREFIX_LENGTH..]) == d
  {
    hide Normalized, Grouped, EncodeSymbol, DecodeSymbol;
    var text := PREFIX + Grouped(EncodeAll(d));
    UngroupSymbols(d);
    DecodeEncodeAll(d);
    NormalizedPrefix();
    NormalizedConcat(PREFIX, Grouped(EncodeAll(d)));
    assert Normalized(text)[..PREFIX_LENGTH] == UPPER_PREFIX;
    assert Normalized(text)[PREFIX_LENGTH..] == EncodeAll(d);
  }

  /**
   A text is accepted for a secret exactly when it is well formed and its canonical
   respelling is the displayed code of that secret.
   */
  lemma AcceptedExactlyCanonical(hash: Hash, text: Bytes, secret: Bytes20)
    ensures Parsed(hash, text) == Ok(secret)
       <==> WellFormed(text) && Respelled(text) == Display(hash, secret)
  {
    if WellFormed(text) {
      var data := DecodeAll(Normalized(text)[PREFIX_LENGTH..]);
      SpellingCarries(data);
      SpellingCarries(DataSymbols(hash, secret));
      assert data == data[..SECRET_SYMBOLS] + data[SECRET_SYMBOLS..];
      if Parsed(hash, text) == Ok(secret) {
        SymbolsRoundTrip(data[..SECRET_SYMBOLS]);
        assert data == DataSymbols(hash, secret);
      }
      if Respelled(text) == Display(hash, secret) {
        assert data == DataSymbols(hash, secret);
        assert data[..SECRET_SYMBOLS] == SymbolsOf(secret);
        assert data[SECRET_SYMBOLS..] == ChecksumSymbols(hash, secret);
        SecretRoundTrip(secret);
      }
    }
  }

  /** Every displayed code parses back to its secret. */
  lemma DisplayParses(hash: Hash, secret: Bytes20)
    ensures Parsed(hash, Display(hash, secret)) == Ok(secret)
  {
    SpellingCarries(DataSymbols(hash, secret));
    AcceptedExactlyCanonical(hash, Display(hash, secret), secret);
  }

  /** Two accepted texts carry the same secret exactly when they respell alike. */
  lemma SameSecretSameSpelling(hash: Hash, a: Bytes, b: Bytes)
    requires Parsed(hash, a).Ok? && Parsed(hash, b).Ok?
    ensures WellFormed(a) && WellFormed(b)
    ensures Parsed(hash, a) == Parsed(hash, b) <==> Respelled(a) == Respelled(b)
  {
    AcceptedExactlyCanonical(hash, a, Parsed(hash, a).value);
    AcceptedExactlyCanonical(hash, b, Parsed(hash, b).value);
    AcceptedExactlyCanonical(hash, a, Parsed(hash, b).value);
  }

  method Symbols(hash: Hash, secret: Bytes20) returns (symbols: Bytes)
    ensures symbols == EncodeAll(DataSymbols(hash, secret))
  {
    var output := new byte[DATA_SYMBOLS](i => 0);
    var encoded := EncodeSecret(secret);
    for i := 0 to SECRET_SYMBOLS
      invariant forall j :: 0 <= j < i ==> output[j] == EncodeSymbol(encoded[j])
    {
      output[i] := EncodeSymbol(encoded[i]);
    }
    var checksum := ChecksumSymbols(hash, secret);
    output[SECRET_SYMBOLS] := EncodeSymbol(checksum[0]);
    output[SECRET_SYMBOLS + 1] := EncodeSymbol(checksum[1]);
    symbols := output[..];
  }

  method Format(hash: Hash, secret: Bytes20) returns (text: Bytes)
    ensures text == Display(hash, secret)
  {
    text := PREFIX;
    var symbols := Symbols(hash, secret);
    for i := 0 to |symbols|
      invariant text == PREFIX + Grouped(symbols[..i])
    {
      assert symbols[..i + 1][..i] == symbols[..i];
      if i % 4 == 0 {
        text := text + [DASH];
      }
      text := text + [symbols[i]];
    }
    assert symbols[..|symbols|] == symbols;
  }

  /** The first loop of the parser: `None` stands for its early rejections. */
  method Normalize(input: Bytes) returns (r: Option<Bytes>)
    ensures r.Some? <==> IsAscii(input) && |Normalized(input)| == NORMALIZED_SYMBOLS
    ensures r.Some? ==> r.value == Normalized(input)
  {
    hide Normalized, ToUpper;
    var normalized := new byte[NORMALIZED_SYMBOLS](i => 0);
    var length := 0;
    NormalizedNothing();
    assert input[..0] == [] && normalized[..0] == [];
    for i := 0 to |input|
      invariant 0 <= length <= NORMALIZED_SYMBOLS
      invariant IsAscii(input[..i])
      invariant normalized[..length] == Normalized(input[..i])
    {
      NormalizedNext(input, i);
      if input[i] != DASH {
        if input[i] >= 128 || length == NORMALIZED_SYMBOLS {
          return None;
        }
        ghost var before := normalized[..length];
        normalized[length] := ToUpper(input[i]);
        assert normalized[..length + 1] == before + [ToUpper(input[i])];
        length := length + 1;
      }
    }
    assert input[..|input|] == input;
    r := if length == NORMALIZED_SYMBOLS then Some(normalized[..length]) else None;
  }

  lemma NormalizedNothing()
    ensures Normalized([]) == []
  {
  }

  lemma NormalizedNext(input: Bytes, i: nat)
    requires i < |input|
    ensures Normalized(input[..i + 1]) == Normalized(input[..i]) + if input[i] == DASH then [] else [ToUpper(input[i])]
    ensures |Normalized(input[..i + 1])| <= |Normalized(input)|
  {
    assert input[..i + 1][..i] == input[..i];
    NormalizedConcat(input[..i + 1], input[i + 1..]);
    assert input == input[..i + 1] + input[i + 1..];
  }

  /** The second loop of the parser. */
  method DecodeSymbols(encoded: Bytes) returns (r: Option<seq<Symbol>>)
    requires |encoded| == SECRET_SYMBOLS
    ensures r == if Decodable(encoded) then Some(DecodeAll(encoded)) else None
  {
    var symbols := new Symbol[SECRET_SYMBOLS](i => 0);
    for i := 0 to SECRET_SYMBOLS
      invariant forall j :: 0 <= j < i ==> DecodeSymbol(encoded[j]) == Some(symbols[j])
    {
      var symbol := DecodeSymbol(encoded[i]);
      if symbol.None? {
        return None;
      }
      symbols[i] := symbol.value;
    }
    assert symbols[..] == DecodeAll(encoded);
    r := Some(symbols[..]);
  }

  method Parse(hash: Hash, input: Bytes) returns (r: Result<Bytes20, ParseError>)
    ensures r == Parsed(hash, input)
  {
    var normalized := Normalize(input);
    if normalized.None? || normalized.value[..PREFIX_LENGTH] != UPPER_PREFIX {
      return Err(Invalid);
    }
    var encoded := normalized.value[PREFIX_LENGTH..];
    ghost var head := encoded[..SECRET_SYMBOLS];
    assert forall i :: 0 <= i < SECRET_SYMBOLS ==> head[i] == encoded[i];
    var symbols := DecodeSymbols(encoded[..SECRET_SYMBOLS]);
    if symbols.None? {
      return Err(Invalid);
    }
    var secret := DecodeSecret(symbols.value);
    var first, second := DecodeSymbol(encoded[SECRET_SYMBOLS]), DecodeSymbol(encoded[SECRET_SYMBOLS + 1]);
    if first.None? || second.None? {
      return Err(Invalid);
    }
    assert Decodable(encoded);
    ghost var data := DecodeAll(encoded);
    assert data[..SECRET_SYMBOLS] == symbols.value;
    assert data[SECRET_SYMBOLS..] == [first.value, second.value];
    if ChecksumSymbols(hash, secret) != [first.value, second.value] {
      return Err(Invalid);
    }
    return Ok(secret);
  }
}
