/**
 Shared value types, and positional notation.

 A digit sequence is read most significant digit first.  The same two functions,
 `Value` and `Digits`, specify the Base32 share code, every fixed-width big-endian
 integer on the wire, and the transcript length prefixes.
 */
module Basics {

  type byte = x: int | 0 <= x < 256
  type Bytes = seq<byte>
  type u16 = x: int | 0 <= x < 0x1_0000
  type u32 = x: int | 0 <= x < 0x1_0000_0000
  type u64 = x: int | 0 <= x < 0x1_0000_0000_0000_0000

  type Bytes16 = b: Bytes | |b| == 16 witness seq(16, i => 0)
  type Bytes20 = b: Bytes | |b| == 20 witness seq(20, i => 0)
  type Bytes24 = b: Bytes | |b| == 24 witness seq(24, i => 0)
  type Bytes32 = b: Bytes | |b| == 32 witness seq(32, i => 0)

  /** Peers are compared and nothing else, so any identity will do. */
  type PeerId = nat

  const MAX_PAYLOAD_BYTES := 1024 * 1024

  datatype Option<+T> = None | Some(value: T)

  datatype Result<+T, +E> = Ok(value: T) | Err(error: E) {
    predicate IsFailure() { Err? }
    function PropagateFailure<U>(): Result<U, E>
      requires Err?
    {
      Err(error)
    }
    function Extract(): T
      requires Ok?
    {
      value
    }
  }

  datatype Outcome<+E> = Pass | Fail(error: E) {
    predicate IsFailure() { Fail? }
    function PropagateFailure<U>(): Result<U, E>
      requires Fail?
    {
      Err(error)
    }
  }

  predicate NoRepeats<T(==)>(q: seq<T>) {
    forall i, j :: 0 <= i < j < |q| ==> q[i] != q[j]
  }

  lemma SubsetCard<T>(a: set<T>, b: set<T>)
    requires a <= b
    ensures |a| <= |b|
  {
    assert b == a + (b - a);
  }

  /** The bytes of an ASCII literal. */
  function Ascii(text: string): (b: Bytes)
    ensures |b| == |text|
  {
    seq(|text|, i requires 0 <= i < |text| => if (text[i] as int) < 128 then text[i] as int else 0)
  }

  function Pow(base: nat, n: nat): (r: nat)
    ensures base > 0 ==> r > 0
  {
    if n == 0 then 1 else base * Pow(base, n - 1)
  }

  /** The number a digit sequence denotes. */
  function Value(base: nat, d: seq<nat>): nat {
    if d == [] then 0 else Value(base, d[..|d| - 1]) * base + d[|d| - 1]
  }

  /** The `width` least significant digits of a number. */
  function Digits(base: nat, width: nat, n: nat): (d: seq<nat>)
    requires base >= 2
    ensures |d| == width
    ensures forall i :: 0 <= i < width ==> d[i] < base
  {
    if width == 0 then [] else Digits(base, width - 1, n / base) + [n % base]
  }

  ghost predicate AllBelow(base: nat, d: seq<nat>) {
    forall i :: 0 <= i < |d| ==> d[i] < base
  }

  /** `n.to_be_bytes()` for an integer of `width` bytes. */
  function BigEndian(width: nat, n: nat): (b: Bytes)
    ensures |b| == width
  {
    Digits(256, width, n)
  }

  lemma {:induction false} ValueBound(base: nat, d: seq<nat>)
    requires AllBelow(base, d)
    ensures Value(base, d) < Pow(base, |d|)
  {
    if d != [] {
      var front, last := d[..|d| - 1], d[|d| - 1];
      ValueBound(base, front);
      DigitStep(base, Value(base, front), last, Pow(base, |d| - 1));
    }
  }

  lemma DigitStep(base: nat, v: nat, digit: nat, bound: nat)
    requires v < bound && digit < base
    ensures v * base + digit < base * bound
  {
    MulMono(v + 1, bound, base);
    assert (v + 1) * base == v * base + base;
  }

  lemma MulMono(a: nat, b: nat, c: nat)
    requires a <= b
    ensures a * c <= b * c
  {
  }

  lemma MulAssociates(a: int, b: int, c: int)
    ensures a * (b * c) == a * b * c
  {
  }

  /** Dividing by the base undoes the last factor of a bound. */
  lemma DivBelow(base: nat, n: nat, bound: nat)
    requires base > 0 && n < base * bound
    ensures n / base < bound && n == n / base * base + n % base
  {
    if n / base >= bound {
      MulMono(bound, n / base, base);
    }
  }

  lemma DivModOfSum(base: nat, q: nat, r: nat)
    requires r < base
    ensures (q * base + r) / base == q && (q * base + r) % base == r
  {
    var n := q * base + r;
    assert n == (n / base) * base + n % base;
    if n / base < q {
      MulMono(n / base + 1, q, base);
    } else if n / base > q {
      MulMono(q + 1, n / base, base);
    }
  }

  /** Reading back the digits of a number that fits gives the number. */
  lemma {:induction false} ValueOfDigits(base: nat, width: nat, n: nat)
    requires base >= 2 && n < Pow(base, width)
    ensures Value(base, Digits(base, width, n)) == n
  {
    if width > 0 {
      var front := Digits(base, width - 1, n / base);
      DivBelow(base, n, Pow(base, width - 1));
      ValueOfDigits(base, width - 1, n / base);
      var d := Digits(base, width, n);
      assert d == front + [n % base] && d[..|d| - 1] == front;
    }
  }

  /** Writing out the value of a digit sequence gives the sequence. */
  lemma {:induction false} DigitsOfValue(base: nat, d: seq<nat>)
    requires base >= 2 && AllBelow(base, d)
    ensures Digits(base, |d|, Value(base, d)) == d
  {
    if d != [] {
      var front, last := d[..|d| - 1], d[|d| - 1];
      DivModOfSum(base, Value(base, front), last);
      DigitsOfValue(base, front);
      assert d == front + [last];
    }
  }

  /** Fixed-width big-endian integers are a faithful encoding. */
  lemma BigEndianInjective(width: nat, m: nat, n: nat)
    requires m < Pow(256, width) && n < Pow(256, width)
    requires BigEndian(width, m) == BigEndian(width, n)
    ensures m == n
  {
    ValueOfDigits(256, width, m);
    ValueOfDigits(256, width, n);
  }

  lemma BytePowers()
    ensures Pow(256, 1) == 0x100
    ensures Pow(256, 2) == 0x1_0000
    ensures Pow(256, 4) == 0x1_0000_0000
    ensures Pow(256, 8) == 0x1_0000_0000_0000_0000
  {
    assert Pow(256, 3) == 256 * Pow(256, 2);
    assert Pow(256, 5) == 256 * Pow(256, 4);
    assert Pow(256, 6) == 256 * Pow(256, 5);
    assert Pow(256, 7) == 256 * Pow(256, 6);
  }

  lemma {:induction false} PowAdd(base: nat, a: nat, b: nat)
    ensures Pow(base, a + b) == Pow(base, a) * Pow(base, b)
  {
    if a > 0 {
      PowAdd(base, a - 1, b);
      MulAssociates(base, Pow(base, a - 1), Pow(base, b));
    }
  }
}
