/**
 The canonical byte builder behind every HMAC input, HKDF info string and AEAD
 associated-data string.  A transcript is a list of fields: fixed-width integers are
 written bare, byte strings behind a four-byte big-endian length.
 */
module Transcripts {
  import opened Basics

  const MAX_TRANSCRIPT_BYTES := 8192

  datatype CryptoError =
    | InvalidNetworkId
    | InvalidPeerIdentity
    | TranscriptTooLarge
    | Encryption
    | Decryption

  datatype Field = Fixed(bytes: Bytes) | Prefixed(bytes: Bytes)

  function FieldBytes(f: Field): Bytes {
    match f
    case Fixed(b) => b
    case Prefixed(b) => BigEndian(4, |b|) + b
  }

  function Encode(fields: seq<Field>): Bytes {
    if fields == [] then [] else FieldBytes(fields[0]) + Encode(fields[1..])
  }

  /** What the builder hands to a primitive: the bytes, unless they exceed the bound. */
  function Built(fields: seq<Field>): Result<Bytes, CryptoError> {
    if |Encode(fields)| <= MAX_TRANSCRIPT_BYTES then Ok(Encode(fields)) else Err(TranscriptTooLarge)
  }

  lemma {:induction false} EncodeConcat(a: seq<Field>, b: seq<Field>)
    ensures Encode(a + b) == Encode(a) + Encode(b)
  {
    if a == [] {
      assert a + b == b;
    } else {
      assert (a + b)[1..] == a[1..] + b;
      EncodeConcat(a[1..], b);
    }
  }

  lemma EncodeAppend(fields: seq<Field>, f: Field)
    ensures Encode(fields + [f]) == Encode(fields) + FieldBytes(f)
  {
    EncodeConcat(fields, [f]);
    assert Encode([f]) == FieldBytes(f) + Encode([f][1..]);
  }

  lemma PrefixFits(part: seq<Field>, whole: seq<Field>)
    requires part <= whole
    ensures |Encode(part)| <= |Encode(whole)|
  {
    EncodeConcat(part, whole[|part|..]);
    assert whole == part + whole[|part|..];
  }

  // ------------------------------------------------------------ injectivity

  predicate SameShape(a: seq<Field>, b: seq<Field>) {
    && |a| == |b|
    && forall i :: 0 <= i < |a| ==> SameKind(a[i], b[i])
  }

  predicate SameKind(f: Field, g: Field) {
    f.Fixed? == g.Fixed? && (f.Fixed? ==> |f.bytes| == |g.bytes|)
  }

  /** Every byte string has a length its four-byte prefix can hold. */
  predicate Encodable(fields: seq<Field>) {
    forall i :: 0 <= i < |fields| ==> |fields[i].bytes| < 0x1_0000_0000
  }

  lemma BoundedIsEncodable(fields: seq<Field>)
    requires |Encode(fields)| <= MAX_TRANSCRIPT_BYTES
    ensures Encodable(fields)
  {
    if fields != [] {
      BoundedIsEncodable(fields[1..]);
    }
  }

  /** Two fields of one kind at the front of equal byte strings are the same field. */
  lemma FirstField(f: Field, g: Field, x: Bytes, y: Bytes)
    requires SameKind(f, g)
    requires |f.bytes| < 0x1_0000_0000 && |g.bytes| < 0x1_0000_0000
    requires FieldBytes(f) + x == FieldBytes(g) + y
    ensures f == g && x == y
  {
    var s, t := FieldBytes(f) + x, FieldBytes(g) + y;
    if f.Prefixed? {
      assert s[..4] == BigEndian(4, |f.bytes|) && t[..4] == BigEndian(4, |g.bytes|);
      BytePowers();
      BigEndianInjective(4, |f.bytes|, |g.bytes|);
      assert s[4..4 + |f.bytes|] == f.bytes && t[4..4 + |g.bytes|] == g.bytes;
    } else {
      assert s[..|f.bytes|] == f.bytes && t[..|g.bytes|] == g.bytes;
    }
    assert s[|FieldBytes(f)|..] == x && t[|FieldBytes(g)|..] == y;
  }

  /** Transcripts of one shape are equal as bytes only when equal field by field. */
  lemma {:induction false} SameShapeInjective(a: seq<Field>, b: seq<Field>)
    requires SameShape(a, b) && Encodable(a) && Encodable(b)
    requires Encode(a) == Encode(b)
    ensures a == b
  {
    if a != [] {
      assert SameKind(a[0], b[0]);
      FirstField(a[0], b[0], Encode(a[1..]), Encode(b[1..]));
      assert forall i :: 0 <= i < |a| - 1 ==> SameKind(a[1..][i], b[1..][i]) by {
        forall i | 0 <= i < |a| - 1 ensures SameKind(a[1..][i], b[1..][i]) {
          assert SameKind(a[i + 1], b[i + 1]);
        }
      }
      SameShapeInjective(a[1..], b[1..]);
      assert a == [a[0]] + a[1..] && b == [b[0]] + b[1..];
    }
  }

  // ---------------------------------------------------------------- builder

  class Transcript {
    var bytes: Bytes
    /** The fields appended so far, and the complete list the caller is building. */
    ghost var fields: seq<Field>
    ghost const plan: seq<Field>

    ghost predicate Valid()
      reads this
    {
      && fields <= plan
      && bytes == Encode(fields)
      && |bytes| <= MAX_TRANSCRIPT_BYTES
    }

    constructor (ghost plan: seq<Field>)
      ensures Valid() && fields == [] && this.plan == plan
    {
      bytes, fields := [], [];
      this.plan := plan;
    }

    /** `Transcript::new(domain)` */
    static method New(domain: Bytes, ghost plan: seq<Field>) returns (r: Result<Transcript, CryptoError>)
      requires [Prefixed(domain)] <= plan
      ensures r.Ok? ==> fresh(r.value) && r.value.Valid()
                        && r.value.fields == [Prefixed(domain)] && r.value.plan == plan
      ensures r.Err? ==> r.error == TranscriptTooLarge && |Encode(plan)| > MAX_TRANSCRIPT_BYTES
    {
      var t := new Transcript(plan);
      assert t.fields + [Prefixed(domain)] == [Prefixed(domain)];
      var appended := t.AppendBytes(domain);
      if appended.Fail? {
        return Err(appended.error);
      }
      return Ok(t);
    }

    /** The shared effect of every append: all of the field is written, or nothing changes. */
    method Append(ghost f: Field, raw: Bytes) returns (r: Outcome<CryptoError>)
      requires Valid() && raw == FieldBytes(f) && fields + [f] <= plan
      modifies this
      ensures Valid()
      ensures r.Pass? <==> |old(bytes)| + |raw| <= MAX_TRANSCRIPT_BYTES
      ensures r.Pass? ==> fields == old(fields) + [f] && bytes == old(bytes) + raw
      ensures r.Fail? ==> r.error == TranscriptTooLarge && unchanged(this) && |Encode(plan)| > MAX_TRANSCRIPT_BYTES
    {
      EncodeAppend(fields, f);
      PrefixFits(fields + [f], plan);
      if |bytes| + |raw| > MAX_TRANSCRIPT_BYTES {
        return Fail(TranscriptTooLarge);
      }
      bytes := bytes + raw;
      fields := fields + [f];
      return Pass;
    }

    method AppendBytes(value: Bytes) returns (r: Outcome<CryptoError>)
      requires Valid() && fields + [Prefixed(value)] <= plan
      modifies this
      ensures Valid()
      ensures r.Pass? <==> |old(bytes)| + 4 + |value| <= MAX_TRANSCRIPT_BYTES
      ensures r.Pass? ==> fields == old(fields) + [Prefixed(value)]
                          && bytes == old(bytes) + BigEndian(4, |value|) + value
      ensures r.Fail? ==> r.error == TranscriptTooLarge && unchanged(this) && |Encode(plan)| > MAX_TRANSCRIPT_BYTES
    {
      r := Append(Prefixed(value), BigEndian(4, |value|) + value);
      assert old(bytes) + (BigEndian(4, |value|) + value) == old(bytes) + BigEndian(4, |value|) + value;
    }

    /** `append_u16`, `append_u32` and `append_u64`, for widths 2, 4 and 8. */
    method AppendInteger(width: nat, value: nat) returns (r: Outcome<CryptoError>)
      requires Valid() && fields + [Fixed(BigEndian(width, value))] <= plan
      modifies this
      ensures Valid()
      ensures r.Pass? <==> |old(bytes)| + width <= MAX_TRANSCRIPT_BYTES
      ensures r.Pass? ==> fields == old(fields) + [Fixed(BigEndian(width, value))]
                          && bytes == old(bytes) + BigEndian(width, value)
      ensures r.Fail? ==> r.error == TranscriptTooLarge && unchanged(this) && |Encode(plan)| > MAX_TRANSCRIPT_BYTES
    {
      r := Append(Fixed(BigEndian(width, value)), BigEndian(width, value));
    }
  }
}
