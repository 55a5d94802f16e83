/** The heads of CBOR items: definite, and written in their shortest form. */
module CborHeads {
  import opened Basics
  import opened Cbor

  /** What is written is the shortest head of all that are read as it. */
  lemma HeadIsShortest(major: nat, b: Bytes)
    requires major < 8 && ReadHead(major, b).Ok?
    ensures ReadHead(major, b).value.0 < 0x1_0000_0000_0000_0000
    ensures |Head(major, ReadHead(major, b).value.0)| <= ReadHead(major, b).value.1
  {
    HeadsAreDefinite(major, b);
    var w := ReadHead(major, b).value.1 - 1;
    BytePowers();
    if w > 0 { ValueBound(256, b[1..1 + w]); }
  }

  /** Reserved and indefinite lengths are refused, and a head is of the type it is read as. */
  lemma HeadsAreDefinite(major: nat, b: Bytes)
    requires major < 8 && ReadHead(major, b).Ok?
    ensures b[0] / 32 == major && b[0] % 32 < 28
    ensures ReadHead(major, b).value.0 < 0x1_0000_0000_0000_0000
  {
    var w := ReadHead(major, b).value.1 - 1;
    BytePowers();
    if w > 0 { ValueBound(256, b[1..1 + w]); }
  }
}
