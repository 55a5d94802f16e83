/** Documents at which a dotenv merge does less than one would expect. */
module DotenvCases {
  import opened Basics
  import opened Dotenv
  import opened DotenvText
  import opened DotenvMerge
  import opened DotenvResults

  // ------------------------------------------------------------- small documents

  lemma OneLineOf(line: string)
    requires IsLine(line)
    ensures Lines(line) == [line] && Concat([line]) == line
  {
    assert WellSplit([line]);
    ConcatSplits([line]);
    OneLine();
  }

  lemma TwoLinesOf(a: string, b: string)
    requires IsLine(a) && Terminated(a) && IsLine(b)
    ensures Lines(a + b) == [a, b] && Concat([a, b]) == a + b
  {
    assert WellSplit([a, b]);
    ConcatSplits([a, b]);
    assert [a, b][1..] == [b];
    OneLine();
  }

  lemma OneDeclared(reader: Reader, line: string, key: string, value: string)
    requires reader(line) == Declares(key, value)
    ensures Environment(reader, [line]) == map[key := value]
  {
    assert [line][..0] == [] && Environment(reader, []) == map[];
  }

  /** A document of one declaration. */
  predicate IsOne(reader: Reader, line: string, key: string, value: string) {
    IsLine(line) && ByteLength(line) <= MAX_PAYLOAD_BYTES && reader(line) == Declares(key, value) && Clean(key, value)
  }

  lemma ReadsOne(reader: Reader, line: string, key: string, value: string)
    requires IsOne(reader, line, key, value)
    ensures Parsed(reader, line) == Ok(map[key := value])
  {
    hide ByteLength, Environment, Lines;
    OneLineOf(line);
    OneDeclared(reader, line, key, value);
    assert Readable(reader, [line][0]);
  }

  /** A document of two declarations of one key, of which the second wins. */
  lemma ReadsTwo(reader: Reader, a: string, b: string, key: string, v: string, w: string)
    requires IsOne(reader, a, key, v) && IsOne(reader, b, key, w) && Terminated(a)
    requires ByteLength(a + b) <= MAX_PAYLOAD_BYTES
    ensures Parsed(reader, a + b) == Ok(map[key := w]) && Lines(a + b) == [a, b]
    ensures Environment(reader, [a, b]) == map[key := w]
  {
    hide ByteLength, Lines;
    TwoLinesOf(a, b);
    OneDeclared(reader, a, key, v);
    assert [a, b][..1] == [a];
    assert map[key := v][key := w] == map[key := w];
    assert Environment(reader, [a, b]) == map[key := w];
    assert Readable(reader, a) && Readable(reader, b);
    assert AllReadable(reader, [a, b]);
  }

  // ------------------------------------------------- keys that are found elsewhere

  /**
   A library that reads a key in a line where `declaration_key` finds another makes
   replacing that key fail: no line is found to rewrite.
   */
  lemma UnfoundKeyFails(reader: Reader, line: string, received: string, key: string, v: string, w: string)
    requires IsOne(reader, line, key, v) && IsOne(reader, received, key, w) && DeclarationKey(line) != Some(key)
    ensures Parsed(reader, received) == Ok(map[key := w])
    ensures Merged(reader, line, received, ReplaceExisting, [key]) == Err(Transfer)
  {
    hide DeclarationKey, Lines, Environment, IsOne;
    ReadsOne(reader, line, key, v);
    ReadsOne(reader, received, key, w);
    assert IsLine(line) by { OneIsLine(reader, line, key, v); }
    OneLineOf(line);
    hide Parsed, IsLine;
    assert [line][..0] == [] && FinalLine([], key) == None;
    assert FinalLine([line], key) == None;
    assert [key][..0] == [];
    assert Drafted([line], map[key := v], map[key := w], ReplaceExisting, NewlineOf(line), []).Ok?;
    assert Drafted([line], map[key := v], map[key := w], ReplaceExisting, NewlineOf(line), [key]) == Err(Transfer);
  }

  lemma OneIsLine(reader: Reader, line: string, key: string, value: string)
    requires IsOne(reader, line, key, value)
    ensures IsLine(line)
  {
  }

  lemma RewritesFirst(first: string, second: string, key: string, w: string, text: string, newline: string)
    requires DeclarationKey(first) == Some(key) && DeclarationKey(second) != Some(key)
    requires text == Normalized(key, w, newline)
    ensures forall v :: Drafted([first, second], map[key := v], map[key := w], ReplaceExisting, newline, [key])
                     == Ok(Draft([text, second], [], Summary(0, 1, 0)))
  {
    hide DeclarationKey, Normalized;
    assert [first, second][..1] == [first] && [key][..0] == [];
    assert FinalLine([first], key) == Some(0);
    assert FinalLine([first, second], key) == Some(0);
    assert [first, second][0 := text] == [text, second];
  }

  /** Or makes it rewrite an earlier line: the received value is written, counted, and lost. */
  lemma UnfoundKeyIsLost(reader: Reader, first: string, second: string, received: string, key: string,
                         u: string, v: string, w: string, text: string)
    requires IsOne(reader, first, key, u) && IsOne(reader, second, key, v) && IsOne(reader, received, key, w)
    requires Terminated(first) && ByteLength(first + second) <= MAX_PAYLOAD_BYTES
    requires DeclarationKey(first) == Some(key) && DeclarationKey(second) != Some(key)
    requires text == Normalized(key, w, NewlineOf(first + second)) && IsOne(reader, text, key, w)
    requires Terminated(text) && ByteLength(text + second) <= MAX_PAYLOAD_BYTES
    ensures Parsed(reader, received) == Ok(map[key := w])
    ensures Merged(reader, first + second, received, ReplaceExisting, [key]) == Ok((text + second, Summary(0, 1, 0)))
    ensures Environment(reader, Lines(text + second)) == map[key := v]
  {
    hide DeclarationKey, Normalized, ByteLength, Lines, Environment, IsOne, Parsed, NewlineOf, Drafted, Terminated;
    ReadsTwo(reader, first, second, key, u, v);
    ReadsTwo(reader, text, second, key, w, v);
    ReadsOne(reader, received, key, w);
    RewritesFirst(first, second, key, w, text, NewlineOf(first + second));
    OneIsLine(reader, text, key, w);
    OneIsLine(reader, second, key, v);
    TwoLinesOf(text, second);
  }

  // ------------------------------------------------------------ a tab after export

  /** An exported declaration with a tab after the keyword, as a library may read it. */
  const TABBED := "export\tA=1\n"

  lemma NotWhitespace()
    ensures !IsWhitespace('e') && !IsWhitespace('A')
  {
  }

  /** `declaration_key` takes the tab for a part of the key. */
  lemma TabbedKey()
    ensures DeclarationKey(TABBED) == Some("export\tA")
  {
    hide IsWhitespace, TrimStart, TrimEnd, BeforeEquals;
    NotWhitespace();
    var before := "export\tA";
    assert TABBED == before + "=" + "1\n";
    BeforeFirstEquals(before, "1\n");
    TrimsStart("", TABBED);
    assert "" + TABBED == TABBED;
    TrimsStart("", before);
    assert "" + before == before;
    TrimsEnd(before, "");
    assert before + "" == before;
    assert !("export " <= TABBED) by { assert TABBED[6] == '\t' && "export "[6] == ' '; }
  }

  lemma PlainKeyOf(rest: string)
    ensures DeclarationKey("A=" + rest) == Some("A")
  {
    assert ("A" + "" + "=" + rest)[0] == 'A' && "export "[0] == 'e';
    DeclarationsAreFound("", false, "", "A", "", rest);
    assert "" + ("" + ("A" + "" + "=" + rest)) == "A=" + rest;
  }

  lemma {:induction false} ByteBound(text: string)
    ensures ByteLength(text) <= 4 * |text|
  {
    if text != "" { ByteBound(text[..|text| - 1]); }
  }

  lemma TabbedDiffers()
    ensures DeclarationKey(TABBED) != Some("A")
  {
    hide DeclarationKey;
    TabbedKey();
    assert |"A"| != |"export\tA"|;
  }

  /** For any library that reads past the tab, replacing a variable declared so fails. */
  lemma TabbedMergeFails(reader: Reader)
    requires reader(TABBED) == Declares("A", "1") && reader("A=2\n") == Declares("A", "2")
    ensures Parsed(reader, "A=2\n") == Ok(map["A" := "2"])
    ensures Merged(reader, TABBED, "A=2\n", ReplaceExisting, ["A"]) == Err(Transfer)
  {
    hide DeclarationKey, ByteLength;
    TabbedDiffers();
    ByteBound(TABBED);
    ByteBound("A=2\n");
    UnfoundKeyFails(reader, TABBED, "A=2\n", "A", "1", "2");
  }

  lemma WrittenIs(newline: string)
    ensures Normalized("A", "2", newline) == "A=\"2\"" + newline
  {
    assert "2"[..0] == "" && Escaped("2") == "2";
  }

  /** The lines of the example, as documents of their own. */
  lemma ExampleLines(reader: Reader, digit: char, quoted: bool)
    requires digit in "02" && var line := if quoted then "A=\"2\"\n" else ['A', '=', digit, '\n'];
             reader(line) == Declares("A", if quoted then "2" else [digit])
    ensures var line := if quoted then "A=\"2\"\n" else ['A', '=', digit, '\n'];
            IsOne(reader, line, "A", if quoted then "2" else [digit]) && Terminated(line)
  {
    hide ByteLength;
    ByteBound(if quoted then "A=\"2\"\n" else ['A', '=', digit, '\n']);
  }

  lemma TabbedIsOne(reader: Reader)
    requires reader(TABBED) == Declares("A", "1")
    ensures IsOne(reader, TABBED, "A", "1")
  {
    hide ByteLength;
    ByteBound(TABBED);
  }

  /** And replacing one declared both ways writes the received value where it does not count. */
  lemma TabbedMergeIsLost(reader: Reader)
    requires reader("A=0\n") == Declares("A", "0") && reader(TABBED) == Declares("A", "1")
    requires reader("A=2\n") == Declares("A", "2") && reader("A=\"2\"\n") == Declares("A", "2")
    ensures Parsed(reader, "A=2\n") == Ok(map["A" := "2"])
    ensures Merged(reader, "A=0\n" + TABBED, "A=2\n", ReplaceExisting, ["A"])
         == Ok(("A=\"2\"\n" + TABBED, Summary(0, 1, 0)))
    ensures Environment(reader, Lines("A=\"2\"\n" + TABBED)) == map["A" := "1"]
  {
    hide DeclarationKey, ByteLength, NewlineOf, Normalized, IsOne, Parsed, Merged, Environment, Terminated;
    var first, received, written := "A=0\n", "A=2\n", "A=\"2\"\n";
    NoCarriageReturn();
    WrittenIs("\n");
    assert written == "A=\"2\"" + "\n";
    PlainKeyOf("0\n");
    assert first == "A=" + "0\n" && first == ['A', '=', '0', '\n'] && received == ['A', '=', '2', '\n'];
    assert ['0'] == "0" && ['2'] == "2";
    TabbedDiffers();
    TabbedIsOne(reader);
    ExampleLines(reader, '0', false);
    ExampleLines(reader, '2', false);
    ExampleLines(reader, '2', true);
    ByteBound(first + TABBED);
    ByteBound(written + TABBED);
    UnfoundKeyIsLost(reader, first, TABBED, received, "A", "0", "1", "2", written);
  }

  lemma NoCarriageReturn()
    ensures NewlineOf("A=0\n" + TABBED) == "\n"
  {
    assert '\r' !in "A=0\n" + TABBED;
  }

  // ---------------------------------------------------------- a missing newline

  /** A last line without a newline gets one when a variable is added after it. */
  lemma NewlineIsAdded(reader: Reader, line: string, received: string, key: string, other: string, v: string, w: string)
    requires IsOne(reader, line, key, v) && !Terminated(line) && IsOne(reader, received, other, w) && key != other
    requires '\n' !in other && ByteLength(line + "\n" + Normalized(other, w, "\n")) <= MAX_PAYLOAD_BYTES
    ensures Parsed(reader, received) == Ok(map[other := w])
    ensures var text := line + "\n" + Normalized(other, w, "\n");
            && Merged(reader, line, received, KeepExisting, [other]) == Ok((text, Summary(1, 0, 0)))
            && Lines(line) == [line] && Lines(text) == [line + "\n", Normalized(other, w, "\n")]
  {
    hide ByteLength, Lines, Environment, Normalized, Parsed;
    ReadsOne(reader, line, key, v);
    ReadsOne(reader, received, other, w);
    OneLineOf(line);
    assert NewlineOf(line) == "\n";
    NormalizedIsLine(other, w, "\n");
    var added := Normalized(other, w, "\n");
    TwoLinesOf(line + "\n", added);
    assert [other][..0] == [];
    assert Drafted([line], map[key := v], map[other := w], KeepExisting, "\n", [])
           == Ok(Draft([line], [], Summary(0, 0, 0)));
    assert other !in map[key := v] && map[other := w][other] == w && [] + [added] == [added];
    var draft := Drafted([line], map[key := v], map[other := w], KeepExisting, "\n", [other]);
    assert draft == Ok(Draft([line], [added], Summary(1, 0, 0)));
    OneLineOf(added);
  }

  /** For one: a document `A=0` without a final newline, and `B=1` received. */
  lemma NewlineIsAddedHere(reader: Reader)
    requires reader("A=0") == Declares("A", "0") && reader("B=1\n") == Declares("B", "1")
    ensures Parsed(reader, "B=1\n") == Ok(map["B" := "1"])
    ensures exists text :: && Merged(reader, "A=0", "B=1\n", KeepExisting, ["B"]) == Ok((text, Summary(1, 0, 0)))
                           && Lines("A=0") == ["A=0"] && Lines(text) == ["A=0" + "\n", "B=\"1\"\n"]
  {
    hide ByteLength, Parsed, Merged, Lines;
    assert Normalized("B", "1", "\n") == "B=\"1\"\n" by {
      assert "1"[..0] == "" && Escaped("1") == "1";
    }
    ByteBound("A=0");
    ByteBound("B=1\n");
    ByteBound("A=0" + "\n" + "B=\"1\"\n");
    assert "A" != "B" by { assert "A"[0] != "B"[0]; }
    NewlineIsAdded(reader, "A=0", "B=1\n", "A", "B", "0", "1");
  }
}
