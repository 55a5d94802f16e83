/** The text of dotenv documents: escaping, splitting into lines, and finding keys. */
module DotenvText {
  import opened Basics
  import opened Dotenv

  // ------------------------------------------------------------------- escaping

  function UnescapedChar(c: char): Option<char> {
    if c == '\\' || c == '"' || c == '$' then Some(c)
    else if c == 'n' then Some('\n')
    else if c == 'r' then Some('\r')
    else if c == 't' then Some('\t')
    else None
  }

  /**
   Reading a quoted value up to its closing quote: what it denotes and what follows.
   An unescaped dollar or a raw line break is not accepted.
   */
  function Unquoted(text: string): Option<(string, string)> {
    if text == "" || text[0] in {'$', '\n', '\r', '\t'} then None
    else if text[0] == '"' then Some(("", text[1..]))
    else if text[0] != '\\' then Prefixed(text[0], Unquoted(text[1..]))
    else if |text| == 1 || UnescapedChar(text[1]).None? then None
    else Prefixed(UnescapedChar(text[1]).value, Unquoted(text[2..]))
  }

  function Prefixed(c: char, rest: Option<(string, string)>): Option<(string, string)> {
    match rest
    case Some((value, tail)) => Some(([c] + value, tail))
    case None => None
  }

  lemma {:induction false} EscapedFront(c: char, value: string)
    ensures Escaped([c] + value) == EscapedChar(c) + Escaped(value)
  {
    hide EscapedChar;
    var whole := [c] + value;
    var n := |value| - 1;
    if value == "" {
      assert whole[..0] == "";
    } else {
      EscapedFront(c, value[..n]);
      assert whole[..|whole| - 1] == [c] + value[..n] && whole[|whole| - 1] == value[n];
      assert EscapedChar(c) + Escaped(value[..n]) + EscapedChar(value[n])
             == EscapedChar(c) + (Escaped(value[..n]) + EscapedChar(value[n]));
    }
  }

  /**
   A value escaped and quoted reads back as itself, up to the first unescaped quote,
   whatever follows; so it holds no raw line break and no unescaped quote or dollar.
   */
  lemma {:induction false} EscapedReadsBack(value: string, rest: string)
    ensures Unquoted(Escaped(value) + "\"" + rest) == Some((value, rest))
  {
    if value == "" {
      assert Escaped(value) + "\"" + rest == "\"" + rest;
    } else {
      var c, tail := value[0], value[1..];
      assert value == [c] + tail;
      EscapedFront(c, tail);
      var text, more := Escaped(value) + "\"" + rest, Escaped(tail) + "\"" + rest;
      EscapedReadsBack(tail, rest);
      assert text == EscapedChar(c) + more;
      UnquotedOne(c, more);
    }
  }

  lemma UnquotedOne(c: char, more: string)
    ensures Unquoted(EscapedChar(c) + more) == Prefixed(c, Unquoted(more))
  {
    var text := EscapedChar(c) + more;
    if |EscapedChar(c)| == 1 {
      assert text[1..] == more;
    } else {
      assert text[2..] == more;
    }
  }

  lemma EscapedInjective(a: string, b: string)
    requires Escaped(a) == Escaped(b)
    ensures a == b
  {
    EscapedReadsBack(a, "");
    EscapedReadsBack(b, "");
  }

  lemma {:induction false} EscapedOneLine(value: string)
    ensures '\n' !in Escaped(value)
  {
    hide EscapedChar;
    if value != "" {
      EscapedOneLine(value[..|value| - 1]);
      EscapedCharOneLine(value[|value| - 1]);
    }
  }

  lemma EscapedCharOneLine(c: char)
    ensures '\n' !in EscapedChar(c)
  {
    if |EscapedChar(c)| > 1 { assert EscapedChar(c) == [EscapedChar(c)[0], EscapedChar(c)[1]]; }
  }

  // ---------------------------------------------------------------------- lines

  predicate WellSplit(lines: seq<string>) {
    forall i :: 0 <= i < |lines| ==> IsLine(lines[i]) && (i < |lines| - 1 ==> Terminated(lines[i]))
  }

  lemma {:induction false} LinesSplit(text: string)
    ensures WellSplit(Lines(text)) && Concat(Lines(text)) == text
  {
    hide WellSplit, Concat, IsLine, Terminated, LineEnd;
    if text == "" {
      NoLines();
    } else {
      var line, rest := text[..LineEnd(text)], text[LineEnd(text)..];
      LinesSplit(rest);
      FirstLine(text);
      assert Lines(rest) != [] ==> rest != "";
      OneMoreLine(line, Lines(rest));
      assert Lines(text) == [line] + Lines(rest);
      ConcatFront(line, Lines(rest));
      assert text == line + rest;
    }
  }

  lemma FirstLine(text: string)
    requires text != ""
    ensures IsLine(text[..LineEnd(text)])
    ensures LineEnd(text) < |text| ==> Terminated(text[..LineEnd(text)])
  {
  }

  lemma ConcatFront(line: string, lines: seq<string>)
    ensures Concat([line] + lines) == line + Concat(lines)
  {
    assert ([line] + lines)[1..] == lines;
  }

  lemma NoLines()
    ensures WellSplit([]) && Concat([]) == ""
  {
  }

  lemma OneMoreLine(line: string, lines: seq<string>)
    requires IsLine(line) && (lines != [] ==> Terminated(line)) && WellSplit(lines)
    ensures WellSplit([line] + lines)
  {
    hide IsLine, Terminated;
    var more := [line] + lines;
    assert forall i :: 0 < i < |more| ==> more[i] == lines[i - 1];
  }

  lemma {:induction false} ConcatSplits(lines: seq<string>)
    requires WellSplit(lines)
    ensures Lines(Concat(lines)) == lines
  {
    if lines != [] {
      var text, rest := Concat(lines), Concat(lines[1..]);
      ConcatSplits(lines[1..]);
      LineEndIs(lines[0], rest);
      assert text[..|lines[0]|] == lines[0] && text[|lines[0]|..] == rest;
    }
  }

  lemma {:induction false} LineEndIs(line: string, rest: string)
    requires IsLine(line) && (rest != "" ==> Terminated(line))
    ensures LineEnd(line + rest) == |line|
  {
    var text := line + rest;
    if |line| == 1 {
      assert text[0] == line[0];
    } else {
      assert text[1..] == line[1..] + rest;
      LineEndIs(line[1..], rest);
    }
  }

  lemma {:induction false} ConcatJoin(a: seq<string>, b: seq<string>)
    ensures Concat(a + b) == Concat(a) + Concat(b)
  {
    if a == [] {
      assert a + b == b;
    } else {
      ConcatJoin(a[1..], b);
      assert (a + b)[1..] == a[1..] + b;
    }
  }

  predicate IsNewline(newline: string) {
    newline == "\n" || newline == "\r\n"
  }

  lemma NormalizedIsLine(key: string, value: string, newline: string)
    requires '\n' !in key && IsNewline(newline)
    ensures IsLine(Normalized(key, value, newline)) && Terminated(Normalized(key, value, newline))
  {
    EscapedOneLine(value);
    var front := key + "=\"" + Escaped(value) + "\"";
    assert '\n' !in front;
    var line := front + newline;
    assert line == Normalized(key, value, newline);
    forall i | 0 <= i < |line| - 1 ensures line[i] != '\n' {
      if i < |front| {
        assert line[i] == front[i] && front[i] in front;
      } else {
        assert line[i] == newline[i - |front|];
      }
    }
  }

  // ----------------------------------------------------------------------- keys

  lemma {:induction false} TrimKeeps(text: string, c: char)
    requires c !in text
    ensures c !in TrimStart(text) && c !in TrimEnd(text)
    decreases |text|
  {
    if text != "" {
      TrimKeeps(text[1..], c);
      TrimKeeps(text[..|text| - 1], c);
    }
  }

  lemma {:induction false} TrimStartEnds(text: string)
    requires text == "" || IsLine(text)
    ensures TrimStart(text) == "" || IsLine(TrimStart(text))
  {
    if text != "" && IsWhitespace(text[0]) { TrimStartEnds(text[1..]); }
  }

  lemma {:induction false} BeforeEqualsClean(text: string)
    requires (text == "" || IsLine(text)) && BeforeEquals(text).Some?
    ensures '\n' !in BeforeEquals(text).value
  {
    if text[0] != '=' { BeforeEqualsClean(text[1..]); }
  }

  predicate AllWhitespace(text: string) {
    forall i :: 0 <= i < |text| ==> IsWhitespace(text[i])
  }

  /** No whitespace, no equals sign, no comment sign in front. */
  predicate PlainKey(key: string) {
    key != "" && key[0] != '#' && forall i :: 0 <= i < |key| ==> !IsWhitespace(key[i]) && key[i] != '='
  }

  lemma {:induction false} TrimsStart(space: string, text: string)
    requires AllWhitespace(space) && (text != "" ==> !IsWhitespace(text[0]))
    ensures TrimStart(space + text) == text
  {
    hide IsWhitespace;
    if space == "" {
      assert space + text == text;
    } else {
      assert (space + text)[0] == space[0] && (space + text)[1..] == space[1..] + text;
      TrimsStart(space[1..], text);
    }
  }

  lemma {:induction false} TrimsEnd(text: string, space: string)
    requires AllWhitespace(space) && (text != "" ==> !IsWhitespace(text[|text| - 1]))
    ensures TrimEnd(text + space) == text
  {
    hide IsWhitespace;
    if space == "" {
      assert text + space == text;
    } else {
      var n := |space| - 1;
      var whole := text + space;
      assert whole[|whole| - 1] == space[n] && whole[..|whole| - 1] == text + space[..n];
      TrimsEnd(text, space[..n]);
    }
  }

  lemma {:induction false} BeforeFirstEquals(before: string, rest: string)
    requires '=' !in before
    ensures BeforeEquals(before + "=" + rest) == Some(before)
  {
    var text := before + "=" + rest;
    if before != "" {
      BeforeFirstEquals(before[1..], rest);
      assert text[1..] == before[1..] + "=" + rest && text[0] == before[0];
      assert before[0] in before && before == [before[0]] + before[1..];
    }
  }

  /** A line without an equals sign declares nothing. */
  lemma {:induction false} NoEqualsNoKey(text: string)
    requires '=' !in text
    ensures BeforeEquals(text).None?
  {
    if text != "" { NoEqualsNoKey(text[1..]); }
  }

  lemma NoEqualsDeclaresNothing(line: string)
    requires '=' !in line
    ensures DeclarationKey(line).None?
  {
    hide BeforeEquals, IsWhitespace;
    var trimmed := TrimStart(line);
    TrimKeeps(line, '=');
    if "export " <= trimmed {
      TrimKeeps(trimmed[7..], '=');
      NoEqualsNoKey(TrimStart(trimmed[7..]));
    }
    NoEqualsNoKey(trimmed);
  }

  lemma {:induction false} TrimStartShape(text: string)
    ensures TrimStart(text) != "" ==> !IsWhitespace(TrimStart(text)[0])
  {
    if text != "" && IsWhitespace(text[0]) { TrimStartShape(text[1..]); }
  }

  lemma {:induction false} TrimEndShape(text: string)
    ensures TrimEnd(text) <= text
    ensures TrimEnd(text) != "" ==> !IsWhitespace(TrimEnd(text)[|TrimEnd(text)| - 1])
    decreases |text|
  {
    hide IsWhitespace;
    if text != "" && IsWhitespace(text[|text| - 1]) {
      TrimEndShape(text[..|text| - 1]);
      assert text[..|text| - 1] <= text;
    }
  }

  lemma {:induction false} BeforeEqualsShape(text: string)
    requires BeforeEquals(text).Some?
    ensures '=' !in BeforeEquals(text).value
  {
    if text[0] != '=' { BeforeEqualsShape(text[1..]); }
  }

  /** The key of a declaration: not empty, without an equals sign, without space around it. */
  lemma KeyShape(line: string)
    requires DeclarationKey(line).Some?
    ensures var key := DeclarationKey(line).value;
            key != "" && '=' !in key && !IsWhitespace(key[0]) && !IsWhitespace(key[|key| - 1])
  {
    hide TrimStart, TrimEnd, BeforeEquals, IsWhitespace;
    var trimmed := TrimStart(line);
    var declaration := if "export " <= trimmed then TrimStart(trimmed[7..]) else trimmed;
    var before := BeforeEquals(declaration).value;
    BeforeEqualsShape(declaration);
    TrimKeeps(before, '=');
    TrimKeeps(TrimStart(before), '=');
    TrimStartShape(before);
    TrimEndShape(TrimStart(before));
  }

  /** Line ends are those of the document: carriage returns exactly if it has any in front of a newline. */
  lemma NewlineIs(text: string)
    ensures NewlineOf(text) == "\r\n" <==> exists a: string, b: string :: text == a + "\r\n" + b
    ensures NewlineOf(text) == "\r\n" || NewlineOf(text) == "\n"
  {
    if HasCrLf(text) {
      var i :| 0 <= i < |text| - 1 && text[i] == '\r' && text[i + 1] == '\n';
      assert text == text[..i] + "\r\n" + text[i + 2..];
    }
    if a: string, b: string :| text == a + "\r\n" + b {
      assert text[|a|] == '\r' && text[|a| + 1] == '\n';
    }
  }

  /** A comment line, indented or not, declares nothing. */
  lemma CommentsDeclareNothing(indent: string, comment: string)
    requires AllWhitespace(indent)
    ensures DeclarationKey(indent + ("#" + comment)) == None
  {
    TrimsStart(indent, "#" + comment);
  }

  lemma PaddedKey(key: string, pad: string, rest: string)
    requires PlainKey(key) && AllWhitespace(pad)
    ensures BeforeEquals(key + pad + "=" + rest) == Some(key + pad)
    ensures TrimEnd(TrimStart(key + pad)) == key
  {
    assert '=' !in key + pad;
    BeforeFirstEquals(key + pad, rest);
    TrimsStart("", key + pad);
    assert "" + (key + pad) == key + pad;
    TrimsEnd(key, pad);
  }

  /**
   Any declaration of a plain key is found: indented or not, with space before the equals
   sign or not, exported or not.  (A variable called `export` with a space before its
   equals sign is not, since that reads as the keyword.)
   */
  lemma DeclarationsAreFound(indent: string, exported: bool, gap: string, key: string, pad: string, rest: string)
    requires AllWhitespace(indent) && AllWhitespace(gap) && AllWhitespace(pad) && PlainKey(key)
    requires exported || !("export " <= key + pad + "=" + rest)
    ensures DeclarationKey(indent + ((if exported then "export " + gap else "") + (key + pad + "=" + rest)))
            == Some(key)
  {
    hide TrimStart, TrimEnd, BeforeEquals, IsWhitespace;
    var declaration := key + pad + "=" + rest;
    var trimmed := (if exported then "export " + gap else "") + declaration;
    assert declaration[0] == key[0];
    PaddedKey(key, pad, rest);
    TrimsStart(gap, declaration);
    if exported {
      assert trimmed == "export " + (gap + declaration);
      assert trimmed[7..] == gap + declaration;
      assert trimmed[0] == 'e' && !IsWhitespace('e') by { LetterE(); }
    } else {
      assert trimmed == declaration;
    }
    TrimsStart(indent, trimmed);
  }

  lemma LetterE()
    ensures !IsWhitespace('e')
  {
  }

  /** A key lies before an equals sign, so the line break at the end is no part of it. */
  lemma KeyOneLine(line: string)
    requires IsLine(line) && DeclarationKey(line).Some?
    ensures '\n' !in DeclarationKey(line).value
  {
    var trimmed := TrimStart(line);
    TrimStartEnds(line);
    hide TrimStart, TrimEnd, BeforeEquals, IsWhitespace;
    var declaration := if "export " <= trimmed then TrimStart(trimmed[7..]) else trimmed;
    if "export " <= trimmed { TrimStartEnds(trimmed[7..]); }
    BeforeEqualsClean(declaration);
    var before := BeforeEquals(declaration).value;
    TrimKeeps(before, '\n');
    TrimKeeps(TrimStart(before), '\n');
  }

  // ------------------------------------------------------------------- assembly

  /** The document's lines with the last one ended, if more is to follow. */
  function Ended(lines: seq<string>, newline: string, more: bool): seq<string> {
    var n := |lines| - 1;
    if more && lines != [] && !Terminated(lines[n]) then lines[..n] + [lines[n] + newline] else lines
  }

  lemma {:induction false} ConcatEnds(lines: seq<string>)
    requires forall i :: 0 <= i < |lines| ==> lines[i] != ""
    ensures Concat(lines) == "" <==> lines == []
    ensures lines != [] ==> (Terminated(Concat(lines)) <==> Terminated(lines[|lines| - 1]))
  {
    if |lines| > 1 {
      ConcatEnds(lines[1..]);
    } else if |lines| == 1 {
      assert Concat(lines[1..]) == "" && Concat(lines) == lines[0];
    }
  }

  lemma EndedConcat(lines: seq<string>, newline: string, more: bool)
    requires WellSplit(lines) && IsNewline(newline)
    ensures var body := Concat(lines);
            var end := if more && body != "" && !Terminated(body) then newline else "";
            Concat(Ended(lines, newline, more)) == body + end
  {
    ConcatEnds(lines);
    var n := |lines| - 1;
    if more && lines != [] && !Terminated(lines[n]) {
      ConcatJoin(lines[..n], [lines[n]]);
      ConcatJoin(lines[..n], [lines[n] + newline]);
      assert lines == lines[..n] + [lines[n]];
      assert forall line :: Concat([line]) == line by { OneLine(); }
    }
  }

  lemma OneLine()
    ensures forall line :: Concat([line]) == line
  {
    forall line ensures Concat([line]) == line {
      assert [line][1..] == [] && line + "" == line;
    }
  }

  lemma EndedSplits(lines: seq<string>, newline: string, added: seq<string>)
    requires WellSplit(lines) && IsNewline(newline)
    requires forall i :: 0 <= i < |added| ==> IsLine(added[i]) && Terminated(added[i])
    ensures WellSplit(Ended(lines, newline, added != []) + added)
  {
    var ended := Ended(lines, newline, added != []);
    forall i | 0 <= i < |ended| ensures IsLine(ended[i]) && (i < |ended| - 1 || added != [] ==> Terminated(ended[i])) {
      assert IsLine(lines[i]);
    }
    hide IsLine, Terminated, Ended;
    var all_ := ended + added;
    assert forall i :: 0 <= i < |all_| ==> all_[i] == if i < |ended| then ended[i] else added[i - |ended|];
  }

  /** The merged text splits into the document's lines, the last one ended, and the additions. */
  lemma AssembledLines(d: Draft, newline: string)
    requires WellSplit(d.lines) && IsNewline(newline)
    requires forall i :: 0 <= i < |d.additions| ==> IsLine(d.additions[i]) && Terminated(d.additions[i])
    ensures Lines(Assembled(d, newline)) == Ended(d.lines, newline, d.additions != []) + d.additions
  {
    hide WellSplit, IsLine, Terminated;
    var more := d.additions != [];
    var ended := Ended(d.lines, newline, more);
    EndedConcat(d.lines, newline, more);
    EndedSplits(d.lines, newline, d.additions);
    ConcatSplits(ended + d.additions);
    ConcatJoin(ended, d.additions);
    hide Ended;
    assert Concat([]) == "";
    assert Assembled(d, newline) == Concat(ended) + Concat(d.additions);
  }
}
