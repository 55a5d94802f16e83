/**
 Structure-preserving merge of dotenv documents.

 The grammar of one line belongs to a library and is a parameter, `Reader`; documents are
 read line by line, one declaration to a line.
 */
module Dotenv {
  import opened Basics

  datatype Line = Blank | Declares(key: string, value: string) | Malformed
  type Reader = string -> Line
  type Env = map<string, string>

  datatype Mode = ReplaceExisting | KeepExisting
  datatype Summary = Summary(added: nat, updated: nat, kept: nat)
  datatype Failure = Transfer

  // ------------------------------------------------------------------- text

  /** Length of a character in UTF-8. */
  function Width(c: char): nat {
    var code := c as int;
    if code < 0x80 then 1 else if code < 0x800 then 2 else if code < 0x1_0000 then 3 else 4
  }

  function ByteLength(text: string): nat {
    if text == "" then 0 else ByteLength(text[..|text| - 1]) + Width(text[|text| - 1])
  }

  /** Length of the first line, its newline included. */
  function LineEnd(text: string): (n: nat)
    requires text != ""
    ensures 1 <= n <= |text|
    ensures forall i :: 0 <= i < n - 1 ==> text[i] != '\n'
    ensures n < |text| ==> text[n - 1] == '\n'
  {
    if text[0] == '\n' || |text| == 1 then 1 else 1 + LineEnd(text[1..])
  }

  /** `split_inclusive('\n')` */
  function Lines(text: string): seq<string> {
    if text == "" then [] else [text[..LineEnd(text)]] + Lines(text[LineEnd(text)..])
  }

  function Concat(lines: seq<string>): string {
    if lines == [] then "" else lines[0] + Concat(lines[1..])
  }

  predicate Terminated(line: string) {
    line != "" && line[|line| - 1] == '\n'
  }

  /** A newline nowhere but at the end. */
  predicate IsLine(line: string) {
    line != "" && forall i :: 0 <= i < |line| - 1 ==> line[i] != '\n'
  }

  predicate HasCrLf(text: string) {
    exists i :: 0 <= i < |text| - 1 && text[i] == '\r' && text[i + 1] == '\n'
  }

  function NewlineOf(text: string): string {
    if HasCrLf(text) then "\r\n" else "\n"
  }

  // --------------------------------------------------------------- declarations

  predicate IsWhitespace(c: char) {
    var code := c as int;
    || 0x9 <= code <= 0xd || code == 0x20 || code == 0x85 || code == 0xa0 || code == 0x1680
    || 0x2000 <= code <= 0x200a || code == 0x2028 || code == 0x2029
    || code == 0x202f || code == 0x205f || code == 0x3000
  }

  function TrimStart(text: string): string {
    if text != "" && IsWhitespace(text[0]) then TrimStart(text[1..]) else text
  }

  function TrimEnd(text: string): string {
    if text != "" && IsWhitespace(text[|text| - 1]) then TrimEnd(text[..|text| - 1]) else text
  }

  /** What comes before the first equals sign. */
  function BeforeEquals(text: string): Option<string> {
    if text == "" then None
    else if text[0] == '=' then Some("")
    else match BeforeEquals(text[1..])
      case Some(rest) => Some([text[0]] + rest)
      case None => None
  }

  /** `declaration_key` */
  function DeclarationKey(line: string): Option<string> {
    var trimmed := TrimStart(line);
    if trimmed == "" || trimmed[0] == '#' then None else
    var declaration := if "export " <= trimmed then TrimStart(trimmed[7..]) else trimmed;
    match BeforeEquals(declaration)
    case None => None
    case Some(before) =>
      var key := TrimEnd(TrimStart(before));
      if key == "" then None else Some(key)
  }

  function EscapedChar(c: char): string {
    if c == '\\' then "\\\\"
    else if c == '"' then "\\\""
    else if c == '\n' then "\\n"
    else if c == '\r' then "\\r"
    else if c == '\t' then "\\t"
    else if c == '$' then "\\$"
    else [c]
  }

  function Escaped(value: string): string {
    if value == "" then "" else Escaped(value[..|value| - 1]) + EscapedChar(value[|value| - 1])
  }

  lemma EscapedNothing()
    ensures Escaped("") == ""
  {
  }

  lemma EscapedNext(output: string, value: string, i: nat)
    requires i < |value|
    ensures output + Escaped(value[..i + 1]) == output + Escaped(value[..i]) + EscapedChar(value[i])
  {
    assert value[..i + 1][..i] == value[..i];
  }

  /** `escape_value` */
  method EscapeValue(output: string, value: string) returns (extended: string)
    ensures extended == output + Escaped(value)
  {
    hide Escaped;
    extended := output;
    assert value[..0] == "" && Escaped("") == "" by { EscapedNothing(); }
    for i := 0 to |value|
      invariant extended == output + Escaped(value[..i])
    {
      EscapedNext(output, value, i);
      match value[i]
      case '\\' => extended := extended + "\\\\";
      case '"' => extended := extended + "\\\"";
      case '\n' => extended := extended + "\\n";
      case '\r' => extended := extended + "\\r";
      case '\t' => extended := extended + "\\t";
      case '$' => extended := extended + "\\$";
      case c => extended := extended + [c];
    }
    assert value[..|value|] == value;
  }

  function Normalized(key: string, value: string, newline: string): string {
    key + "=\"" + Escaped(value) + "\"" + newline
  }

  /** `normalized_declaration` */
  method NormalizedDeclaration(key: string, value: string, newline: string) returns (output: string)
    ensures output == Normalized(key, value, newline)
  {
    output := key + "=\"";
    output := EscapeValue(output, value);
    output := output + "\"" + newline;
  }

  // --------------------------------------------------------------- environments

  /** The last declaration of a key wins. */
  function Environment(reader: Reader, lines: seq<string>): Env {
    if lines == [] then map[] else
    var n := |lines| - 1;
    var before := Environment(reader, lines[..n]);
    match reader(lines[n])
    case Declares(key, value) => before[key := value]
    case _ => before
  }

  predicate Readable(reader: Reader, line: string) {
    match reader(line)
    case Blank => true
    case Declares(key, value) => '\0' !in key && '\0' !in value
    case Malformed => false
  }

  predicate AllReadable(reader: Reader, lines: seq<string>) {
    forall i :: 0 <= i < |lines| ==> Readable(reader, lines[i])
  }

  function Parsed(reader: Reader, text: string): Result<Env, Failure> {
    if ByteLength(text) > MAX_PAYLOAD_BYTES || !AllReadable(reader, Lines(text)) then Err(Transfer)
    else Ok(Environment(reader, Lines(text)))
  }

  /** `ParsedEnvironment::parse` on one declaration per line */
  method Parse(reader: Reader, text: string) returns (r: Result<Env, Failure>)
    ensures r == Parsed(reader, text)
  {
    if ByteLength(text) > MAX_PAYLOAD_BYTES { return Err(Transfer); }
    var lines := Lines(text);
    var variables: Env := map[];
    for i := 0 to |lines|
      invariant AllReadable(reader, lines[..i]) && variables == Environment(reader, lines[..i])
    {
      assert lines[..i + 1][..i] == lines[..i];
      match reader(lines[i])
      case Blank =>
      case Malformed => return Err(Transfer);
      case Declares(key, value) =>
        if '\0' in key || '\0' in value { return Err(Transfer); }
        variables := variables[key := value];
    }
    assert lines[..|lines|] == lines;
    r := Ok(variables);
  }

  // ---------------------------------------------------------------------- merge

  /** The last line that declares a key. */
  function FinalLine(lines: seq<string>, key: string): Option<nat> {
    if lines == [] then None
    else if DeclarationKey(lines[|lines| - 1]) == Some(key) then Some(|lines| - 1)
    else FinalLine(lines[..|lines| - 1], key)
  }

  lemma {:induction false} FinalLineDeclares(lines: seq<string>, key: string)
    ensures match FinalLine(lines, key)
            case Some(j) => j < |lines| && DeclarationKey(lines[j]) == Some(key)
                            && forall i :: j < i < |lines| ==> DeclarationKey(lines[i]) != Some(key)
            case None => forall i :: 0 <= i < |lines| ==> DeclarationKey(lines[i]) != Some(key)
  {
    if lines != [] { FinalLineDeclares(lines[..|lines| - 1], key); }
  }

  method FinalDeclarations(lines: seq<string>) returns (finals: map<string, nat>)
    ensures forall key :: key in finals <==> FinalLine(lines, key).Some?
    ensures forall key :: key in finals ==> FinalLine(lines, key) == Some(finals[key])
  {
    finals := map[];
    for i := 0 to |lines|
      invariant forall key :: key in finals <==> FinalLine(lines[..i], key).Some?
      invariant forall key :: key in finals ==> FinalLine(lines[..i], key) == Some(finals[key])
    {
      assert lines[..i + 1][..i] == lines[..i];
      var key := DeclarationKey(lines[i]);
      if key.Some? { finals := finals[key.value := i]; }
    }
    assert lines[..|lines|] == lines;
  }

  datatype Draft = Draft(lines: seq<string>, additions: seq<string>, summary: Summary)

  /** The variables received, as the ordered map lists them: each once. */
  ghost predicate Enumerates(keys: seq<string>, received: Env) {
    && (forall i, j :: 0 <= i < j < |keys| ==> keys[i] != keys[j])
    && (forall key :: key in keys <==> key in received)
  }

  /** What the merge has decided after some of the variables received. */
  function Drafted(lines: seq<string>, existing: Env, received: Env, mode: Mode, newline: string,
                   keys: seq<string>): (r: Result<Draft, Failure>)
    requires forall key :: key in keys ==> key in received
    ensures r.Ok? ==> |r.value.lines| == |lines|
  {
    if keys == [] then Ok(Draft(lines, [], Summary(0, 0, 0))) else
    var n := |keys| - 1;
    var key := keys[n];
    var d :- Drafted(lines, existing, received, mode, newline, keys[..n]);
    var text := Normalized(key, received[key], newline);
    if key !in existing
    then Ok(d.(additions := d.additions + [text], summary := d.summary.(added := d.summary.added + 1)))
    else if mode.KeepExisting? then Ok(d.(summary := d.summary.(kept := d.summary.kept + 1)))
    else
      FinalLineDeclares(lines, key);
      match FinalLine(lines, key)
      case None => Err(Transfer)
      case Some(j) => Ok(d.(lines := d.lines[j := text], summary := d.summary.(updated := d.summary.updated + 1)))
  }

  function Assembled(d: Draft, newline: string): string {
    var body := Concat(d.lines);
    if d.additions == [] then body
    else body + (if body != "" && !Terminated(body) then newline else "") + Concat(d.additions)
  }

  function Merged(reader: Reader, existing: string, received: string, mode: Mode, keys: seq<string>): Result<(string,
                  Summary), Failure>
    requires Parsed(reader, received).Ok? ==> forall key :: key in keys ==> key in Parsed(reader, received).value
  {
    var old_ :- Parsed(reader, existing);
    var new_ :- Parsed(reader, received);
    var d :- Drafted(Lines(existing), old_, new_, mode, NewlineOf(existing), keys);
    var text := Assembled(d, NewlineOf(existing));
    if ByteLength(text) > MAX_PAYLOAD_BYTES then Err(Transfer) else Ok((text, d.summary))
  }

  /** The loop of `merge_dotenv` over the variables received. */
  method DraftMerge(original: seq<string>, existing: Env, received: Env, mode: Mode, newline: string, keys: seq<string>)
    returns (r: Result<Draft, Failure>)
    requires forall key :: key in keys ==> key in received
    ensures r == Drafted(original, existing, received, mode, newline, keys)
  {
    hide Normalized, FinalLine;
    var finals := FinalDeclarations(original);
    var lines, additions, summary := original, [], Summary(0, 0, 0);
    for i := 0 to |keys|
      invariant |lines| == |original|
      invariant Drafted(original, existing, received, mode, newline, keys[..i]) == Ok(Draft(lines, additions, summary))
    {
      var key := keys[i];
      DraftStep(original, existing, received, mode, newline, keys, i);
      FinalLineDeclares(original, key);
      if key in existing {
        match mode
        case ReplaceExisting =>
          ghost var now := Drafted(original, existing, received, mode, newline, keys[..i + 1]);
          assert key !in finals ==> now == Err(Transfer);
          if key !in finals { return Err(Transfer); }
          var text := NormalizedDeclaration(key, received[key], newline);
          lines := lines[finals[key] := text];
          summary := summary.(updated := summary.updated + 1);
        case KeepExisting => summary := summary.(kept := summary.kept + 1);
      } else {
        var text := NormalizedDeclaration(key, received[key], newline);
        additions := additions + [text];
        summary := summary.(added := summary.added + 1);
      }
    }
    assert keys[..|keys|] == keys;
    r := Ok(Draft(lines, additions, summary));
  }

  /** `merge_dotenv` */
  method MergeDotenv(reader: Reader, existing: string, received: string, mode: Mode, keys: seq<string>)
    returns (r: Result<(string, Summary), Failure>)
    requires Parsed(reader, received).Ok? ==> Enumerates(keys, Parsed(reader, received).value)
    ensures r == Merged(reader, existing, received, mode, keys)
  {
    hide Parsed, Drafted;
    var old_ :- Parse(reader, existing);
    var new_ :- Parse(reader, received);
    var newline := NewlineOf(existing);
    var draft :- DraftMerge(Lines(existing), old_, new_, mode, newline, keys);
    var merged := Concat(draft.lines);
    if draft.additions != [] {
      assert merged + "" == merged;
      if merged != "" && merged[|merged| - 1] != '\n' { merged := merged + newline; }
      merged := merged + Concat(draft.additions);
    }
    assert merged == Assembled(draft, newline);
    if ByteLength(merged) > MAX_PAYLOAD_BYTES { return Err(Transfer); }
    r := Ok((merged, draft.summary));
  }

  /** One more variable, and that an error in a prefix is an error of the whole. */
  lemma {:induction false} DraftStep(lines: seq<string>, existing: Env, received: Env, mode: Mode, newline: string,
                                     keys: seq<string>, i: nat)
    requires i < |keys| && forall key :: key in keys ==> key in received
    ensures keys[..i + 1][..i] == keys[..i]
    ensures (Drafted(lines, existing, received, mode, newline, keys[..i + 1]) == Err(Transfer))
              ==> (Drafted(lines, existing, received, mode, newline, keys) == Err(Transfer))
    decreases |keys| - i
  {
    assert keys[..i + 1][..i] == keys[..i];
    if i + 1 < |keys| {
      DraftStep(lines, existing, received, mode, newline, keys, i + 1);
    } else {
      assert keys[..i + 1] == keys;
    }
  }
}
