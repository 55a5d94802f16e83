/** What a dotenv merge preserves, changes and counts, for every pair of documents and every reader of lines. */
module DotenvMerge {
  import opened Basics
  import opened Dotenv
  import opened DotenvText

  // ------------------------------------------------------------- environments

  predicate ReadsAs(reader: Reader, line: string, key: string) {
    reader(line).Declares? && reader(line).key == key
  }

  /** The last line that the library reads as a declaration of the key. */
  function LastRead(reader: Reader, lines: seq<string>, key: string): Option<nat> {
    if lines == [] then None
    else if ReadsAs(reader, lines[|lines| - 1], key) then Some(|lines| - 1)
    else LastRead(reader, lines[..|lines| - 1], key)
  }

  predicate IsLastRead(reader: Reader, lines: seq<string>, key: string, j: nat) {
    && j < |lines| && ReadsAs(reader, lines[j], key)
    && forall i :: j < i < |lines| ==> !ReadsAs(reader, lines[i], key)
  }

  lemma {:induction false} LastReadIs(reader: Reader, lines: seq<string>, key: string)
    ensures match LastRead(reader, lines, key)
            case Some(j) => IsLastRead(reader, lines, key, j)
            case None => forall i :: 0 <= i < |lines| ==> !ReadsAs(reader, lines[i], key)
  {
    if lines != [] { LastReadIs(reader, lines[..|lines| - 1], key); }
  }

  /** An environment holds, for each key, what the last line read as that key declares. */
  lemma {:induction false} EnvironmentAt(reader: Reader, lines: seq<string>, key: string)
    ensures key in Environment(reader, lines) <==> LastRead(reader, lines, key).Some?
    ensures match LastRead(reader, lines, key)
            case Some(j) => j < |lines| && reader(lines[j]) == Declares(key, Environment(reader, lines)[key])
            case None => true
  {
    if lines != [] { EnvironmentAt(reader, lines[..|lines| - 1], key); }
  }

  lemma {:induction false} EnvironmentJoin(reader: Reader, a: seq<string>, b: seq<string>)
    ensures Environment(reader, a + b) == Environment(reader, a) + Environment(reader, b)
  {
    if b == [] {
      assert a + b == a;
    } else {
      var n := |b| - 1;
      EnvironmentJoin(reader, a, b[..n]);
      assert (a + b)[..|a + b| - 1] == a + b[..n] && (a + b)[|a + b| - 1] == b[n];
    }
  }

  predicate Clean(key: string, value: string) {
    '\0' !in key && '\0' !in value
  }

  ghost predicate AllClean(env: Env) {
    forall key :: key in env ==> Clean(key, env[key])
  }

  lemma ParsedClean(reader: Reader, text: string)
    requires Parsed(reader, text).Ok?
    ensures AllClean(Parsed(reader, text).value)
  {
    hide Lines;
    var lines, env := Lines(text), Parsed(reader, text).value;
    forall key | key in env ensures Clean(key, env[key]) {
      EnvironmentAt(reader, lines, key);
      assert Readable(reader, lines[LastRead(reader, lines, key).value]);
    }
  }

  // ---------------------------------------------------------------------- drafts

  /** One merge, once both documents have been read. */
  datatype Merge = Merge(
    lines: seq<string>, existing: Env, received: Env, mode: Mode, newline: string, keys: seq<string>)

  ghost predicate Listing(m: Merge) {
    forall key :: key in m.keys ==> key in m.received
  }

  function DraftIn(m: Merge): Result<Draft, Failure>
    requires Listing(m)
  {
    Drafted(m.lines, m.existing, m.received, m.mode, m.newline, m.keys)
  }

  function TextOf(m: Merge, key: string): string
    requires key in m.received
  {
    Normalized(key, m.received[key], m.newline)
  }

  /** The key is replaced in line `j`. */
  predicate Rewrites(m: Merge, j: nat, key: string) {
    m.mode.ReplaceExisting? && key in m.keys && key in m.existing && FinalLine(m.lines, key) == Some(j)
  }

  /** No key is replaced in line `j`. */
  predicate Kept(m: Merge, j: nat)
    requires j < |m.lines|
  {
    DeclarationKey(m.lines[j]).None? || !Rewrites(m, j, DeclarationKey(m.lines[j]).value)
  }

  lemma RewrittenLine(m: Merge, j: nat, key: string)
    requires Rewrites(m, j, key)
    ensures j < |m.lines| && DeclarationKey(m.lines[j]) == Some(key) && !Kept(m, j)
  {
    hide DeclarationKey, FinalLine;
    FinalLineDeclares(m.lines, key);
  }

  /** The lines after the merge: the final declarations of replaced keys, and the rest as it was. */
  ghost predicate LinesAfter(m: Merge, after: seq<string>)
    requires Listing(m)
  {
    && |after| == |m.lines|
    && (forall j :: 0 <= j < |m.lines| && Kept(m, j) ==> after[j] == m.lines[j])
    && (forall j: nat, key :: Rewrites(m, j, key) ==> j < |after| && after[j] == TextOf(m, key))
  }

  function Missing(m: Merge): seq<string>
    requires Listing(m)
    decreases |m.keys|
  {
    if m.keys == [] then [] else
    var n := |m.keys| - 1;
    Missing(m.(keys := m.keys[..n])) + if m.keys[n] in m.existing then [] else [TextOf(m, m.keys[n])]
  }

  /** A key that both documents define and that is declared in no line. */
  predicate Undeclared(m: Merge, key: string) {
    m.mode.ReplaceExisting? && key in m.keys && key in m.existing && FinalLine(m.lines, key).None?
  }

  ghost predicate NothingUndeclared(m: Merge) {
    forall key :: !Undeclared(m, key)
  }

  /** Drafting fails exactly if a shared key is declared in no line. */
  lemma {:induction false} DraftFailsExactly(m: Merge)
    requires Listing(m)
    ensures DraftIn(m).Ok? <==> NothingUndeclared(m)
    decreases |m.keys|
  {
    hide Normalized, DeclarationKey, FinalLine;
    if m.keys == [] {
      assert forall key :: !Undeclared(m, key);
    } else {
      var n := |m.keys| - 1;
      var key, front := m.keys[n], m.(keys := m.keys[..n]);
      DraftFailsExactly(front);
      FinalLineDeclares(m.lines, key);
      assert m.keys == front.keys + [key];
      if k :| Undeclared(front, k) { assert Undeclared(m, k); }
      if k :| Undeclared(m, k) && k != key { assert Undeclared(front, k); }
      assert NothingUndeclared(m) <==> NothingUndeclared(front) && !Undeclared(m, key);
      assert m.keys[..n] == front.keys;
      assert DraftIn(m).Ok? <==> DraftIn(front).Ok? && !Undeclared(m, key);
    }
  }

  /** Only the final declarations of replaced keys change, and only missing keys are added. */
  lemma {:induction false} DraftIs(m: Merge)
    requires Listing(m) && DraftIn(m).Ok?
    ensures LinesAfter(m, DraftIn(m).value.lines) && DraftIn(m).value.additions == Missing(m)
    ensures |DraftIn(m).value.additions| == DraftIn(m).value.summary.added
    decreases |m.keys|
  {
    hide Normalized, Drafted, LinesAfter;
    if m.keys == [] {
      NothingDrafted(m);
    } else {
      var n := |m.keys| - 1;
      var key, front := m.keys[n], m.(keys := m.keys[..n]);
      DraftedOne(m, front, key);
      DraftIs(front);
      DraftedLines(m, front, key);
    }
  }

  lemma NothingDrafted(m: Merge)
    requires m.keys == []
    ensures DraftIn(m) == Ok(Draft(m.lines, [], Summary(0, 0, 0))) && LinesAfter(m, m.lines)
  {
  }

  /** The last key of a merge: what is drafted before it, and whether it is added. */
  lemma DraftedOne(m: Merge, front: Merge, key: string)
    requires Listing(m) && DraftIn(m).Ok? && m.keys != []
    requires key == m.keys[|m.keys| - 1] && front == m.(keys := m.keys[..|m.keys| - 1])
    ensures front.keys + [key] == m.keys && Listing(front) && DraftIn(front).Ok?
    ensures var before, after := DraftIn(front).value, DraftIn(m).value;
            if key in m.existing then after.additions == before.additions && after.summary.added == before.summary.added
            else && after.additions == before.additions + [TextOf(m, key)]
                 && after.summary.added == before.summary.added + 1
  {
    hide Normalized, FinalLine;
    FinalLineDeclares(m.lines, key);
  }

  lemma DraftedLines(m: Merge, front: Merge, key: string)
    requires Listing(m) && front.keys + [key] == m.keys && front == m.(keys := front.keys)
    requires Listing(front) && DraftIn(front).Ok? && DraftIn(m).Ok? && LinesAfter(front, DraftIn(front).value.lines)
    ensures LinesAfter(m, DraftIn(m).value.lines)
  {
    hide Normalized, DeclarationKey, FinalLine;
    var before, after := DraftIn(front).value.lines, DraftIn(m).value.lines;
    assert m.keys[..|m.keys| - 1] == front.keys;
    FinalLineDeclares(m.lines, key);
    assert after == before || (Rewrites(m, FinalLine(m.lines, key).value, key)
                               && after == before[FinalLine(m.lines, key).value := TextOf(m, key)]);
    forall j: nat, k | Rewrites(m, j, k) ensures j < |after| && after[j] == TextOf(m, k) {
      RewrittenLine(m, j, k);
      assert k != key ==> Rewrites(front, j, k);
    }
    forall j | 0 <= j < |m.lines| && Kept(m, j) ensures after[j] == m.lines[j] {
      assert Kept(front, j);
    }
  }

  // -------------------------------------------------- the environment afterwards

  /** The library reads the normalized form of every received variable as that variable. */
  ghost predicate ReadsBack(reader: Reader, received: Env, newline: string) {
    forall key :: key in received ==> reader(Normalized(key, received[key], newline)) == Declares(key, received[key])
  }

  /** The keys hold no line break, so that a normalized declaration is one line. */
  ghost predicate OneLineKeys(received: Env) {
    forall key :: key in received ==> '\n' !in key
  }

  /** A merge whose texts are lines that the library reads back. */
  ghost predicate Sound(reader: Reader, m: Merge) {
    && IsNewline(m.newline) && m.existing == Environment(reader, m.lines) && Enumerates(m.keys, m.received)
    && ReadsBack(reader, m.received, m.newline) && OneLineKeys(m.received)
  }

  /** How a line of the merged document is read. */
  lemma ReadAfter(reader: Reader, m: Merge, after: seq<string>, j: nat, key: string)
    requires Sound(reader, m) && LinesAfter(m, after) && j < |m.lines|
    ensures ReadsAs(reader, after[j], key) <==> (Kept(m, j) && ReadsAs(reader, m.lines[j], key)) || Rewrites(m, j, key)
    ensures Rewrites(m, j, key) ==> reader(after[j]) == Declares(key, m.received[key])
    ensures Kept(m, j) ==> after[j] == m.lines[j]
  {
    hide DeclarationKey, FinalLine, Normalized, Environment;
    if Rewrites(m, j, key) { RewrittenLine(m, j, key); }
    if !Kept(m, j) {
      var k := DeclarationKey(m.lines[j]).value;
      assert Rewrites(m, j, k);
      assert after[j] == TextOf(m, k);
    }
  }

  /** The last line below `n` that is not rewritten and is read as the key. */
  function LastKept(reader: Reader, m: Merge, key: string, n: nat): Option<nat>
    requires n <= |m.lines|
  {
    if n == 0 then None
    else if Kept(m, n - 1) && ReadsAs(reader, m.lines[n - 1], key) then Some(n - 1)
    else LastKept(reader, m, key, n - 1)
  }

  lemma {:induction false} LastKeptIs(reader: Reader, m: Merge, key: string, n: nat)
    requires n <= |m.lines|
    ensures match LastKept(reader, m, key, n)
            case Some(j) => && j < n && Kept(m, j) && ReadsAs(reader, m.lines[j], key)
                            && forall i :: j < i < n && Kept(m, i) ==> !ReadsAs(reader, m.lines[i], key)
            case None => forall i :: 0 <= i < n && Kept(m, i) ==> !ReadsAs(reader, m.lines[i], key)
  {
    hide Kept, ReadsAs;
    if n > 0 { LastKeptIs(reader, m, key, n - 1); }
  }

  /** What a key is to mean after the merge, if the existing document defines it. */
  function Target(m: Merge, key: string): string
    requires key in m.existing
  {
    if m.mode.ReplaceExisting? && key in m.received then m.received[key] else m.existing[key]
  }

  /**
   What decides whether a key comes out right, from the lines before the merge.  A key
   that is replaced: no line after the one rewritten still gives it another value.  A key
   that is not: a line that gives it its value is left, and is the last.
   */
  predicate Prevails(reader: Reader, m: Merge, key: string)
    requires key in m.existing
  {
    var k := LastKept(reader, m, key, |m.lines|);
    var rewritten := if Rewritten(m, key) then FinalLine(m.lines, key) else None;
    if k.Some? && (rewritten.None? || rewritten.value < k.value) && k.value < |m.lines|
    then ReadsAs(reader, m.lines[k.value], key) && reader(m.lines[k.value]).value == Target(m, key)
    else rewritten.Some?
  }

  predicate Rewritten(m: Merge, key: string) {
    m.mode.ReplaceExisting? && key in m.keys && key in m.existing
  }

  /** A key has its intended value after the merge exactly if it prevails. */
  lemma RewrittenValue(reader: Reader, m: Merge, after: seq<string>, key: string)
    requires Sound(reader, m) && LinesAfter(m, after) && NothingUndeclared(m) && key in m.existing
    ensures var now := Environment(reader, after);
            key in now && now[key] == Target(m, key) <==> Prevails(reader, m, key)
  {
    var n, k := |m.lines|, LastKept(reader, m, key, |m.lines|);
    EnvironmentAt(reader, after, key);
    LastReadIs(reader, after, key);
    LastKeptIs(reader, m, key, n);
    assert !Undeclared(m, key);
    FinalLineDeclares(m.lines, key);
    hide LastKept, LastRead, FinalLine, Kept, DeclarationKey, Environment, Normalized;
    forall j: nat | j < n
      ensures ReadsAs(reader, after[j], key)
              <==> (Kept(m, j) && ReadsAs(reader, m.lines[j], key)) || Rewrites(m, j, key)
      ensures Rewrites(m, j, key) ==> reader(after[j]) == Declares(key, m.received[key])
      ensures Kept(m, j) ==> after[j] == m.lines[j]
    {
      ReadAfter(reader, m, after, j, key);
    }
    if Rewritten(m, key) { assert Rewrites(m, FinalLine(m.lines, key).value, key); }
  }

  lemma NoOtherKeys(reader: Reader, m: Merge, after: seq<string>, key: string)
    requires Sound(reader, m) && LinesAfter(m, after) && key in Environment(reader, after)
    ensures key in m.existing
  {
    hide FinalLine, DeclarationKey, Normalized;
    EnvironmentAt(reader, after, key);
    LastReadIs(reader, after, key);
    var j := LastRead(reader, after, key).value;
    ReadAfter(reader, m, after, j, key);
    if !Rewrites(m, j, key) {
      EnvironmentAt(reader, m.lines, key);
      LastReadIs(reader, m.lines, key);
    }
  }

  /** The rewritten lines mean what they should exactly if every existing key prevails. */
  lemma RewrittenExactly(reader: Reader, m: Merge, after: seq<string>)
    requires Sound(reader, m) && LinesAfter(m, after) && NothingUndeclared(m)
    ensures Environment(reader, after) == (map key | key in m.existing :: Target(m, key)) <==> AllPrevail(reader, m)
  {
    hide Sound, LinesAfter, NothingUndeclared, Environment, Prevails;
    var now := Environment(reader, after);
    forall key | key in m.existing ensures key in now && now[key] == Target(m, key) <==> Prevails(reader, m, key) {
      RewrittenValue(reader, m, after, key);
    }
    forall key | key in now ensures key in m.existing {
      NoOtherKeys(reader, m, after, key);
    }
  }

  ghost predicate AllPrevail(reader: Reader, m: Merge) {
    forall key :: key in m.existing ==> Prevails(reader, m, key)
  }

  // ---------------------------------------------- when every key prevails

  /** The library and `declaration_key` find the same final line for every replaced key. */
  ghost predicate FinalsAgree(reader: Reader, m: Merge) {
    forall key :: Rewritten(m, key) ==> LastRead(reader, m.lines, key) == FinalLine(m.lines, key)
  }

  /** Then every key prevails. */
  lemma AgreeingFinalsPrevail(reader: Reader, m: Merge)
    requires Sound(reader, m) && FinalsAgree(reader, m)
    ensures AllPrevail(reader, m)
  {
    hide FinalLine, DeclarationKey, Normalized;
    forall key | key in m.existing ensures Prevails(reader, m, key) {
      LastReadIs(reader, m.lines, key);
      LastKeptIs(reader, m, key, |m.lines|);
      EnvironmentAt(reader, m.lines, key);
      var j := LastRead(reader, m.lines, key).value;
      if Rewritten(m, key) {
        RewrittenLine(m, j, key);
      } else {
        assert Kept(m, j) by {
          if !Kept(m, j) {
            var k := DeclarationKey(m.lines[j]).value;
            assert Rewritten(m, k);
            LastReadIs(reader, m.lines, k);
          }
        }
      }
    }
  }

  /** The library and `declaration_key` agree on which key a line declares. */
  ghost predicate KeyAgrees(reader: Reader, line: string) {
    match reader(line)
    case Declares(key, _) => DeclarationKey(line) == Some(key)
    case Blank => DeclarationKey(line).None?
    case Malformed => true
  }

  ghost predicate KeysAgree(reader: Reader, lines: seq<string>) {
    forall i :: 0 <= i < |lines| ==> KeyAgrees(reader, lines[i])
  }

  /** Where they agree on every line of a document, they agree on every final line. */
  lemma {:induction false} AgreeingKeysAgree(reader: Reader, lines: seq<string>, key: string)
    requires KeysAgree(reader, lines) && AllReadable(reader, lines)
    ensures LastRead(reader, lines, key) == FinalLine(lines, key)
  {
    hide DeclarationKey;
    if lines != [] {
      assert KeyAgrees(reader, lines[|lines| - 1]) && Readable(reader, lines[|lines| - 1]);
      AgreeingKeysAgree(reader, lines[..|lines| - 1], key);
    }
  }

  lemma AgreeingKeysOneLine(reader: Reader, text: string)
    requires Parsed(reader, text).Ok? && KeysAgree(reader, Lines(text))
    ensures OneLineKeys(Parsed(reader, text).value)
  {
    var lines, env := Lines(text), Parsed(reader, text).value;
    LinesSplit(text);
    hide Lines, IsLine, DeclarationKey;
    forall key | key in env ensures '\n' !in key {
      EnvironmentAt(reader, lines, key);
      var j := LastRead(reader, lines, key).value;
      assert KeyAgrees(reader, lines[j]) && IsLine(lines[j]);
      KeyOneLine(lines[j]);
    }
  }

  // ------------------------------------------------------- additions and the end

  /** The lines added are readable lines and declare exactly the missing keys. */
  lemma {:induction false} MissingEnvironment(reader: Reader, m: Merge)
    requires Listing(m) && IsNewline(m.newline) && OneLineKeys(m.received) && AllClean(m.received)
    requires ReadsBack(reader, m.received, m.newline)
    ensures var added := Missing(m);
            && (forall i :: 0 <= i < |added| ==> IsLine(added[i]) && Terminated(added[i]) && Readable(reader, added[i]))
            && (forall key :: key in Environment(reader, added) <==> key in m.keys && key !in m.existing)
            && (forall key :: key in Environment(reader, added) ==> Environment(reader, added)[key] == m.received[key])
    decreases |m.keys|
  {
    hide IsLine, Terminated, Normalized, Readable, Environment;
    if m.keys == [] {
      NothingDeclared(reader);
    } else {
      var n := |m.keys| - 1;
      var front, key := m.(keys := m.keys[..n]), m.keys[n];
      MissingEnvironment(reader, front);
      assert m.keys == front.keys + [key];
      if key in m.existing {
        assert Missing(m) == Missing(front);
      } else {
        NormalizedIsLine(key, m.received[key], m.newline);
        DeclaresOneMore(reader, Missing(front), TextOf(m, key), key, m.received[key]);
      }
    }
  }

  lemma NothingDeclared(reader: Reader)
    ensures Environment(reader, []) == map[]
  {
  }

  lemma DeclaresOneMore(reader: Reader, lines: seq<string>, line: string, key: string, value: string)
    requires reader(line) == Declares(key, value) && Clean(key, value)
    ensures Environment(reader, lines + [line]) == Environment(reader, lines)[key := value]
    ensures Readable(reader, line)
  {
    assert (lines + [line])[..|lines|] == lines;
  }

  /** What is written is lines. */
  lemma {:induction false} MissingAreLines(m: Merge)
    requires Listing(m) && IsNewline(m.newline) && OneLineKeys(m.received)
    ensures forall i :: 0 <= i < |Missing(m)| ==> IsLine(Missing(m)[i]) && Terminated(Missing(m)[i])
    decreases |m.keys|
  {
    hide IsLine, Terminated, Normalized;
    if m.keys != [] {
      var n := |m.keys| - 1;
      MissingAreLines(m.(keys := m.keys[..n]));
      NormalizedIsLine(m.keys[n], m.received[m.keys[n]], m.newline);
    }
  }

  lemma LinesStayLines(m: Merge, after: seq<string>)
    requires Listing(m) && IsNewline(m.newline) && OneLineKeys(m.received) && WellSplit(m.lines) && LinesAfter(m, after)
    ensures WellSplit(after)
    ensures forall j :: 0 <= j < |after| && !Terminated(after[j]) ==> after[j] == m.lines[j]
  {
    hide IsLine, Terminated, Normalized, FinalLine, DeclarationKey;
    forall j | 0 <= j < |after|
      ensures IsLine(after[j]) && (after[j] == m.lines[j] || Terminated(after[j]))
    {
      assert IsLine(m.lines[j]);
      if !Kept(m, j) {
        var k := DeclarationKey(m.lines[j]).value;
        assert Rewrites(m, j, k);
        NormalizedIsLine(k, m.received[k], m.newline);
      }
    }
  }

  lemma LinesStayReadable(reader: Reader, m: Merge, after: seq<string>)
    requires Sound(reader, m) && AllClean(m.received) && AllReadable(reader, m.lines) && LinesAfter(m, after)
    ensures AllReadable(reader, after)
  {
    hide Normalized, FinalLine, DeclarationKey, Environment;
    forall j | 0 <= j < |after| ensures Readable(reader, after[j]) {
      assert Readable(reader, m.lines[j]);
      if !Kept(m, j) {
        var k := DeclarationKey(m.lines[j]).value;
        assert Rewrites(m, j, k);
      }
    }
  }

  /** A line reads the same with its newline missing, as at the end of a document. */
  ghost predicate EndAgrees(reader: Reader, line: string, newline: string) {
    reader(line + newline) == reader(line)
  }

  /** That, of the last line of a document. */
  ghost predicate LastEndAgrees(reader: Reader, lines: seq<string>, newline: string) {
    lines != [] && !Terminated(lines[|lines| - 1]) ==> EndAgrees(reader, lines[|lines| - 1], newline)
  }

  lemma EndedEnvironment(reader: Reader, lines: seq<string>, newline: string, more: bool)
    requires LastEndAgrees(reader, lines, newline)
    ensures Environment(reader, Ended(lines, newline, more)) == Environment(reader, lines)
    ensures AllReadable(reader, lines) ==> AllReadable(reader, Ended(lines, newline, more))
  {
    var n := |lines| - 1;
    var ended := Ended(lines, newline, more);
    if ended != lines {
      assert ended[..n] == lines[..n];
      if AllReadable(reader, lines) {
        forall i | 0 <= i < |ended| ensures Readable(reader, ended[i]) {
          assert Readable(reader, lines[i]);
        }
      }
    }
  }
}
