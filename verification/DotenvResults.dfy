/** The main results about merging two dotenv documents. */
module DotenvResults {
  import opened Basics
  import opened Dotenv
  import opened DotenvText
  import opened DotenvMerge

  /** The merge of two documents that can be read. */
  function MergeOf(reader: Reader, existing: string, received: string, mode: Mode, keys: seq<string>): Merge
    requires Parsed(reader, existing).Ok? && Parsed(reader, received).Ok?
  {
    var old_, new_ := Parsed(reader, existing).value, Parsed(reader, received).value;
    Merge(Lines(existing), old_, new_, mode, NewlineOf(existing), keys)
  }

  /** The variables received, in the order in which they are visited. */
  ghost predicate Visits(reader: Reader, received: string, keys: seq<string>) {
    Parsed(reader, received).Ok? ==> Enumerates(keys, Parsed(reader, received).value)
  }

  // -------------------------------------------------------------------- failures

  /** A variable that both documents define, but that is declared in no line `declaration_key` finds. */
  ghost predicate SomeUndeclared(reader: Reader, existing: string, received: string, mode: Mode) {
    && Parsed(reader, existing).Ok? && Parsed(reader, received).Ok? && mode.ReplaceExisting?
    && exists key :: SharedAndUnfound(MergeOf(reader, existing, received, mode, []), key)
  }

  ghost predicate TooLarge(reader: Reader, existing: string, received: string, mode: Mode, keys: seq<string>)
    requires Visits(reader, received, keys)
  {
    && Parsed(reader, existing).Ok? && Parsed(reader, received).Ok?
    && var draft := DraftIn(MergeOf(reader, existing, received, mode, keys));
       draft.Ok? && ByteLength(Assembled(draft.value, NewlineOf(existing))) > MAX_PAYLOAD_BYTES
  }

  predicate SharedAndUnfound(m: Merge, key: string) {
    key in m.existing && key in m.received && FinalLine(m.lines, key).None?
  }

  lemma UndeclaredIs(m: Merge)
    requires Enumerates(m.keys, m.received)
    ensures NothingUndeclared(m) <==> !(m.mode.ReplaceExisting? && exists key :: SharedAndUnfound(m, key))
  {
    hide FinalLine;
    if key :| m.mode.ReplaceExisting? && SharedAndUnfound(m, key) { assert Undeclared(m, key); }
    if key :| Undeclared(m, key) { assert SharedAndUnfound(m, key); }
  }

  /** Exactly when a merge fails, whatever the library reads. */
  lemma MergeFailsExactly(reader: Reader, existing: string, received: string, mode: Mode, keys: seq<string>)
    requires Visits(reader, received, keys)
    ensures Merged(reader, existing, received, mode, keys).Err? <==>
            || Parsed(reader, existing).Err?
            || Parsed(reader, received).Err?
            || SomeUndeclared(reader, existing, received, mode)
            || TooLarge(reader, existing, received, mode, keys)
  {
    hide Parsed, Lines, Drafted, Assembled, NewlineOf, FinalLine, NothingUndeclared;
    if Parsed(reader, existing).Ok? && Parsed(reader, received).Ok? {
      var m := MergeOf(reader, existing, received, mode, keys);
      DraftFailsExactly(m);
      UndeclaredIs(m);
      var n := MergeOf(reader, existing, received, mode, []);
      if key :| SharedAndUnfound(m, key) { assert SharedAndUnfound(n, key); }
      if key :| SharedAndUnfound(n, key) { assert SharedAndUnfound(m, key); }
    }
  }

  // ----------------------------------------------------------------------- lines

  lemma MergedDraft(reader: Reader, existing: string, received: string, mode: Mode, keys: seq<string>,
                    text: string, summary: Summary)
    requires Visits(reader, received, keys) && Merged(reader, existing, received, mode, keys) == Ok((text, summary))
    ensures Parsed(reader, existing).Ok? && Parsed(reader, received).Ok?
    ensures var m := MergeOf(reader, existing, received, mode, keys);
            && DraftIn(m).Ok? && text == Assembled(DraftIn(m).value, m.newline) && summary == DraftIn(m).value.summary
            && LinesAfter(m, DraftIn(m).value.lines) && DraftIn(m).value.additions == Missing(m)
            && |Missing(m)| == summary.added
  {
    hide Lines, Drafted, Assembled, NewlineOf, FinalLine, LinesAfter, Missing, AllReadable, Environment;
    DraftIs(MergeOf(reader, existing, received, mode, keys));
  }

  /** The lines of a merged document: those before, rewritten where a key is replaced, and the additions. */
  lemma MergedLines(reader: Reader, existing: string, received: string, mode: Mode, keys: seq<string>,
                    text: string, summary: Summary)
    requires Visits(reader, received, keys) && Merged(reader, existing, received, mode, keys) == Ok((text, summary))
    requires OneLineKeys(Parsed(reader, received).value)
    ensures Parsed(reader, existing).Ok? && Parsed(reader, received).Ok?
    ensures var m := MergeOf(reader, existing, received, mode, keys);
            && DraftIn(m).Ok? && WellSplit(DraftIn(m).value.lines)
            && Lines(text) == Ended(DraftIn(m).value.lines, m.newline, summary.added > 0) + Missing(m)
  {
    MergedDraft(reader, existing, received, mode, keys, text, summary);
    var m := MergeOf(reader, existing, received, mode, keys);
    LinesSplit(existing);
    assert IsNewline(m.newline);
    hide Parsed, Lines, Drafted, Assembled, NewlineOf, FinalLine, LinesAfter, WellSplit, Missing;
    LinesStayLines(m, DraftIn(m).value.lines);
    MissingAreLines(m);
    AssembledLines(DraftIn(m).value, m.newline);
  }

  /**
   A line that is not the final declaration of a replaced key stays as it is, unless it is
   the last one, ends without a newline and variables are added: then it gets one.
   */
  lemma OtherLinesStay(reader: Reader, existing: string, received: string, mode: Mode, keys: seq<string>,
                       text: string, summary: Summary, j: nat)
    requires Visits(reader, received, keys) && Merged(reader, existing, received, mode, keys) == Ok((text, summary))
    requires OneLineKeys(Parsed(reader, received).value) && Parsed(reader, existing).Ok? && j < |Lines(existing)|
    requires Kept(MergeOf(reader, existing, received, mode, keys), j)
    ensures j < |Lines(text)|
    ensures var line := Lines(existing)[j];
            && (Lines(text)[j] == line <==> !(j == |Lines(existing)| - 1 && !Terminated(line) && summary.added > 0))
            && (Lines(text)[j] == line || Lines(text)[j] == line + NewlineOf(existing))
  {
    MergedDraft(reader, existing, received, mode, keys, text, summary);
    MergedLines(reader, existing, received, mode, keys, text, summary);
    var m := MergeOf(reader, existing, received, mode, keys);
    assert m.newline != "";
    hide Parsed, Lines, Drafted, Assembled, NewlineOf, FinalLine, Kept, Missing, IsLine;
    var after := DraftIn(m).value.lines;
    assert after[j] == m.lines[j];
    assert |m.lines[j] + m.newline| > |m.lines[j]|;
    EndedAt(after, m.newline, summary.added > 0, j);
  }

  lemma EndedAt(lines: seq<string>, newline: string, more: bool, j: nat)
    requires j < |lines| && WellSplit(lines)
    ensures |Ended(lines, newline, more)| == |lines|
    ensures Ended(lines, newline, more)[j]
         == lines[j] + if j == |lines| - 1 && more && !Terminated(lines[j]) then newline else ""
  {
    assert lines[j] + "" == lines[j];
  }

  // ---------------------------------------------------------------- environments

  /** What is asked of the library: it reads back what is written, and the last line with its newline as without. */
  ghost predicate Reads(reader: Reader, existing: string, received: string) {
    && Parsed(reader, existing).Ok? && Parsed(reader, received).Ok?
    && ReadsBack(reader, Parsed(reader, received).value, NewlineOf(existing))
    && OneLineKeys(Parsed(reader, received).value)
    && LastEndAgrees(reader, Lines(existing), NewlineOf(existing))
  }

  /** The environment that is meant: received values win, or existing ones do. */
  function Intended(m: Merge): Env {
    if m.mode.ReplaceExisting? then m.existing + m.received else m.received + m.existing
  }

  lemma Joined(m: Merge, now: Env, added: Env)
    requires Enumerates(m.keys, m.received)
    requires forall key :: key in now ==> key in m.existing
    requires forall key :: key in added <==> key in m.keys && key !in m.existing
    requires forall key :: key in added ==> added[key] == m.received[key]
    ensures now + added == Intended(m) <==> now == (map key | key in m.existing :: Target(m, key))
  {
    var meant := map key | key in m.existing :: Target(m, key);
    assert meant + added == Intended(m);
    if now + added == Intended(m) {
      forall key | key in m.existing ensures key in now && now[key] == Target(m, key) {
        assert key in Intended(m) && Intended(m)[key] == Target(m, key);
        assert key !in added;
      }
    }
  }

  /**
   Exactly when the merged document means what is intended: if every existing key prevails,
   which only replacing can prevent.
   */
  lemma MergedEnvironment(reader: Reader, existing: string, received: string, mode: Mode, keys: seq<string>,
                          text: string, summary: Summary)
    requires Visits(reader, received, keys) && Merged(reader, existing, received, mode, keys) == Ok((text, summary))
    requires Reads(reader, existing, received)
    ensures AllReadable(reader, Lines(text))
    ensures var m := MergeOf(reader, existing, received, mode, keys);
            Environment(reader, Lines(text)) == Intended(m) <==> AllPrevail(reader, m)
  {
    MergedDraft(reader, existing, received, mode, keys, text, summary);
    MergedLines(reader, existing, received, mode, keys, text, summary);
    var m := MergeOf(reader, existing, received, mode, keys);
    var after, added := DraftIn(m).value.lines, Missing(m);
    MergeIsSound(reader, existing, received, mode, keys);
    hide Parsed, Lines, Assembled, Environment, NewlineOf, Missing, LinesAfter, Sound, DraftIn, OneLineKeys, ReadsBack;
    hide AllPrevail, IsLine, Terminated, Readable, Ended, NothingUndeclared, LastEndAgrees, WellSplit;
    AfterEnvironment(reader, m, after, summary.added > 0);
    RewrittenExactly(reader, m, after);
    MissingEnvironment(reader, m);
    EnvironmentJoin(reader, Ended(after, m.newline, summary.added > 0), added);
    forall key | key in Environment(reader, after) ensures key in m.existing { NoOtherKeys(reader, m, after, key); }
    Joined(m, Environment(reader, after), Environment(reader, added));
    JoinedReadable(reader, Ended(after, m.newline, summary.added > 0), added);
  }

  lemma MergeIsSound(reader: Reader, existing: string, received: string, mode: Mode, keys: seq<string>)
    requires Reads(reader, existing, received) && Visits(reader, received, keys)
    ensures var m := MergeOf(reader, existing, received, mode, keys);
            && Sound(reader, m) && AllClean(m.received) && AllReadable(reader, m.lines) && WellSplit(m.lines)
            && (DraftIn(m).Ok? ==> NothingUndeclared(m))
  {
    LinesSplit(existing);
    ParsedClean(reader, received);
    hide Lines, Environment, WellSplit, AllReadable, HasCrLf;
    DraftFailsExactly(MergeOf(reader, existing, received, mode, keys));
  }

  lemma AfterEnvironment(reader: Reader, m: Merge, after: seq<string>, more: bool)
    requires Sound(reader, m) && AllClean(m.received) && AllReadable(reader, m.lines) && WellSplit(m.lines)
    requires LinesAfter(m, after) && LastEndAgrees(reader, m.lines, m.newline)
    ensures Environment(reader, Ended(after, m.newline, more)) == Environment(reader, after)
    ensures AllReadable(reader, Ended(after, m.newline, more))
  {
    hide Environment, Normalized, WellSplit, AllReadable;
    LinesStayLines(m, after);
    LinesStayReadable(reader, m, after);
    EndedEnvironment(reader, after, m.newline, more);
  }

  lemma JoinedReadable(reader: Reader, a: seq<string>, b: seq<string>)
    requires AllReadable(reader, a) && forall i :: 0 <= i < |b| ==> Readable(reader, b[i])
    ensures AllReadable(reader, a + b)
  {
  }

  /** Keeping existing values always means what is intended. */
  lemma KeepPrevails(reader: Reader, m: Merge)
    requires Sound(reader, m) && m.mode.KeepExisting?
    ensures AllPrevail(reader, m)
  {
    AgreeingFinalsPrevail(reader, m);
  }

  /**
   If the library and `declaration_key` agree on the lines of the two documents, replacing
   always means what is intended, and fails only if the result is too large.
   */
  lemma AgreeingDocumentsMerge(reader: Reader, existing: string, received: string, mode: Mode, keys: seq<string>)
    requires Visits(reader, received, keys) && Parsed(reader, existing).Ok? && Parsed(reader, received).Ok?
    requires KeysAgree(reader, Lines(existing)) && KeysAgree(reader, Lines(received))
    ensures OneLineKeys(Parsed(reader, received).value)
    ensures Merged(reader, existing, received, mode, keys).Err? <==> TooLarge(reader, existing, received, mode, keys)
    ensures Reads(reader, existing, received) ==> AllPrevail(reader, MergeOf(reader, existing, received, mode, keys))
  {
    var m := MergeOf(reader, existing, received, mode, keys);
    AgreeingKeysOneLine(reader, received);
    MergeFailsExactly(reader, existing, received, mode, keys);
    assert AllReadable(reader, m.lines) && m.existing == Environment(reader, m.lines);
    hide Lines, Environment, FinalLine, KeysAgree, TooLarge, LastRead, AllReadable;
    forall key ensures LastRead(reader, m.lines, key) == FinalLine(m.lines, key) {
      AgreeingKeysAgree(reader, m.lines, key);
    }
    forall key | key in m.existing ensures FinalLine(m.lines, key).Some? {
      EnvironmentAt(reader, m.lines, key);
    }
    if Reads(reader, existing, received) {
      MergeIsSound(reader, existing, received, mode, keys);
      AgreeingFinalsPrevail(reader, m);
    }
  }

  // ------------------------------------------------------------ prefix and counts

  /** Keeping existing values keeps the existing text, as a prefix. */
  lemma KeepIsPrefix(reader: Reader, existing: string, received: string, keys: seq<string>, text: string,
                     summary: Summary)
    requires Visits(reader, received, keys)
    requires Merged(reader, existing, received, KeepExisting, keys) == Ok((text, summary))
    ensures existing <= text
  {
    hide Lines, Environment;
    LinesSplit(existing);
    KeepLines(MergeOf(reader, existing, received, KeepExisting, keys));
  }

  lemma {:induction false} KeepLines(m: Merge)
    requires Listing(m) && m.mode.KeepExisting?
    ensures DraftIn(m).Ok? && DraftIn(m).value.lines == m.lines
    decreases |m.keys|
  {
    if m.keys != [] { KeepLines(m.(keys := m.keys[..|m.keys| - 1])); }
  }

  function Among(keys: seq<string>, env: Env): nat {
    if keys == [] then 0 else Among(keys[..|keys| - 1], env) + if keys[|keys| - 1] in env then 1 else 0
  }

  lemma {:induction false} DraftCounts(m: Merge)
    requires Listing(m) && DraftIn(m).Ok?
    ensures var s := DraftIn(m).value.summary;
            && s.added + Among(m.keys, m.existing) == |m.keys|
            && s.updated == (if m.mode.ReplaceExisting? then Among(m.keys, m.existing) else 0)
            && s.kept == (if m.mode.ReplaceExisting? then 0 else Among(m.keys, m.existing))
    decreases |m.keys|
  {
    hide Normalized, FinalLine;
    if m.keys != [] { DraftCounts(m.(keys := m.keys[..|m.keys| - 1])); }
  }

  lemma {:induction false} AllAmong(keys: seq<string>, env: Env)
    requires forall key :: key in keys ==> key in env
    ensures Among(keys, env) == |keys|
  {
    if keys != [] { AllAmong(keys[..|keys| - 1], env); }
  }

  function Shared(keys: seq<string>, env: Env): set<string> {
    set key | key in keys && key in env
  }

  lemma {:induction false} AmongIsShared(keys: seq<string>, env: Env)
    requires forall i, j :: 0 <= i < j < |keys| ==> keys[i] != keys[j]
    ensures Among(keys, env) == |Shared(keys, env)|
  {
    if keys != [] {
      var n := |keys| - 1;
      var front, key := keys[..n], keys[n];
      AmongIsShared(front, env);
      assert keys == front + [key];
      SharedStep(front, key, env);
    }
  }

  lemma SharedStep(front: seq<string>, key: string, env: Env)
    requires key !in front
    ensures |Shared(front + [key], env)| == |Shared(front, env)| + if key in env then 1 else 0
  {
    if key in env {
      assert Shared(front + [key], env) == Shared(front, env) + {key};
    } else {
      assert Shared(front + [key], env) == Shared(front, env);
    }
  }

  /** Every received variable is counted once: as missing, or as shared and replaced or kept by mode. */
  lemma CountsAddUp(reader: Reader, existing: string, received: string, mode: Mode, keys: seq<string>,
                    text: string, summary: Summary)
    requires Visits(reader, received, keys)
    requires Merged(reader, existing, received, mode, keys) == Ok((text, summary))
    ensures var old_, new_ := Parsed(reader, existing).value, Parsed(reader, received).value;
            && summary.added + summary.updated + summary.kept == |new_|
            && summary.updated + summary.kept == |new_.Keys * old_.Keys|
            && (if mode.ReplaceExisting? then summary.kept == 0 else summary.updated == 0)
  {
    var old_, new_ := Parsed(reader, existing).value, Parsed(reader, received).value;
    MergedDraft(reader, existing, received, mode, keys, text, summary);
    hide Parsed, Merged, Lines, Drafted, Assembled, NewlineOf, LinesAfter, Missing, Among;
    DraftCounts(MergeOf(reader, existing, received, mode, keys));
    AmongIsShared(keys, old_);
    AmongIsShared(keys, new_);
    AllAmong(keys, new_);
    assert Shared(keys, new_) == new_.Keys && |new_| == |new_.Keys|;
    assert Shared(keys, old_) == new_.Keys * old_.Keys;
  }
}
