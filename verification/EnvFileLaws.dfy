/** What a reader finds in the merged file, and when writing twice equals writing once. */
module EnvFileLaws {
  import opened Common
  import opened EnvFile

  // ---------------------------------------------------------------- reading back

  /** Later assignments win. */
  function Read(lines: seq<string>): map<string, string> {
    if lines == [] then map[]
    else
      var rest := Read(lines[..|lines| - 1]);
      var m := Assignment(lines[|lines| - 1]);
      if m.Some? then rest[m.value.0 := m.value.1] else rest
  }

  lemma {:induction false} WordPrefix(key: string, rest: string)
    requires forall i :: 0 <= i < |key| ==> IsWord(key[i])
    requires rest == "" || !IsWord(rest[0])
    ensures WordLength(key + rest) == |key|
  {
    if key == "" {
      assert key + rest == rest;
    } else {
      WordPrefix(key[1..], rest);
      assert (key + rest)[1..] == key[1..] + rest;
      assert IsWord(key[0]);
    }
  }

  /** A written line reads back as its entry exactly when the value has no line terminator of any kind. */
  lemma AssignmentOfLine(key: string, value: string)
    requires IsKey(key)
    ensures Assignment(Line(key, value)) == if OneLine(value) then Some((key, value)) else None
  {
    var line := Line(key, value);
    assert line == key + ("=" + value);
    assert IsWord(key[0]) && line[0] == key[0];
    assert SkipSpaces(line) == line;
    WordPrefix(key, "=" + value);
    assert line[..|key|] == key && line[|key|..] == "=" + value;
    assert SkipSpaces("=" + value) == "=" + value;
    assert ("=" + value)[1..] == value;
  }

  lemma RewrittenAssigns(line: string, entries: Entries)
    requires Writable(entries)
    ensures var m := Assignment(line);
      if m.Some? && m.value.0 in entries
      then Assignment(Rewritten(line, entries)) == if OneLine(entries[m.value.0])
        then Some((m.value.0, entries[m.value.0])) else None
      else Rewritten(line, entries) == line
  {
    var m := Assignment(line);
    if m.Some? && m.value.0 in entries {
      AssignmentOfLine(m.value.0, entries[m.value.0]);
    }
  }

  ghost predicate AllOneLine(entries: Entries) {
    forall key :: key in entries ==> OneLine(entries[key])
  }

  function ReadOne(rest: map<string, string>, line: string): map<string, string> {
    var m := Assignment(line);
    if m.Some? then rest[m.value.0 := m.value.1] else rest
  }

  lemma ReadSnoc(init: seq<string>, last: string)
    ensures Read(init + [last]) == ReadOne(Read(init), last)
  {
  }

  lemma {:induction false} PlacedIffRead(lines: seq<string>, key: string)
    ensures Placed(lines, key) <==> key in Read(lines)
  {
    if lines != [] {
      var init, last := lines[..|lines| - 1], lines[|lines| - 1];
      PlacedIffRead(init, key);
      assert lines == init + [last];
      ReadSnoc(init, last);
      PlacedNext(lines, |lines| - 1);
      assert lines[..|lines|] == lines;
    }
  }

  /** `now` reads an entry as its new value exactly when its line reads at all; other keys read as in `was`. */
  ghost predicate ReadsAs(was: map<string, string>, now: map<string, string>, entries: Entries, key: string) {
    if key in entries
      then (key in now <==> key in was && OneLine(entries[key])) && (key in now ==> now[key] == entries[key])
    else (key in now <==> key in was) && (key in now ==> now[key] == was[key])
  }

  lemma {:induction false} ReadRewritten(lines: seq<string>, entries: Entries, key: string)
    requires Writable(entries)
    ensures ReadsAs(Read(lines), Read(RewrittenAll(lines, entries)), entries, key)
  {
    if lines != [] {
      var init, last := lines[..|lines| - 1], lines[|lines| - 1];
      ReadRewritten(init, entries, key);
      RewrittenAssigns(last, entries);
      assert lines == init + [last];
      assert RewrittenAll(lines, entries) == RewrittenAll(init, entries) + [Rewritten(last, entries)];
      ReadSnoc(init, last);
      ReadSnoc(RewrittenAll(init, entries), Rewritten(last, entries));
    }
  }

  ghost predicate ReadsWith(was: map<string, string>, now: map<string, string>, key: string, value: Option<string>) {
    if value.Some? then key in now && now[key] == value.value
      else (key in now <==> key in was) && (key in now ==> now[key] == was[key])
  }

  lemma {:induction false} ReadAppended(lines: seq<string>, entries: Entries, order: seq<string>, base: seq<string>,
      key: string)
    requires Writable(entries) && forall k :: k in order ==> k in entries
    ensures ReadsWith(Read(base), Read(base + Missing(lines, entries, order)), key,
      if key in order && !Placed(lines, key) && OneLine(entries[key]) then Some(entries[key]) else None)
  {
    if order == [] {
      assert base + Missing(lines, entries, order) == base;
    } else {
      var init, last := order[..|order| - 1], order[|order| - 1];
      assert order == init + [last] && forall k :: k in init ==> k in order;
      ReadAppended(lines, entries, init, base, key);
      if !Placed(lines, last) {
        var line := Line(last, entries[last]);
        assert base + Missing(lines, entries, order) == (base + Missing(lines, entries, init)) + [line];
        ReadSnoc(base + Missing(lines, entries, init), line);
        assert last in order;
        AssignmentOfLine(last, entries[last]);
      }
    }
  }

  /**
   * Reading the merged lines gives the old map overridden by the entries exactly when no value holds a line
   * terminator.
   */
  lemma ReadMergedIff(lines: seq<string>, entries: Entries, order: seq<string>)
    requires Writable(entries) && Lists(order, entries)
    ensures Read(Merged(lines, entries, order)) == Read(lines) + entries <==> AllOneLine(entries)
  {
    var now := Read(Merged(lines, entries, order));
    forall key
      ensures key in entries ==> (key in now <==> OneLine(entries[key])) && (key in now ==> now[key] == entries[key])
      ensures key !in entries ==> (key in now <==> key in Read(lines)) && (key in now ==> now[key] == Read(lines)[key])
    {
      PlacedIffRead(lines, key);
      ReadRewritten(lines, entries, key);
      ReadAppended(lines, entries, order, RewrittenAll(lines, entries), key);
    }
    if AllOneLine(entries) {
      assert now == Read(lines) + entries;
    }
  }

  lemma StorageKeys()
    ensures IsKey("WEA_FILE_STORAGE") && IsKey("S3_BUCKET") && IsKey("AWS_REGION") && IsKey("AWS_ACCESS_KEY_ID")
    ensures IsKey("AWS_SECRET_ACCESS_KEY") && IsKey("S3_ENDPOINT")
  {
  }

  lemma ServerKeys()
    ensures IsKey("WEBDAV_URL") && IsKey("WEBDAV_USERNAME") && IsKey("WEBDAV_PASSWORD") && IsKey("WEBDAV_AUTH_TYPE")
    ensures IsKey("JWT_SECRET") && IsKey("PORT") && IsKey("CORS_ORIGINS")
  {
  }

  lemma EmailKeys()
    ensures IsKey("EMAIL_HOST") && IsKey("EMAIL_PORT") && IsKey("EMAIL_USER") && IsKey("EMAIL_PASSWORD")
    ensures IsKey("EMAIL_SECURE") && IsKey("EMAIL_FROM_NAME")
  {
  }

  /** Everything validation accepts can be written: the allowed names are identifiers. */
  lemma AcceptedIsWritable(entries: Entries)
    requires forall key :: key in entries ==> key in ALLOWED && NoNewline(entries[key])
    ensures Writable(entries)
  {
    StorageKeys();
    ServerKeys();
    EmailKeys();
  }

  /** Lines that assign no entry are kept, each at its place; new lines come after all of them. */
  lemma OtherLinesKept(lines: seq<string>, entries: Entries, order: seq<string>, i: nat)
    requires Lists(order, entries) && i < |lines|
    ensures |Merged(lines, entries, order)| >= |lines|
    ensures (forall key :: key in entries ==> !Assigns(lines[i], key)) ==> Merged(lines, entries, order)[i] == lines[i]
    ensures forall key :: key in entries && Assigns(lines[i], key) ==>
      Merged(lines, entries, order)[i] == Line(key, entries[key])
  {
  }

  // ---------------------------------------------------------------- the text round trip

  ghost predicate NewlineFree(lines: seq<string>) {
    forall line :: line in lines ==> '\n' !in line
  }

  /** Splitting joined lines gives them back, but a carriage return before a newline is lost. */
  lemma {:induction false} SplitJoined(lines: seq<string>)
    requires lines != [] && NewlineFree(lines)
    ensures SplitLines(Join(lines)) == TrimInner(lines)
    decreases |lines|, |lines[0]|
  {
    if lines == [""] {
      assert TrimInner(lines) == lines;
    } else if |lines| > 1 && (lines[0] == "" || lines[0] == "\r") {
      SplitJoined(lines[1..]);
      SplitEmptyHead(lines);
      TrimEmptyHead(lines);
    } else {
      var shorter := [lines[0][1..]] + lines[1..];
      ShorterLines(lines);
      SplitJoined(shorter);
      SplitHead(lines);
      TrimHead(lines);
    }
  }

  lemma SplitEmptyHead(lines: seq<string>)
    requires |lines| > 1 && (lines[0] == "" || lines[0] == "\r")
    ensures SplitLines(Join(lines)) == [""] + SplitLines(Join(lines[1..]))
  {
    JoinEmptyHead(lines);
    if lines[0] == "" {
      SplitAtNewline(Join(lines), Join(lines[1..]));
    } else {
      SplitAtReturn(Join(lines), Join(lines[1..]));
    }
  }

  lemma JoinEmptyHead(lines: seq<string>)
    requires |lines| > 1
    ensures lines[0] == "" ==> Join(lines) == ['\n'] + Join(lines[1..])
    ensures lines[0] == "\r" ==> Join(lines) == ['\r', '\n'] + Join(lines[1..])
  {
    assert "" + "\n" == ['\n'] && "\r" + "\n" == ['\r', '\n'];
  }

  lemma SplitAtNewline(text: string, rest: string)
    requires text == ['\n'] + rest
    ensures SplitLines(text) == [""] + SplitLines(rest)
  {
    assert text[1..] == rest;
  }

  lemma SplitAtReturn(text: string, rest: string)
    requires text == ['\r', '\n'] + rest
    ensures SplitLines(text) == [""] + SplitLines(rest)
  {
    assert text[2..] == rest;
  }

  lemma TrimEmptyHead(lines: seq<string>)
    requires |lines| > 1 && (lines[0] == "" || lines[0] == "\r")
    ensures TrimInner(lines) == [""] + TrimInner(lines[1..])
  {
  }

  lemma SplitChar(text: string)
    requires text != "" && text[0] != '\n' && !(|text| > 1 && text[0] == '\r' && text[1] == '\n')
    ensures var rest := SplitLines(text[1..]); SplitLines(text) == [[text[0]] + rest[0]] + rest[1..]
  {
  }

  lemma SplitHead(lines: seq<string>)
    requires lines != [] && NewlineFree(lines) && lines[0] != "" && !(lines[0] == "\r" && |lines| > 1)
    ensures var rest := SplitLines(Join([lines[0][1..]] + lines[1..]));
      SplitLines(Join(lines)) == [[lines[0][0]] + rest[0]] + rest[1..]
  {
    JoinHead(lines);
    assert lines[0] in lines && lines[0][0] in lines[0];
    assert |lines[0]| == 1 && lines[0][0] == '\r' ==> lines[0] == "\r";
    NoNewlineSecond(lines);
    SplitChar(Join(lines));
  }

  lemma ShorterLines(lines: seq<string>)
    requires lines != [] && lines[0] != "" && NewlineFree(lines)
    ensures NewlineFree([lines[0][1..]] + lines[1..])
  {
    assert lines[0] in lines;
    assert forall c :: c in lines[0][1..] ==> c in lines[0];
  }

  lemma TrimHead(lines: seq<string>)
    requires lines != [] && lines[0] != "" && !(lines[0] == "\r" && |lines| > 1)
    ensures var shorter := [lines[0][1..]] + lines[1..];
      TrimInner(lines) == [[lines[0][0]] + TrimInner(shorter)[0]] + TrimInner(shorter)[1..]
  {
    var shorter := [lines[0][1..]] + lines[1..];
    assert lines[0] == [lines[0][0]] + lines[0][1..];
    if |lines| > 1 && EndsWithReturn(lines[0]) {
      assert lines[0] != "\r" && lines[0][1..] != "";
      assert Trim(lines[0]) == [lines[0][0]] + Trim(lines[0][1..]);
    }
  }

  lemma JoinHead(lines: seq<string>)
    requires lines != [] && lines[0] != ""
    ensures var shorter := [lines[0][1..]] + lines[1..];
      Join(lines) == [lines[0][0]] + Join(shorter) && Join(lines)[1..] == Join(shorter)
  {
  }

  lemma NoNewlineSecond(lines: seq<string>)
    requires lines != [] && lines[0] != "" && '\n' !in lines[0]
    requires lines[0][0] == '\r' ==> |lines[0]| > 1 || |lines| == 1
    ensures var text := Join(lines); !(|text| > 1 && text[0] == '\r' && text[1] == '\n')
  {
  }

  // ---------------------------------------------------------------- writing twice

  /** The lines a second write finds. */
  function Trimmed(lines: seq<string>, newline: bool): seq<string> {
    seq(|lines|, i requires 0 <= i < |lines| => if i < |lines| - 1 || newline then Trim(lines[i]) else lines[i])
  }

  lemma {:induction false} JoinLast(lines: seq<string>)
    requires lines != []
    ensures var last := lines[|lines| - 1]; var text := Join(lines);
      |last| <= |text| && text[|text| - |last|..] == last
      && text[..|text| - |last|] == (if |lines| == 1 then "" else Join(lines[..|lines| - 1]) + "\n")
  {
    if |lines| > 1 {
      JoinLast(lines[1..]);
      var last := lines[|lines| - 1];
      var tail := Join(lines[1..]);
      var text := Join(lines);
      assert text == (lines[0] + "\n") + tail;
      assert text[|text| - |last|..] == tail[|tail| - |last|..];
      assert text[..|text| - |last|] == (lines[0] + "\n") + tail[..|tail| - |last|];
      if |lines| > 2 {
        assert lines[1..][..|lines| - 2] == lines[..|lines| - 1][1..];
        assert Join(lines[..|lines| - 1]) == lines[0] + "\n" + Join(lines[..|lines| - 1][1..]);
      }
    }
  }

  lemma StripNewline(text: string)
    ensures StripFinal(text + "\n") == Trim(text)
  {
    var all := text + "\n";
    if |all| > 1 {
      assert all[|all| - 2..] == [text[|text| - 1], '\n'];
    }
    if EndsWithReturn(text) {
      assert all[..|all| - 2] == Trim(text);
    } else {
      assert all[..|all| - 1] == text;
    }
  }

  lemma TrimJoined(lines: seq<string>)
    requires lines != []
    ensures Trim(Join(lines)) == Join(lines[|lines| - 1 := Trim(lines[|lines| - 1])])
  {
    var last := lines[|lines| - 1];
    var text := Join(lines);
    var trimmed := lines[|lines| - 1 := Trim(last)];
    JoinLast(lines);
    JoinLast(trimmed);
    assert trimmed[..|lines| - 1] == lines[..|lines| - 1];
    var front := text[..|text| - |last|];
    assert text == front + last && Join(trimmed) == front + Trim(last);
    if last != "" {
      assert text[|text| - 1] == last[|last| - 1];
    } else {
      assert text != "" ==> text[|text| - 1] == '\n';
    }
  }

  lemma StripRendered(lines: seq<string>)
    requires lines != []
    ensures StripFinal(Join(lines) + "\n") == Join(lines[|lines| - 1 := Trim(lines[|lines| - 1])])
  {
    StripNewline(Join(lines));
    TrimJoined(lines);
  }

  lemma RenderedWithNewline(lines: seq<string>)
    requires lines != [] && NewlineFree(lines)
    ensures LinesOf(Join(lines) + "\n") == Trimmed(lines, true)
  {
    var last := lines[|lines| - 1];
    var trimmed := lines[|lines| - 1 := Trim(last)];
    StripRendered(lines);
    StrippedLines(Join(lines) + "\n", Join(trimmed));
    LastTrimmed(lines, trimmed);
    SplitJoined(trimmed);
  }

  lemma StrippedLines(text: string, rest: string)
    requires text != "" && StripFinal(text) == rest
    ensures LinesOf(text) == SplitLines(rest)
  {
  }

  lemma LastTrimmed(lines: seq<string>, trimmed: seq<string>)
    requires lines != [] && NewlineFree(lines) && trimmed == lines[|lines| - 1 := Trim(lines[|lines| - 1])]
    ensures NewlineFree(trimmed) && TrimInner(trimmed) == Trimmed(lines, true)
  {
    forall i | 0 <= i < |trimmed| ensures '\n' !in trimmed[i] {
      assert lines[i] in lines;
    }
  }

  lemma RenderedWithout(lines: seq<string>)
    requires lines != [] && NewlineFree(lines) && lines[|lines| - 1] != ""
    ensures LinesOf(Join(lines)) == Trimmed(lines, false) && !EndsWithNewline(Join(lines))
  {
    LastChar(lines);
    NotStripped(Join(lines));
    SplitJoined(lines);
    TrimmedInner(lines);
  }

  lemma LastChar(lines: seq<string>)
    requires lines != [] && NewlineFree(lines) && lines[|lines| - 1] != ""
    ensures Join(lines) != "" && Join(lines)[|Join(lines)| - 1] != '\n'
  {
    var text := Join(lines);
    var last := lines[|lines| - 1];
    JoinLast(lines);
    assert text[|text| - |last|..][|last| - 1] == text[|text| - 1];
    assert last[|last| - 1] in last && last in lines;
  }

  lemma TrimmedInner(lines: seq<string>)
    ensures TrimInner(lines) == Trimmed(lines, false)
  {
  }

  lemma NotStripped(text: string)
    requires text != "" && text[|text| - 1] != '\n'
    ensures StripFinal(text) == text && LinesOf(text) == SplitLines(text)
  {
  }

  /** A second write finds the merged lines, less a carriage return at their ends. */
  lemma RenderedLines(lines: seq<string>, newline: bool)
    requires lines != [] && NewlineFree(lines)
    requires newline || lines[|lines| - 1] != ""
    ensures LinesOf(Rendered(lines, newline)) == Trimmed(lines, newline)
    ensures EndsWithNewline(Rendered(lines, newline)) == newline
  {
    if newline {
      RenderedWithNewline(lines);
    } else {
      RenderedWithout(lines);
    }
  }

  lemma LineHasNoNewline(key: string, value: string)
    requires IsKey(key) && NoNewline(value)
    ensures NoNewline(Line(key, value))
  {
  }

  lemma {:induction false} MissingLines(lines: seq<string>, entries: Entries, order: seq<string>)
    requires Writable(entries) && forall key :: key in order ==> key in entries
    ensures forall line :: line in Missing(lines, entries, order) <==>
      exists key :: key in order && !Placed(lines, key) && line == Line(key, entries[key])
  {
    if order != [] {
      var init, last := order[..|order| - 1], order[|order| - 1];
      assert order == init + [last] && forall key :: key in init ==> key in order;
      MissingLines(lines, entries, init);
    }
  }

  lemma MergedShape(existing: string, entries: Entries, order: seq<string>)
    requires Writable(entries) && Lists(order, entries)
    ensures var lines := Merged(LinesOf(existing), entries, order);
      && NewlineFree(lines)
      && (lines != [] && !FinalNewline(existing, entries, order) ==> lines[|lines| - 1] != "")
  {
    var before := LinesOf(existing);
    MergedNewlineFree(before, entries, order);
    if Merged(before, entries, order) != [] && !FinalNewline(existing, entries, order) {
      OldLastLine(existing);
      assert Merged(before, entries, order) == RewrittenAll(before, entries);
    }
  }

  lemma OldLastLine(existing: string)
    requires LinesOf(existing) != [] && !EndsWithNewline(existing)
    ensures LinesOf(existing)[|LinesOf(existing)| - 1] != ""
  {
    assert StripFinal(existing) == existing;
  }

  lemma MergedNewlineFree(before: seq<string>, entries: Entries, order: seq<string>)
    requires Writable(entries) && Lists(order, entries) && NewlineFree(before)
    ensures NewlineFree(Merged(before, entries, order))
  {
    MissingLines(before, entries, order);
    forall line | line in Merged(before, entries, order) ensures '\n' !in line {
      if line in Missing(before, entries, order) {
        var key :| key in order && line == Line(key, entries[key]);
        LineHasNoNewline(key, entries[key]);
      } else {
        var i :| 0 <= i < |before| && line == Rewritten(before[i], entries);
        assert before[i] in before;
        if line != before[i] {
          var key := Assignment(before[i]).value.0;
          LineHasNoNewline(key, entries[key]);
        }
      }
    }
  }

  /** Rewriting the merged lines again changes none of them. */
  lemma RewriteStable(before: seq<string>, entries: Entries, order: seq<string>)
    requires Writable(entries) && Lists(order, entries)
    ensures var lines := Merged(before, entries, order); RewrittenAll(lines, entries) == lines
  {
    var lines := Merged(before, entries, order);
    MissingLines(before, entries, order);
    forall i | 0 <= i < |lines| ensures Rewritten(lines[i], entries) == lines[i] {
      if i < |before| {
        RewrittenAssigns(before[i], entries);
      } else {
        assert lines[i] == Missing(before, entries, order)[i - |before|];
        assert lines[i] in Missing(before, entries, order);
        var key :| key in order && lines[i] == Line(key, entries[key]);
        AssignmentOfLine(key, entries[key]);
      }
    }
  }

  /** In the merged lines exactly the entries whose value is one line are placed. */
  lemma MissingAgainIff(before: seq<string>, entries: Entries, order: seq<string>)
    requires Writable(entries) && Lists(order, entries)
    ensures Missing(Merged(before, entries, order), entries, order) == [] <==> AllOneLine(entries)
  {
    var lines := Merged(before, entries, order);
    forall key | key in entries ensures Placed(lines, key) <==> OneLine(entries[key]) {
      ReadRewritten(before, entries, key);
      ReadAppended(before, entries, order, RewrittenAll(before, entries), key);
      PlacedIffRead(before, key);
      PlacedIffRead(lines, key);
    }
    MissingLines(lines, entries, order);
    if !AllOneLine(entries) {
      var key :| key in entries && !OneLine(entries[key]);
      assert Line(key, entries[key]) in Missing(lines, entries, order);
    }
    HeadIn(Missing(lines, entries, order));
  }

  // ---------------------------------------------------------------- carriage returns

  function Returns(text: string): nat {
    multiset(text)['\r']
  }

  function ReturnsIn(lines: seq<string>): nat {
    if lines == [] then 0 else Returns(lines[0]) + ReturnsIn(lines[1..])
  }

  lemma {:induction false} ReturnsJoined(lines: seq<string>)
    ensures Returns(Join(lines)) == ReturnsIn(lines)
  {
    if |lines| == 1 {
      assert ReturnsIn(lines[1..]) == 0;
    } else if lines != [] {
      ReturnsJoined(lines[1..]);
      assert Join(lines) == lines[0] + "\n" + Join(lines[1..]);
    }
  }

  lemma {:induction false} ReturnsAppend(a: seq<string>, b: seq<string>)
    ensures ReturnsIn(a + b) == ReturnsIn(a) + ReturnsIn(b)
  {
    if a == [] {
      assert a + b == b;
    } else {
      ReturnsAppend(a[1..], b);
      assert (a + b)[1..] == a[1..] + b;
    }
  }

  lemma {:induction false} FewerReturns(a: seq<string>, b: seq<string>, k: nat)
    requires |a| == |b| && forall i :: 0 <= i < |a| ==> Returns(a[i]) <= Returns(b[i])
    ensures ReturnsIn(a) <= ReturnsIn(b)
    ensures k < |a| && Returns(a[k]) < Returns(b[k]) ==> ReturnsIn(a) < ReturnsIn(b)
  {
    if a != [] {
      FewerReturns(a[1..], b[1..], if k == 0 then |a| else k - 1);
    }
  }

  lemma TrimReturns(line: string)
    ensures Returns(Trim(line)) == if EndsWithReturn(line) then Returns(line) - 1 else Returns(line)
  {
    if EndsWithReturn(line) {
      assert line == Trim(line) + ['\r'];
    }
  }

  lemma RewrittenReturns(line: string, entries: Entries)
    requires Writable(entries)
    ensures Returns(Rewritten(line, entries)) <= Returns(line)
  {
  }

  lemma {:induction false} NoReturns(lines: seq<string>)
    requires forall line :: line in lines ==> NoNewline(line)
    ensures ReturnsIn(lines) == 0
  {
    if lines != [] {
      assert lines[0] in lines && '\r' !in multiset(lines[0]);
      forall line | line in lines[1..] ensures NoNewline(line) {
        assert line in lines;
      }
      NoReturns(lines[1..]);
    }
  }

  lemma MergedReturns(before: seq<string>, entries: Entries, order: seq<string>)
    requires Writable(entries) && Lists(order, entries)
    ensures ReturnsIn(Merged(before, entries, order)) <= ReturnsIn(before)
  {
    MissingLines(before, entries, order);
    forall line | line in Missing(before, entries, order) ensures NoNewline(line) {
      var key :| key in order && line == Line(key, entries[key]);
      LineHasNoNewline(key, entries[key]);
    }
    NoReturns(Missing(before, entries, order));
    ReturnsAppend(RewrittenAll(before, entries), Missing(before, entries, order));
    forall i | 0 <= i < |before| ensures Returns(RewrittenAll(before, entries)[i]) <= Returns(before[i]) {
      RewrittenReturns(before[i], entries);
    }
    FewerReturns(RewrittenAll(before, entries), before, |before|);
  }

  /** No merged line that a newline follows ends in a carriage return. */
  ghost predicate NoLostReturn(lines: seq<string>, newline: bool) {
    forall i :: 0 <= i < |lines| && EndsWithReturn(lines[i]) ==> i == |lines| - 1 && !newline
  }

  lemma RenderedReturns(lines: seq<string>, newline: bool)
    ensures Returns(Rendered(lines, newline)) == ReturnsIn(lines)
  {
  }

  lemma TrimmedReturns(lines: seq<string>, newline: bool)
    ensures NoLostReturn(lines, newline) ==> Trimmed(lines, newline) == lines
    ensures !NoLostReturn(lines, newline) ==> ReturnsIn(Trimmed(lines, newline)) < ReturnsIn(lines)
  {
    var trimmed := Trimmed(lines, newline);
    forall i | 0 <= i < |lines| ensures Returns(trimmed[i]) <= Returns(lines[i]) {
      TrimReturns(lines[i]);
    }
    if NoLostReturn(lines, newline) {
      assert trimmed == lines;
    } else {
      var k: nat :| k < |lines| && EndsWithReturn(lines[k]) && !(k == |lines| - 1 && !newline);
      TrimReturns(lines[k]);
      FewerReturns(trimmed, lines, k);
    }
  }

  lemma {:induction false} JoinLonger(a: seq<string>, b: seq<string>)
    requires a != [] && b != []
    ensures |Join(a + b)| > |Join(a)|
  {
    if |a| > 1 {
      JoinLonger(a[1..], b);
      assert (a + b)[1..] == a[1..] + b;
    } else {
      assert (a + b)[1..] == b;
    }
  }

  lemma WrittenAgain(existing: string, entries: Entries, order: seq<string>)
    requires Writable(entries) && Lists(order, entries) && Merged(LinesOf(existing), entries, order) != []
    ensures var lines := Merged(LinesOf(existing), entries, order);
      var newline := FinalNewline(existing, entries, order);
      var found := Trimmed(lines, newline);
      Written(Written(existing, entries, order), entries, order)
        == Rendered(Merged(found, entries, order), newline || Missing(found, entries, order) != [])
  {
    MergedShape(existing, entries, order);
    RenderedLines(Merged(LinesOf(existing), entries, order), FinalNewline(existing, entries, order));
  }

  /** The written text ends in a newline when the old one did or an entry is new to it. */
  ghost predicate GetsNewline(existing: string, entries: Entries) {
    EndsWithNewline(existing) || exists key :: key in entries && !Placed(LinesOf(existing), key)
  }

  lemma NewlineIff(existing: string, entries: Entries, order: seq<string>)
    requires Writable(entries) && Lists(order, entries)
    ensures FinalNewline(existing, entries, order) <==> GetsNewline(existing, entries)
  {
    var before := LinesOf(existing);
    MissingLines(before, entries, order);
    HeadIn(Missing(before, entries, order));
    if key :| key in entries && !Placed(before, key) {
      assert Line(key, entries[key]) in Missing(before, entries, order);
    }
  }

  /** A line that ends in a carriage return is no assignment: the pattern stops before the return and misses the end. */
  lemma ReturnNoAssignment(line: string)
    requires EndsWithReturn(line)
    ensures Assignment(line).None?
  {
    var text := SkipSpaces(line);
    var n := WordLength(text);
    SkipKeepsEnd(line);
    if n > 0 {
      SkipKeepsEnd(text[n..]);
      var rest := SkipSpaces(text[n..]);
      if rest != "" && rest[0] == '=' {
        assert text[n..][|text[n..]| - 1] == text[|text| - 1] == '\r';
        assert rest[|rest| - 1] == '\r' && rest[1..][|rest| - 2] == '\r';
        assert rest[1..][|rest| - 2] in rest[1..];
      }
    }
  }

  lemma {:induction false} SkipKeepsEnd(text: string)
    ensures SkipSpaces(text) != "" ==> text != "" && SkipSpaces(text)[|SkipSpaces(text)| - 1] == text[|text| - 1]
  {
    if text != "" && IsSpace(text[0]) {
      SkipKeepsEnd(text[1..]);
    }
  }

  lemma LineNoReturn(key: string, value: string)
    requires IsKey(key) && NoNewline(value)
    ensures !EndsWithReturn(Line(key, value)) && Trim(Line(key, value)) == Line(key, value)
  {
    LineHasNoNewline(key, value);
    var line := Line(key, value);
    assert line[|line| - 1] in line;
  }

  /** The lines that end in a carriage return are those of the old file. */
  lemma MergedLineEnds(before: seq<string>, entries: Entries, order: seq<string>, i: nat)
    requires Writable(entries) && Lists(order, entries) && i < |Merged(before, entries, order)|
    ensures var line := Merged(before, entries, order)[i];
      if i < |before| && EndsWithReturn(before[i]) then line == before[i] else !EndsWithReturn(line)
  {
    var line := Merged(before, entries, order)[i];
    if i < |before| {
      if EndsWithReturn(before[i]) {
        ReturnNoAssignment(before[i]);
      } else if line != before[i] {
        LineNoReturn(Assignment(before[i]).value.0, entries[Assignment(before[i]).value.0]);
      }
    } else {
      MissingLines(before, entries, order);
      assert line in Missing(before, entries, order);
      var key :| key in order && line == Line(key, entries[key]);
      LineNoReturn(key, entries[key]);
    }
  }

  /** The merge loses a return exactly when the old file has one to lose. */
  lemma LostReturnIff(existing: string, entries: Entries, order: seq<string>)
    requires Writable(entries) && Lists(order, entries)
    ensures var before := LinesOf(existing);
      (NoLostReturn(Merged(before, entries, order), FinalNewline(existing, entries, order))
       <==> NoLostReturn(before, GetsNewline(existing, entries)))
  {
    var before := LinesOf(existing);
    var lines := Merged(before, entries, order);
    NewlineIff(existing, entries, order);
    forall i | 0 <= i < |lines| ensures EndsWithReturn(lines[i]) <==> i < |before| && EndsWithReturn(before[i]) {
      MergedLineEnds(before, entries, order, i);
    }
  }

  /**
   * Writing the same entries twice equals writing them once exactly when every value is one line for the
   * assignment pattern and no line of the old file ends in a carriage return that the newline after it swallows.
   */
  lemma WriteTwiceIff(existing: string, entries: Entries, order: seq<string>)
    requires Writable(entries) && Lists(order, entries)
    ensures Written(Written(existing, entries, order), entries, order) == Written(existing, entries, order)
      <==> AllOneLine(entries) && NoLostReturn(LinesOf(existing), GetsNewline(existing, entries))
  {
    LostReturnIff(existing, entries, order);
    WriteTwiceMergedIff(existing, entries, order);
  }

  lemma WriteTwiceMergedIff(existing: string, entries: Entries, order: seq<string>)
    requires Writable(entries) && Lists(order, entries)
    ensures Written(Written(existing, entries, order), entries, order) == Written(existing, entries, order)
      <==> (AllOneLine(entries)
            && NoLostReturn(Merged(LinesOf(existing), entries, order), FinalNewline(existing, entries, order)))
  {
    var before := LinesOf(existing);
    var lines := Merged(before, entries, order);
    var newline := FinalNewline(existing, entries, order);
    if lines == [] {
      NothingWritten(existing, entries, order);
    } else {
      var found := Trimmed(lines, newline);
      WrittenAgain(existing, entries, order);
      TrimmedReturns(lines, newline);
      if NoLostReturn(lines, newline) {
        WriteAgainKept(before, lines, entries, order, newline);
      } else {
        MergedReturns(found, entries, order);
        RenderedReturns(lines, newline);
        RenderedReturns(Merged(found, entries, order), newline || Missing(found, entries, order) != []);
      }
    }
  }

  lemma NothingWritten(existing: string, entries: Entries, order: seq<string>)
    requires Writable(entries) && Lists(order, entries) && Merged(LinesOf(existing), entries, order) == []
    ensures Written(existing, entries, order) == "" && Written("", entries, order) == "" && AllOneLine(entries)
  {
  }

  lemma WriteAgainKept(before: seq<string>, lines: seq<string>, entries: Entries, order: seq<string>, newline: bool)
    requires Writable(entries) && Lists(order, entries) && lines == Merged(before, entries, order) && lines != []
    ensures Rendered(Merged(lines, entries, order), newline || Missing(lines, entries, order) != [])
      == Rendered(lines, newline)
      <==> AllOneLine(entries)
  {
    RewriteStable(before, entries, order);
    MissingAgainIff(before, entries, order);
    var added := Missing(lines, entries, order);
    assert Merged(lines, entries, order) == lines + added;
    if added == [] {
      assert lines + added == lines;
    } else {
      JoinLonger(lines, added);
      assert |Rendered(lines, newline)| <= |Join(lines)| + 1;
      assert |Rendered(lines + added, true)| == |Join(lines + added)| + 1;
    }
  }

  // ---------------------------------------------------------------- reading the written file back

  ghost predicate NoneAfter(lines: seq<string>, i: nat, key: string) {
    forall j :: i < j < |lines| ==> !Assigns(lines[j], key)
  }

  /** The last line that assigns a key decides its value. */
  lemma {:induction false} ReadAt(lines: seq<string>, i: nat, key: string)
    requires i < |lines| && Assigns(lines[i], key) && NoneAfter(lines, i, key)
    ensures key in Read(lines) && Read(lines)[key] == Assignment(lines[i]).value.1
  {
    var init, last := lines[..|lines| - 1], lines[|lines| - 1];
    assert lines == init + [last];
    ReadSnoc(init, last);
    if i < |lines| - 1 {
      assert NoneAfter(init, i, key);
      ReadAt(init, i, key);
    }
  }

  lemma {:induction false} LastAssigner(lines: seq<string>, key: string) returns (i: nat)
    requires Placed(lines, key)
    ensures i < |lines| && Assigns(lines[i], key) && NoneAfter(lines, i, key)
  {
    i := |lines| - 1;
    if !Assigns(lines[i], key) {
      var init := lines[..i];
      PlacedNext(lines, i);
      assert lines[..i + 1] == lines;
      i := LastAssigner(init, key);
    }
  }

  ghost predicate LosesReturn(before: seq<string>, newline: bool, i: nat) {
    i < |before| && EndsWithReturn(before[i]) && (i < |before| - 1 || newline)
  }

  /** What a reader should find for a key afterwards. */
  ghost function Wanted(before: seq<string>, entries: Entries, key: string): Option<string> {
    if key in entries then Some(entries[key]) else if key in Read(before) then Some(Read(before)[key]) else None
  }

  /** A later line, or the appended entry, decides the key that line `i` assigns. */
  ghost predicate Overruled(before: seq<string>, newline: bool, entries: Entries, i: nat, key: string) {
    !NoneAfter(Trimmed(before, newline), i, key) || (key in entries && !Placed(before, key))
  }

  /** Line `i`, once its return is lost, assigns nothing, or is overruled, or assigns what is wanted anyway. */
  ghost predicate HarmlessLoss(before: seq<string>, newline: bool, entries: Entries, i: nat)
    requires i < |before|
  {
    var m := Assignment(Trim(before[i]));
    LosesReturn(before, newline, i) && m.Some? ==>
      Overruled(before, newline, entries, i, m.value.0) || Wanted(before, entries, m.value.0) == Some(m.value.1)
  }

  ghost predicate LossesHarmless(before: seq<string>, newline: bool, entries: Entries) {
    forall i: nat :: i < |before| ==> HarmlessLoss(before, newline, entries, i)
  }

  /** The written file is `found`: old lines rewritten or with their return lost, then the new entries. */
  lemma FoundLines(before: seq<string>, entries: Entries, order: seq<string>, newline: bool)
    requires Writable(entries) && Lists(order, entries) && (Missing(before, entries, order) != [] ==> newline)
    ensures var found := Trimmed(Merged(before, entries, order), newline);
      && |found| == |before| + |Missing(before, entries, order)|
      && (forall i: nat :: i < |before| ==>
        found[i] == if EndsWithReturn(before[i]) then Trimmed(before, newline)[i] else Rewritten(before[i], entries))
      && found[|before|..] == Missing(before, entries, order)
  {
    var lines := Merged(before, entries, order);
    forall i: nat | i < |lines| && !(i < |before| && EndsWithReturn(before[i]))
      ensures Trimmed(lines, newline)[i] == lines[i] {
      MergedLineEnds(before, entries, order, i);
    }
    forall i: nat | i < |before| && EndsWithReturn(before[i]) ensures lines[i] == before[i] {
      MergedLineEnds(before, entries, order, i);
    }
  }

  /** When all values are one line, the same old lines assign the same keys before and after the rewrite. */
  lemma FoundAssigns(before: seq<string>, entries: Entries, order: seq<string>, newline: bool, i: nat)
    requires Writable(entries) && Lists(order, entries) && AllOneLine(entries)
      && (Missing(before, entries, order) != [] ==> newline)
    requires i < |before| && i < |Trimmed(Merged(before, entries, order), newline)|
    ensures var m := Assignment(Trimmed(before, newline)[i]);
      Assignment(Trimmed(Merged(before, entries, order), newline)[i])
        == if m.Some? && !EndsWithReturn(before[i]) && m.value.0 in entries then Some((m.value.0, entries[m.value.0]))
          else m
  {
    FoundLines(before, entries, order, newline);
    if !EndsWithReturn(before[i]) {
      RewrittenAssigns(before[i], entries);
    }
  }

  /** An entry that no line placed is read from its own line at the end. */
  lemma AppendedReads(before: seq<string>, entries: Entries, order: seq<string>, newline: bool, key: string)
    requires Writable(entries) && Lists(order, entries) && AllOneLine(entries)
      && (Missing(before, entries, order) != [] ==> newline)
    requires key in entries && !Placed(before, key)
    ensures var now := Read(Trimmed(Merged(before, entries, order), newline)); key in now && now[key] == entries[key]
  {
    var found := Trimmed(Merged(before, entries, order), newline);
    FoundLines(before, entries, order, newline);
    ReadAppended(before, entries, order, found[..|before|], key);
    assert found == found[..|before|] + Missing(before, entries, order);
  }

  /** Appended lines assign keys no line placed. */
  lemma OthersNotAppended(before: seq<string>, entries: Entries, order: seq<string>, newline: bool, key: string)
    requires Writable(entries) && Lists(order, entries) && AllOneLine(entries)
      && (Missing(before, entries, order) != [] ==> newline)
    requires key !in entries || Placed(before, key)
    ensures var found := Trimmed(Merged(before, entries, order), newline);
      forall j :: |before| <= j < |found| ==> !Assigns(found[j], key)
  {
    var found := Trimmed(Merged(before, entries, order), newline);
    FoundLines(before, entries, order, newline);
    MissingLines(before, entries, order);
    forall j | |before| <= j < |found| ensures !Assigns(found[j], key) {
      assert found[j] == found[|before|..][j - |before|] && found[j] in Missing(before, entries, order);
      var k :| k in order && !Placed(before, k) && found[j] == Line(k, entries[k]);
      AssignmentOfLine(k, entries[k]);
    }
  }

  /** The value read for a key is that of the last old line assigning it, once lost returns are out of the way. */
  lemma DecidedAt(before: seq<string>, entries: Entries, order: seq<string>, newline: bool, key: string, i: nat)
    requires Writable(entries) && Lists(order, entries) && AllOneLine(entries)
      && (Missing(before, entries, order) != [] ==> newline)
    requires key !in entries || Placed(before, key)
    requires i < |before| && Assigns(Trimmed(before, newline)[i], key) && NoneAfter(Trimmed(before, newline), i, key)
    ensures var now := Read(Trimmed(Merged(before, entries, order), newline));
      key in now
      && now[key] == if !EndsWithReturn(before[i]) && key in entries then entries[key]
                     else Assignment(Trimmed(before, newline)[i]).value.1
  {
    var found := Trimmed(Merged(before, entries, order), newline);
    FoundLines(before, entries, order, newline);
    OthersNotAppended(before, entries, order, newline, key);
    FoundAssigns(before, entries, order, newline, i);
    forall j | i < j < |found| ensures !Assigns(found[j], key) {
      if j < |before| {
        FoundAssigns(before, entries, order, newline, j);
        assert !Assigns(Trimmed(before, newline)[j], key);
      }
    }
    ReadAt(found, i, key);
  }

  /** What the old file read for a key that a line without return decides. */
  lemma OldDecidedAt(before: seq<string>, newline: bool, key: string, i: nat)
    requires i < |before| && Assigns(Trimmed(before, newline)[i], key) && NoneAfter(Trimmed(before, newline), i, key)
    requires !EndsWithReturn(before[i])
    ensures key in Read(before) && Read(before)[key] == Assignment(Trimmed(before, newline)[i]).value.1
  {
    forall j | i < j < |before| ensures !Assigns(before[j], key) {
      assert !Assigns(Trimmed(before, newline)[j], key);
      if EndsWithReturn(before[j]) {
        ReturnNoAssignment(before[j]);
      }
    }
    ReadAt(before, i, key);
  }

  lemma PlacedTrimmed(before: seq<string>, newline: bool, key: string)
    requires Placed(before, key)
    ensures Placed(Trimmed(before, newline), key)
  {
    var line :| line in before && Assigns(line, key);
    var i :| 0 <= i < |before| && before[i] == line;
    if EndsWithReturn(before[i]) {
      ReturnNoAssignment(before[i]);
    }
    assert Trimmed(before, newline)[i] == line;
  }

  ghost predicate ReadsWanted(before: seq<string>, entries: Entries, now: map<string, string>, key: string) {
    if key in now then Wanted(before, entries, key) == Some(now[key]) else Wanted(before, entries, key) == None
  }

  /** Line `i` is where a lost return would spoil `key`. */
  ghost predicate Spoils(before: seq<string>, newline: bool, entries: Entries, i: nat, key: string) {
    && LosesReturn(before, newline, i) && Assigns(Trim(before[i]), key)
    && !Overruled(before, newline, entries, i, key)
      && Wanted(before, entries, key) != Some(Assignment(Trim(before[i])).value.1)
  }

  ghost predicate Unspoilt(before: seq<string>, newline: bool, entries: Entries, key: string) {
    forall i: nat :: !Spoils(before, newline, entries, i, key)
  }

  lemma UnassignedKey(before: seq<string>, entries: Entries, order: seq<string>, newline: bool, key: string)
    requires Writable(entries) && Lists(order, entries) && AllOneLine(entries)
      && (Missing(before, entries, order) != [] ==> newline)
    requires key !in entries && !Placed(Trimmed(before, newline), key)
    ensures key !in Read(before) && key !in Read(Trimmed(Merged(before, entries, order), newline))
  {
    var found := Trimmed(Merged(before, entries, order), newline);
    if Placed(before, key) {
      PlacedTrimmed(before, newline, key);
    }
    PlacedIffRead(before, key);
    FoundLines(before, entries, order, newline);
    OthersNotAppended(before, entries, order, newline, key);
    forall j | 0 <= j < |found| ensures !Assigns(found[j], key) {
      if j < |before| {
        FoundAssigns(before, entries, order, newline, j);
        assert Trimmed(before, newline)[j] in Trimmed(before, newline);
      }
    }
    PlacedIffRead(found, key);
  }

  /** A key reads as wanted exactly when no lost return spoils it. */
  lemma KeyReadsBackIff(before: seq<string>, entries: Entries, order: seq<string>, newline: bool, key: string)
    requires Writable(entries) && Lists(order, entries) && AllOneLine(entries)
      && (Missing(before, entries, order) != [] ==> newline)
    ensures ReadsWanted(before, entries, Read(Trimmed(Merged(before, entries, order), newline)), key)
      <==> Unspoilt(before, newline, entries, key)
  {
    if key in entries && !Placed(before, key) {
      AppendedReads(before, entries, order, newline, key);
    } else if Placed(Trimmed(before, newline), key) {
      var i := LastAssigner(Trimmed(before, newline), key);
      DecidedAt(before, entries, order, newline, key, i);
      forall j: nat | Spoils(before, newline, entries, j, key) ensures j == i {
        assert Assigns(Trimmed(before, newline)[j], key);
      }
      if EndsWithReturn(before[i]) {
        if !LosesReturn(before, newline, i) {
          ReturnNoAssignment(before[i]);
        }
        assert Trimmed(before, newline)[i] == Trim(before[i]);
        assert Spoils(before, newline, entries, i, key)
          <==> Wanted(before, entries, key) != Some(Assignment(Trim(before[i])).value.1);
      } else {
        OldDecidedAt(before, newline, key, i);
      }
    } else {
      if Placed(before, key) {
        PlacedTrimmed(before, newline, key);
      }
      UnassignedKey(before, entries, order, newline, key);
      forall j: nat | Spoils(before, newline, entries, j, key)
        ensures Trimmed(before, newline)[j] in Trimmed(before, newline) {
      }
    }
  }

  lemma WantedMap(before: seq<string>, entries: Entries, now: map<string, string>)
    ensures now == Read(before) + entries <==> forall key :: ReadsWanted(before, entries, now, key)
  {
    var wanted := Read(before) + entries;
    forall key ensures Wanted(before, entries, key) == if key in wanted then Some(wanted[key]) else None {
    }
    if forall key :: ReadsWanted(before, entries, now, key) {
      forall key ensures key in now <==> key in wanted {
        assert ReadsWanted(before, entries, now, key);
      }
      forall key | key in now ensures now[key] == wanted[key] {
        assert ReadsWanted(before, entries, now, key);
      }
      assert now == wanted;
    }
  }

  lemma {:induction false} ReadOneLine(lines: seq<string>)
    ensures forall key :: key in Read(lines) ==> OneLine(Read(lines)[key])
  {
    if lines != [] {
      ReadOneLine(lines[..|lines| - 1]);
    }
  }

  lemma SpoilsIff(before: seq<string>, newline: bool, entries: Entries)
    ensures (forall key :: Unspoilt(before, newline, entries, key)) <==> LossesHarmless(before, newline, entries)
  {
    if !LossesHarmless(before, newline, entries) {
      var i: nat :| i < |before| && !HarmlessLoss(before, newline, entries, i);
      assert Spoils(before, newline, entries, i, Assignment(Trim(before[i])).value.0);
      assert !Unspoilt(before, newline, entries, Assignment(Trim(before[i])).value.0);
    } else {
      forall key ensures Unspoilt(before, newline, entries, key) {
        forall i: nat ensures !Spoils(before, newline, entries, i, key) {
          assert i < |before| ==> HarmlessLoss(before, newline, entries, i);
        }
      }
    }
  }

  lemma FoundReadsBackIff(before: seq<string>, entries: Entries, order: seq<string>, newline: bool)
    requires Writable(entries) && Lists(order, entries) && (Missing(before, entries, order) != [] ==> newline)
    ensures Read(Trimmed(Merged(before, entries, order), newline)) == Read(before) + entries
      <==> AllOneLine(entries) && LossesHarmless(before, newline, entries)
  {
    var now := Read(Trimmed(Merged(before, entries, order), newline));
    WantedMap(before, entries, now);
    if !AllOneLine(entries) {
      var key :| key in entries && !OneLine(entries[key]);
      ReadOneLine(Trimmed(Merged(before, entries, order), newline));
      assert !ReadsWanted(before, entries, now, key);
    } else {
      SpoilsIff(before, newline, entries);
      forall key ensures ReadsWanted(before, entries, now, key) <==> Unspoilt(before, newline, entries, key) {
        KeyReadsBackIff(before, entries, order, newline, key);
      }
    }
  }

  /**
   * Reading the written file back gives the old map overridden by the entries if and only if every value is one line
   * and every line that loses its carriage return then assigns nothing, is overruled or assigns what is wanted anyway.
   */
  lemma FileReadsBackIff(existing: string, entries: Entries, order: seq<string>)
    requires Writable(entries) && Lists(order, entries)
    ensures Read(LinesOf(Written(existing, entries, order))) == Read(LinesOf(existing)) + entries
      <==> AllOneLine(entries) && LossesHarmless(LinesOf(existing), GetsNewline(existing, entries), entries)
  {
    var before := LinesOf(existing);
    var lines := Merged(before, entries, order);
    NewlineIff(existing, entries, order);
    if lines == [] {
      NothingWritten(existing, entries, order);
    } else {
      MergedShape(existing, entries, order);
      RenderedLines(lines, FinalNewline(existing, entries, order));
      FoundReadsBackIff(before, entries, order, FinalNewline(existing, entries, order));
    }
  }

  // ---------------------------------------------------------------- the failing cases

  /** A value with the line separator U+2028 passes validation and is not read back. */
  lemma SeparatorIsLost()
    ensures var entries := map["PORT" := "1\U{2028}"];
      Writable(entries) && Lists(["PORT"], entries) && Read(Merged([], entries, ["PORT"])) != Read([]) + entries
      && Written(Written("", entries, ["PORT"]), entries, ["PORT"]) != Written("", entries, ["PORT"])
  {
    var entries := map["PORT" := "1\U{2028}"];
    ServerKeys();
    assert "1\U{2028}"[1] in "1\U{2028}" && !OneLine("1\U{2028}");
    ReadMergedIff([], entries, ["PORT"]);
    WriteTwiceIff("", entries, ["PORT"]);
  }

  /** Two carriage returns before a newline hide an assignment, which a write that touches nothing else brings out. */
  lemma ReturnIsLost()
    ensures Written("A=1\r\r\n", map[], []) == "A=1\r\n"
    ensures Read(LinesOf("A=1\r\r\n")) == map[] && Read(LinesOf("A=1\r\n")) == map["A" := "1"]
  {
    HiddenLine();
    assert Read(["A=1\r"][..0]) == map[] && Read(["A=1"][..0]) == map[];
    ReturnNoAssignment("A=1\r");
    AssignmentOfLine("A", "1");
    assert Line("A", "1") == "A=1";
    assert Merged(["A=1\r"], map[], []) == ["A=1\r"];
  }

  lemma HiddenLine()
    ensures LinesOf("A=1\r\r\n") == ["A=1\r"] && LinesOf("A=1\r\n") == ["A=1"]
  {
    assert Rendered(["A=1\r\r"], true) == "A=1\r\r\n" && Rendered(["A=1\r"], true) == "A=1\r\n";
    RenderedLines(["A=1\r\r"], true);
    RenderedLines(["A=1\r"], true);
    assert Trim("A=1\r\r") == "A=1\r" && Trim("A=1\r") == "A=1";
  }
}
