/** The assignment pattern of the dotenv writer read as a pattern, and what a merge leaves line by line. */
module EnvPattern {
  import opened Common
  import opened EnvFile

  // ---------------------------------------------------------------- the pattern

  predicate AllSpaces(text: string) {
    forall c :: c in text ==> IsSpace(c)
  }

  /** Some way to split the line into spaces, a name, spaces, an equals sign and a value on one line. */
  ghost predicate Matches(line: string, key: string, value: string) {
    exists indent, gap :: MatchesAs(line, indent, key, gap, value)
  }

  ghost predicate MatchesAs(line: string, indent: string, key: string, gap: string, value: string) {
    AllSpaces(indent) && IsKey(key) && AllSpaces(gap) && OneLine(value) && line == indent + key + gap + "=" + value
  }

  /** Space, tab, the line and page breaks, and the Unicode spaces with the byte order mark. */
  lemma SpaceCodes(c: char)
    ensures IsSpace(c) <==> (9 <= c as int <= 13 || c as int == 32 || c as int == 160 || c as int == 0x1680
      || 0x2000 <= c as int <= 0x200A || c as int in {0x2028, 0x2029, 0x202F, 0x205F, 0x3000, 0xFEFF})
    ensures IsTerminator(c) <==> c as int in {10, 13, 0x2028, 0x2029}
    ensures IsLetter(c) <==> 65 <= c as int <= 90 || 97 <= c as int <= 122 || c as int == 95
    ensures IsWord(c) <==> IsLetter(c) || 48 <= c as int <= 57
  {
  }

  lemma {:induction false} SkipsAll(indent: string, text: string)
    requires AllSpaces(indent) && (text == "" || !IsSpace(text[0]))
    ensures SkipSpaces(indent + text) == text
  {
    if indent == "" {
      assert indent + text == text;
    } else {
      assert indent[0] in indent && (indent + text)[1..] == indent[1..] + text;
      SkipsAll(indent[1..], text);
    }
  }

  lemma {:induction false} WordEnds(key: string, text: string)
    requires (forall i :: 0 <= i < |key| ==> IsWord(key[i])) && (text == "" || !IsWord(text[0]))
    ensures WordLength(key + text) == |key|
  {
    if key == "" {
      assert key + text == text;
    } else {
      assert (key + text)[1..] == key[1..] + text;
      WordEnds(key[1..], text);
    }
  }

  lemma {:induction false} Skipped(text: string) returns (indent: string)
    ensures AllSpaces(indent) && text == indent + SkipSpaces(text)
  {
    if text != "" && IsSpace(text[0]) {
      var rest := Skipped(text[1..]);
      indent := [text[0]] + rest;
      assert text == [text[0]] + text[1..];
    } else {
      indent := "";
    }
  }

  lemma NoSpaceInWord(c: char)
    requires IsWord(c)
    ensures !IsSpace(c) && c != '='
  {
    SpaceCodes(c);
  }

  lemma MatchParsed(line: string, indent: string, key: string, gap: string, value: string)
    requires MatchesAs(line, indent, key, gap, value)
    ensures Assignment(line) == Some((key, value))
  {
    var tail := "=" + value;
    assert line == indent + (key + (gap + tail));
    NoSpaceInWord(key[0]);
    SkipsAll(indent, key + (gap + tail));
    assert gap + tail != "" && !IsWord((gap + tail)[0]) by {
      if gap != "" {
        assert gap[0] in gap && (gap + tail)[0] == gap[0];
        if IsWord(gap[0]) {
          NoSpaceInWord(gap[0]);
        }
      }
    }
    WordEnds(key, gap + tail);
    assert (key + (gap + tail))[|key|..] == gap + tail && (key + (gap + tail))[..|key|] == key;
    SkipsAll(gap, tail);
    assert tail[1..] == value;
  }

  lemma ParsedMatch(line: string, key: string, value: string)
    requires Assignment(line) == Some((key, value))
    ensures Matches(line, key, value)
  {
    var text := SkipSpaces(line);
    var indent := Skipped(line);
    var n := WordLength(text);
    var gap := Skipped(text[n..]);
    var rest := SkipSpaces(text[n..]);
    assert key == text[..n] && value == rest[1..] && rest[0] == '=';
    PiecesJoined(line, indent, text, n, gap, rest);
    assert MatchesAs(line, indent, key, gap, value);
  }

  lemma PiecesJoined(line: string, indent: string, text: string, n: nat, gap: string, rest: string)
    requires line == indent + text && n <= |text| && text[n..] == gap + rest && rest != "" && rest[0] == '='
    ensures line == indent + text[..n] + gap + "=" + rest[1..]
  {
    assert text == text[..n] + text[n..] && rest == "=" + rest[1..];
  }

  /** The parse finds a match exactly when there is one, and there is at most one. */
  lemma AssignmentIff(line: string, key: string, value: string)
    ensures Assignment(line) == Some((key, value)) <==> Matches(line, key, value)
  {
    if Matches(line, key, value) {
      var indent, gap :| MatchesAs(line, indent, key, gap, value);
      MatchParsed(line, indent, key, gap, value);
    }
    if Assignment(line) == Some((key, value)) {
      ParsedMatch(line, key, value);
    }
  }

  // ---------------------------------------------------------------- the merge, line by line

  /** Every line that assigns an entry becomes the entry, name, equals sign and value; every other line stays. */
  lemma MergedLine(lines: seq<string>, entries: Entries, order: seq<string>, i: nat)
    requires Lists(order, entries) && i < |lines|
    ensures i < |Merged(lines, entries, order)|
    ensures forall key, value :: Matches(lines[i], key, value) && key in entries ==>
      Merged(lines, entries, order)[i] == key + "=" + entries[key]
    ensures (forall key, value :: Matches(lines[i], key, value) ==> key !in entries) ==>
      Merged(lines, entries, order)[i] == lines[i]
  {
    var m := Assignment(lines[i]);
    forall key, value | Matches(lines[i], key, value) ensures m == Some((key, value)) {
      AssignmentIff(lines[i], key, value);
    }
    if m.Some? {
      AssignmentIff(lines[i], m.value.0, m.value.1);
    }
    assert Merged(lines, entries, order)[i] == Rewritten(lines[i], entries);
  }

  ghost predicate IsPlaced(lines: seq<string>, key: string) {
    exists i, value :: 0 <= i < |lines| && Matches(lines[i], key, value)
  }

  lemma PlacedIff(lines: seq<string>, key: string)
    ensures Placed(lines, key) <==> IsPlaced(lines, key)
  {
    if Placed(lines, key) {
      var line :| line in lines && Assigns(line, key);
      var i :| 0 <= i < |lines| && lines[i] == line;
      AssignmentIff(line, key, Assignment(line).value.1);
    }
    if IsPlaced(lines, key) {
      var i, value :| 0 <= i < |lines| && Matches(lines[i], key, value);
      AssignmentIff(lines[i], key, value);
      assert lines[i] in lines && Assigns(lines[i], key);
    }
  }

  /** How many of the entries have no line. */
  ghost function Unplaced(lines: seq<string>, order: seq<string>): nat {
    if order == [] then 0
    else Unplaced(lines, order[..|order| - 1]) + if IsPlaced(lines, order[|order| - 1]) then 0 else 1
  }

  /** The entry at `i` has its line in `added`, behind one for each entry before it without a line. */
  ghost predicate AddedAt(lines: seq<string>, entries: Entries, order: seq<string>, added: seq<string>, i: nat)
    requires i < |order|
  {
    IsPlaced(lines, order[i]) || (order[i] in entries && Unplaced(lines, order[..i]) < |added|
      && added[Unplaced(lines, order[..i])] == order[i] + "=" + entries[order[i]])
  }

  ghost predicate AddedInOrder(lines: seq<string>, entries: Entries, order: seq<string>, added: seq<string>) {
    |added| == Unplaced(lines, order) && forall i: nat :: i < |order| ==> AddedAt(lines, entries, order, added, i)
  }

  /** After the old lines come the entries without a line, in the order of the entries and nothing else. */
  lemma {:induction false} AppendedInOrder(lines: seq<string>, entries: Entries, order: seq<string>)
    requires forall key :: key in order ==> key in entries
    ensures AddedInOrder(lines, entries, order, Missing(lines, entries, order))
  {
    if order != [] {
      var init, key := order[..|order| - 1], order[|order| - 1];
      assert order == init + [key];
      assert key in order && forall k :: k in init ==> k in order;
      AppendedInOrder(lines, entries, init);
      PlacedIff(lines, key);
      AddedNext(lines, entries, init, key, Missing(lines, entries, init), Missing(lines, entries, order));
    }
  }

  lemma AddedNext(lines: seq<string>, entries: Entries, init: seq<string>, key: string, before: seq<string>,
      after: seq<string>)
    requires AddedInOrder(lines, entries, init, before) && key in entries
    requires after == if IsPlaced(lines, key) then before else before + [key + "=" + entries[key]]
    ensures AddedInOrder(lines, entries, init + [key], after)
  {
    var order := init + [key];
    assert order[..|order| - 1] == init;
    forall i: nat | i < |order| ensures AddedAt(lines, entries, order, after, i) {
      if i < |init| {
        assert order[..i] == init[..i] && order[i] == init[i];
        assert AddedAt(lines, entries, init, before, i);
      } else {
        assert order[..i] == init;
      }
    }
  }
}
