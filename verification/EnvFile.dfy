/** envFileWriter: merging entries into a dotenv file. */
module EnvFile {
  import opened Common

  // ---------------------------------------------------------------- lines of a text

  /** split on a newline with an optional carriage return before it */
  function SplitLines(text: string): (lines: seq<string>)
    ensures lines != [] && forall line :: line in lines ==> '\n' !in line
    ensures text != "" && text[|text| - 1] != '\n' ==> lines[|lines| - 1] != ""
  {
    if text == "" then [""]
    else if text[0] == '\n' then [""] + SplitLines(text[1..])
    else if |text| > 1 && text[0] == '\r' && text[1] == '\n' then [""] + SplitLines(text[2..])
    else
      var rest := SplitLines(text[1..]);
      [[text[0]] + rest[0]] + rest[1..]
  }

  /** Without one final newline. */
  function StripFinal(text: string): string {
    if |text| > 1 && text[|text| - 2..] == "\r\n" then text[..|text| - 2]
    else if text != "" && text[|text| - 1] == '\n' then text[..|text| - 1]
    else text
  }

  function LinesOf(text: string): seq<string> {
    if text == "" then [] else SplitLines(StripFinal(text))
  }

  function Join(lines: seq<string>): string {
    if lines == [] then "" else if |lines| == 1 then lines[0] else lines[0] + "\n" + Join(lines[1..])
  }

  predicate EndsWithReturn(line: string) {
    line != "" && line[|line| - 1] == '\r'
  }

  function Trim(line: string): string {
    if EndsWithReturn(line) then line[..|line| - 1] else line
  }

  /** Every line but the last without its final carriage return. */
  function TrimInner(lines: seq<string>): seq<string> {
    seq(|lines|, i requires 0 <= i < |lines| => if i < |lines| - 1 then Trim(lines[i]) else lines[i])
  }

  // ---------------------------------------------------------------- assignments

  predicate IsSpace(c: char) {
    c in {'\t', '\n', '\U{000B}', '\U{000C}', '\r', ' ', '\U{00A0}', '\U{1680}', '\U{2028}', '\U{2029}', '\U{202F}',
      '\U{205F}', '\U{3000}', '\U{FEFF}'}
    || '\U{2000}' <= c <= '\U{200A}'
  }

  predicate IsTerminator(c: char) {
    c in {'\n', '\r', '\U{2028}', '\U{2029}'}
  }

  predicate IsLetter(c: char) {
    'a' <= c <= 'z' || 'A' <= c <= 'Z' || c == '_'
  }

  predicate IsWord(c: char) {
    IsLetter(c) || '0' <= c <= '9'
  }

  function SkipSpaces(text: string): string {
    if text != "" && IsSpace(text[0]) then SkipSpaces(text[1..]) else text
  }

  /** Length of the word the text starts with. */
  function WordLength(text: string): (n: nat)
    ensures n <= |text| && forall i :: 0 <= i < n ==> IsWord(text[i])
  {
    if text != "" && IsWord(text[0]) then 1 + WordLength(text[1..]) else 0
  }

  predicate OneLine(value: string) {
    forall c :: c in value ==> !IsTerminator(c)
  }

  predicate IsKey(key: string) {
    key != "" && IsLetter(key[0]) && forall i :: 0 <= i < |key| ==> IsWord(key[i])
  }

  /** The match of the assignment pattern; its classes are disjoint, so the greedy parse is the only one. */
  function Assignment(line: string): (m: Option<(string, string)>)
    ensures m.Some? ==> IsKey(m.value.0) && OneLine(m.value.1)
  {
    var text := SkipSpaces(line);
    var n := WordLength(text);
    if n == 0 || !IsLetter(text[0]) then None
    else
      var rest := SkipSpaces(text[n..]);
      if rest != "" && rest[0] == '=' && OneLine(rest[1..]) then Some((text[..n], rest[1..])) else None
  }

  function Line(key: string, value: string): string {
    key + "=" + value
  }

  // ---------------------------------------------------------------- merge

  type Entries = map<string, string>

  datatype EnvError = NotAllowed(key: string) | HasNewline(key: string)

  const ALLOWED: set<string> := {
    "WEA_FILE_STORAGE", "S3_BUCKET", "AWS_REGION", "AWS_ACCESS_KEY_ID", "AWS_SECRET_ACCESS_KEY", "S3_ENDPOINT",
    "WEBDAV_URL", "WEBDAV_USERNAME", "WEBDAV_PASSWORD", "WEBDAV_AUTH_TYPE", "JWT_SECRET", "PORT", "CORS_ORIGINS",
    "EMAIL_HOST", "EMAIL_PORT", "EMAIL_USER", "EMAIL_PASSWORD", "EMAIL_SECURE", "EMAIL_FROM_NAME"
  }

  predicate NoNewline(value: string) {
    '\n' !in value && '\r' !in value
  }

  /** What validation lets through, and the names being identifiers. */
  ghost predicate Writable(entries: Entries) {
    forall key :: key in entries ==> IsKey(key) && NoNewline(entries[key])
  }

  /** The property order of the entries object. */
  ghost predicate Lists(order: seq<string>, entries: Entries) {
    NoDup(order) && forall key :: key in order <==> key in entries
  }

  predicate Assigns(line: string, key: string) {
    Assignment(line).Some? && Assignment(line).value.0 == key
  }

  function Rewritten(line: string, entries: Entries): string {
    var m := Assignment(line);
    if m.Some? && m.value.0 in entries then Line(m.value.0, entries[m.value.0]) else line
  }

  function RewrittenAll(lines: seq<string>, entries: Entries): seq<string> {
    seq(|lines|, i requires 0 <= i < |lines| => Rewritten(lines[i], entries))
  }

  predicate Placed(lines: seq<string>, key: string) {
    exists line :: line in lines && Assigns(line, key)
  }

  /** Lines for the entries no line assigned, in their order. */
  function Missing(lines: seq<string>, entries: Entries, order: seq<string>): seq<string>
    requires forall key :: key in order ==> key in entries
  {
    if order == [] then []
    else
      assert forall key :: key in order[..|order| - 1] ==> key in order;
      var rest := Missing(lines, entries, order[..|order| - 1]);
      var key := order[|order| - 1];
      if Placed(lines, key) then rest else rest + [Line(key, entries[key])]
  }

  function Merged(lines: seq<string>, entries: Entries, order: seq<string>): seq<string>
    requires forall key :: key in order ==> key in entries
  {
    RewrittenAll(lines, entries) + Missing(lines, entries, order)
  }

  predicate EndsWithNewline(text: string) {
    text != "" && text[|text| - 1] == '\n'
  }

  function Rendered(lines: seq<string>, newline: bool): string {
    if lines != [] && newline then Join(lines) + "\n" else Join(lines)
  }

  predicate FinalNewline(existing: string, entries: Entries, order: seq<string>)
    requires forall key :: key in order ==> key in entries
  {
    EndsWithNewline(existing) || Missing(LinesOf(existing), entries, order) != []
  }

  function Written(existing: string, entries: Entries, order: seq<string>): string
    requires forall key :: key in order ==> key in entries
  {
    Rendered(Merged(LinesOf(existing), entries, order), FinalNewline(existing, entries, order))
  }

  // ---------------------------------------------------------------- the writer

  /** The file on disk and its backup. */
  class EnvFileWriter {
    var file: Option<string>
    var backup: Option<string>

    constructor (file: Option<string>)
      ensures this.file == file && backup == None
    {
      this.file, backup := file, None;
    }

    /** Names the first offending entry, if there is one. */
    method ValidateEntries(entries: Entries, order: seq<string>) returns (error: Option<EnvError>)
      requires Lists(order, entries)
      ensures error == None <==> forall key :: key in entries ==> key in ALLOWED && NoNewline(entries[key])
      ensures error.Some? && error.value.NotAllowed? ==> error.value.key in entries && error.value.key !in ALLOWED
      ensures error.Some? && error.value.HasNewline? ==>
        (error.value.key in entries && error.value.key in ALLOWED && !NoNewline(entries[error.value.key]))
      ensures error.Some? ==> exists i :: (0 <= i < |order| && order[i] == error.value.key
        && forall key :: key in order[..i] ==> key in ALLOWED && NoNewline(entries[key]))
    {
      for i := 0 to |order|
        invariant forall key :: key in order[..i] ==> key in ALLOWED && NoNewline(entries[key])
      {
        var key := order[i];
        assert key in order && order[..i + 1] == order[..i] + [key];
        if key !in ALLOWED {
          return Some(NotAllowed(key));
        }
        if !NoNewline(entries[key]) {
          return Some(HasNewline(key));
        }
      }
      assert order[..|order|] == order;
      error := None;
    }

    /** Rewrites the lines that assign an entry, in place. */
    method RewriteLines(existing: seq<string>, entries: Entries) returns (lines: seq<string>, placed: set<string>)
      ensures lines == RewrittenAll(existing, entries)
      ensures forall key :: key in placed <==> key in entries && Placed(existing, key)
    {
      lines, placed := existing, {};
      for i := 0 to |existing|
        invariant lines == RewrittenAll(existing[..i], entries) + existing[i..]
        invariant forall key :: key in placed <==> key in entries && Placed(existing[..i], key)
      {
        var m := Assignment(lines[i]);
        PlacedNext(existing, i);
        RewriteNext(existing, entries, i, lines);
        if m.Some? && m.value.0 in entries {
          lines := lines[i := Line(m.value.0, entries[m.value.0])];
          placed := placed + {m.value.0};
        }
      }
      assert existing[..|existing|] == existing;
    }

    /** Appends a line for each entry not placed. */
    method AppendMissing(existing: seq<string>, entries: Entries, order: seq<string>, placed: set<string>)
      returns (added: seq<string>)
      requires Lists(order, entries) && forall key :: key in placed <==> key in entries && Placed(existing, key)
      ensures added == Missing(existing, entries, order)
    {
      added := [];
      for i := 0 to |order|
        invariant forall key :: key in order[..i] ==> key in entries
        invariant added == Missing(existing, entries, order[..i])
      {
        var key := order[i];
        assert key in order && order[..i + 1] == order[..i] + [key] && order[..i + 1][..i] == order[..i];
        if key !in placed {
          added := added + [Line(key, entries[key])];
        }
      }
      assert order[..|order|] == order;
    }

    /** Any fault of the temp file or of the rename leaves the target as it was. */
    method WriteEnv(entries: Entries, order: seq<string>, keepBackup: bool, diskFails: bool)
        returns (error: Option<EnvError>, failed: bool)
      requires Lists(order, entries)
      modifies this
      ensures error.None? <==> forall key :: key in entries ==> key in ALLOWED && NoNewline(entries[key])
      ensures error.Some? ==> file == old(file) && backup == old(backup) && !failed
      ensures error.Some? ==> (error.value.key in entries
        && !(error.value.key in ALLOWED && NoNewline(entries[error.value.key])))
      ensures error.None? ==> failed == diskFails && (failed ==> file == old(file))
      ensures error.None? && !failed ==>
        file == Some(Written(if old(file).Some? then old(file).value else "", entries, order))
      ensures error.None? ==> backup == if keepBackup && old(file).Some? then old(file) else old(backup)
    {
      failed := false;
      error := ValidateEntries(entries, order);
      if error.Some? {
        return;
      }
      if keepBackup && file.Some? {
        backup := file;
      }
      var existing := if file.Some? then file.value else "";
      var lines, placed := RewriteLines(LinesOf(existing), entries);
      var added := AppendMissing(LinesOf(existing), entries, order, placed);
      lines := lines + added;
      var output := Join(lines);
      if |lines| > 0 && (EndsWithNewline(existing) || added != []) {
        output := output + "\n";
      }
      if diskFails {
        failed := true;
        return;
      }
      file := Some(output);
    }
  }

  lemma RewriteNext(existing: seq<string>, entries: Entries, i: nat, lines: seq<string>)
    requires i < |existing| && lines == RewrittenAll(existing[..i], entries) + existing[i..]
    ensures lines[i] == existing[i]
    ensures lines[i := Rewritten(existing[i], entries)] == RewrittenAll(existing[..i + 1], entries) + existing[i + 1..]
    ensures Rewritten(existing[i], entries) == existing[i] ==>
      lines == RewrittenAll(existing[..i + 1], entries) + existing[i + 1..]
  {
  }

  lemma PlacedNext(lines: seq<string>, i: nat)
    requires i < |lines|
    ensures forall key :: Placed(lines[..i + 1], key) <==> Placed(lines[..i], key) || Assigns(lines[i], key)
  {
  }
}
