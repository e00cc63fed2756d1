/** `CommitMessage.normalize_message_list`: breaking compound commit records
    apart, first at commit headers embedded in a message (merged commits),
    then at embedded conventional summary lines such as `fix(x): ...`. */
module CommitNormalizer {
  import opened Outcomes
  import opened Text
  import opened CommitLog

  // ---------------------------------------------------------------------
  // Embedded commit headers: `_EMBEDDED_COMMIT_MATCHER`, read line by line.

  /** The class `[a-f0-9]`. */
  predicate IsLowerHex(c: char) {
    '0' <= c <= '9' || 'a' <= c <= 'f'
  }

  /** `^( *)commit [a-f0-9]+\n` against one line: spaces, `commit ` and a
      non-empty run of lower-case hex digits that reaches the end of the line. */
  predicate IsCommitLine(line: string) {
    var rest := line[LeadingSpaces(line)..];
    StartsWith(rest, "commit ") && |rest| > 7 &&
    forall i :: 7 <= i < |rest| ==> IsLowerHex(rest[i])
  }

  /** `<key>.+` after the whitespace that starts a line: the key and at least
      one more character. */
  predicate IsKeyLine(line: string, key: string) {
    var r := LStrip(line);
    StartsWith(r, key) && |r| > |key|
  }

  /** The first line at or after `k` that is not all whitespace; `\s*` at a
      line start skips whole blank lines and the indentation of that line. */
  function NextNonBlank(lines: seq<string>, k: nat): (j: nat)
    requires k <= |lines|
    ensures k <= j <= |lines|
    ensures forall i :: k <= i < j ==> AllSpace(lines[i])
    ensures j < |lines| ==> !AllSpace(lines[j])
    decreases |lines| - k
  {
    if k == |lines| || !AllSpace(lines[k]) then k else NextNonBlank(lines, k + 1)
  }

  /** The pattern `^( *)commit [a-f0-9]+\n^\s*Author: .+\n^\s*Date:   .+\n`
      matches from the start of line `l`: the commit line, then past blank
      lines an `Author: ` line, then past blank lines a `Date:   ` line,
      each of the last two followed by a newline. */
  predicate EmbeddedHeaderAt(lines: seq<string>, l: int) {
    0 <= l < |lines| && IsCommitLine(lines[l]) &&
    var a := NextNonBlank(lines, l + 1);
    a + 1 < |lines| && IsKeyLine(lines[a], "Author: ") &&
    var d := NextNonBlank(lines, a + 1);
    d + 1 < |lines| && IsKeyLine(lines[d], "Date:   ")
  }

  /** The first line at or after `k` from which the header pattern matches. */
  function FindHeaderFrom(lines: seq<string>, k: nat): (r: Option<nat>)
    requires k <= |lines|
    ensures r.Some? ==> k <= r.value && EmbeddedHeaderAt(lines, r.value)
    ensures r.Some? ==> forall j :: k <= j < r.value ==> !EmbeddedHeaderAt(lines, j)
    ensures r.None? ==> forall j :: k <= j ==> !EmbeddedHeaderAt(lines, j)
    decreases |lines| - k
  {
    if k == |lines| then None
    else if EmbeddedHeaderAt(lines, k) then Some(k)
    else
      var r := FindHeaderFrom(lines, k + 1);
      HeaderSearchStep(lines, k, r);
      r
  }

  /** Searching on from `k + 1` after a miss at `k`: the first match from
      `k + 1` is the first match from `k`. */
  lemma HeaderSearchStep(lines: seq<string>, k: nat, r: Option<nat>)
    requires !EmbeddedHeaderAt(lines, k)
    requires r.Some? ==> k + 1 <= r.value && EmbeddedHeaderAt(lines, r.value)
    requires r.Some? ==> forall j :: k + 1 <= j < r.value ==> !EmbeddedHeaderAt(lines, j)
    requires r.None? ==> forall j :: k + 1 <= j ==> !EmbeddedHeaderAt(lines, j)
    ensures r.Some? ==> forall j :: k <= j < r.value ==> !EmbeddedHeaderAt(lines, j)
    ensures r.None? ==> forall j :: k <= j ==> !EmbeddedHeaderAt(lines, j)
  {
  }

  /** `_EMBEDDED_COMMIT_MATCHER.search(text)`: the line the leftmost match starts on. */
  function FindEmbeddedHeader(lines: seq<string>): Option<nat>
  {
    FindHeaderFrom(lines, 0)
  }

  /** The line starts with `offset` spaces (`line.startswith(found.group(1))`). */
  predicate HasIndent(line: string, offset: nat) {
    offset <= |line| && forall i :: 0 <= i < offset ==> line[i] == ' '
  }

  /** One line of the dedent: strip the header's indentation, keep an empty
      line, and give up on any other line. */
  function DedentLine(line: string, offset: nat): (r: Option<string>)
    ensures r.None? <==> line != "" && !HasIndent(line, offset)
    ensures r.Some? ==> (line == "" && r.value == "") || line == seq(offset, _ => ' ') + r.value
  {
    if HasIndent(line, offset) then
      assert line == line[..offset] + line[offset..];
      assert line[..offset] == seq(offset, _ => ' ');
      Some(line[offset..])
    else if line == "" then Some(line)
    else None
  }

  /** Dedenting every line; `None` when some line cannot be dedented. */
  function Dedent(lines: seq<string>, offset: nat): (r: Option<seq<string>>)
    ensures r.None? <==> exists k :: 0 <= k < |lines| && lines[k] != "" && !HasIndent(lines[k], offset)
    ensures r.Some? ==>
              |r.value| == |lines| &&
              forall k :: 0 <= k < |lines| ==>
                (lines[k] == "" && r.value[k] == "") || lines[k] == seq(offset, _ => ' ') + r.value[k]
  {
    if forall k :: 0 <= k < |lines| ==> DedentLine(lines[k], offset).Some? then
      Some(seq(|lines|, k requires 0 <= k < |lines| => DedentLine(lines[k], offset).value))
    else None
  }

  /** Dedenting one more line. */
  lemma DedentSnoc(lines: seq<string>, line: string, offset: nat)
    ensures Dedent(lines + [line], offset) ==
            if Dedent(lines, offset).Some? && DedentLine(line, offset).Some?
            then Some(Dedent(lines, offset).value + [DedentLine(line, offset).value])
            else None
  {
    var ls := lines + [line];
    assert forall k :: 0 <= k < |lines| ==> ls[k] == lines[k];
    assert ls[|lines|] == line;
    if Dedent(lines, offset).Some? && DedentLine(line, offset).Some? {
      assert Dedent(ls, offset).value == Dedent(lines, offset).value + [DedentLine(line, offset).value];
    }
  }

  /** What `_unpack_embedded_commits` makes of one record: the record itself
      when no header is embedded or the lines from the header on are not all
      indented like it; otherwise the records parsed from those lines once
      dedented (the text before the header is dropped). */
  function UnpackOne(m: CommitMessage): (r: Result<seq<CommitMessage>>)
    ensures var lines := Lines(m.message);
            r != Ok([m]) ==> exists l :: EmbeddedHeaderAt(lines, l) && forall j :: 0 <= j < l ==> !EmbeddedHeaderAt(lines, j)
    ensures r.Err? ==> r.error.MalformedLogEntry?
    ensures r.Ok? && r.value != [m] ==> forall k :: 0 <= k < |r.value| ==> IsTidy(r.value[k].message)
  {
    var lines := Lines(m.message);
    match FindEmbeddedHeader(lines)
    case None => Ok([m])
    case Some(l) =>
      match Dedent(lines[l..], LeadingSpaces(lines[l]))
      case None => Ok([m])
      case Some(pruned) => ParseLog(Join(pruned, "\n"))
  }

  /** `_unpack_embedded_commits(msg_list)` as a value. */
  function UnpackedCommits(msgs: seq<CommitMessage>): Result<seq<CommitMessage>> {
    FlatMapAll(UnpackOne, msgs)
  }

  /** `_unpack_embedded_commits`: the loop over the records. */
  method UnpackEmbeddedCommits(msgs: seq<CommitMessage>) returns (r: Result<seq<CommitMessage>>)
    ensures r == UnpackedCommits(msgs)
  {
    var result: seq<CommitMessage> := [];
    for i := 0 to |msgs|
      invariant FlatMapAll(UnpackOne, msgs[..i]) == Ok(result)
    {
      var unpacked := UnpackCommitMessage(msgs[i]);
      FlatMapAllStep(UnpackOne, msgs, i, result);
      if unpacked.Err? {
        FlatMapAllFailedPrefix(UnpackOne, msgs, i + 1);
        return Err(unpacked.error);
      }
      result := result + unpacked.value;
    }
    assert msgs[..|msgs|] == msgs;
    r := Ok(result);
  }

  /** The body of that loop for one record. */
  method UnpackCommitMessage(m: CommitMessage) returns (r: Result<seq<CommitMessage>>)
    ensures r == UnpackOne(m)
  {
    var lines := Lines(m.message);
    var found := FindEmbeddedHeader(lines);
    if found.None? {
      return Ok([m]);
    }
    var l := found.value;
    var textLines := lines[l..];
    var offset := LeadingSpaces(lines[l]);
    var result: seq<CommitMessage> := [];
    var pruned, misindented := DedentLoop(textLines, offset);
    ghost var spec := UnpackOne(m);
    assert misindented ==> spec == Ok([m]);
    assert !misindented ==> spec == ParseLog(Join(pruned, "\n"));
    if misindented {
      result := result + [m];
    }
    if pruned != [] {
      var parsed := MakeListFromResult(Join(pruned, "\n"));
      if parsed.Err? {
        return parsed;
      }
      assert !misindented && spec == parsed;
      result := result + parsed.value;
      assert result == parsed.value;
    } else {
      assert misindented;
      assert result == [m];
    }
    r := Ok(result);
  }

  /** The inner loop: dedent the lines from the header on, and at the first
      line that is neither indented like the header nor empty, drop what was
      collected and break out so that the record is kept. */
  method DedentLoop(textLines: seq<string>, offset: nat) returns (pruned: seq<string>, misindented: bool)
    requires |textLines| > 0
    ensures misindented <==> Dedent(textLines, offset).None?
    ensures misindented ==> pruned == []
    ensures !misindented ==> pruned == Dedent(textLines, offset).value && pruned != []
  {
    pruned := [];
    misindented := false;
    var j := 0;
    while j < |textLines|
      invariant 0 <= j <= |textLines|
      invariant Dedent(textLines[..j], offset) == Some(pruned)
    {
      var line := textLines[j];
      assert textLines[..j + 1] == textLines[..j] + [line];
      DedentSnoc(textLines[..j], line, offset);
      if HasIndent(line, offset) {
        pruned := pruned + [line[offset..]];
      } else if line == "" {
        pruned := pruned + [line];
      } else {
        assert DedentLine(textLines[j], offset).None?;
        pruned := [];
        misindented := true;
        break;
      }
      j := j + 1;
    }
    if !misindented {
      assert textLines[..j] == textLines;
    }
  }

  /** A record with no embedded header comes back unchanged. */
  lemma UnpackWithoutHeader(m: CommitMessage)
    requires forall l :: 0 <= l < |Lines(m.message)| ==> !EmbeddedHeaderAt(Lines(m.message), l)
    ensures UnpackOne(m) == Ok([m])
  {
    NoEmbeddedHeader(Lines(m.message));
  }

  lemma NoEmbeddedHeader(lines: seq<string>)
    requires forall l :: 0 <= l < |lines| ==> !EmbeddedHeaderAt(lines, l)
    ensures FindEmbeddedHeader(lines) == None
  {
  }

  /** A record whose lines after the header are not all indented like the
      header (or empty) comes back unchanged. */
  lemma UnpackMisindented(m: CommitMessage, l: nat, k: nat)
    requires FindEmbeddedHeader(Lines(m.message)) == Some(l)
    requires l <= k < |Lines(m.message)|
    requires Lines(m.message)[k] != ""
    requires !HasIndent(Lines(m.message)[k], LeadingSpaces(Lines(m.message)[l]))
    ensures UnpackOne(m) == Ok([m])
  {
    var lines := Lines(m.message);
    assert lines[l..][k - l] == lines[k];
  }

  /** Otherwise the record is replaced by what the dedented lines from the
      header on parse to; nothing before the header line contributes. */
  lemma UnpackReplaces(m: CommitMessage, l: nat)
    requires FindEmbeddedHeader(Lines(m.message)) == Some(l)
    requires forall k :: l <= k < |Lines(m.message)| ==>
               Lines(m.message)[k] == "" || HasIndent(Lines(m.message)[k], LeadingSpaces(Lines(m.message)[l]))
    ensures var lines := Lines(m.message);
            var offset := LeadingSpaces(lines[l]);
            Dedent(lines[l..], offset).Some? &&
            UnpackOne(m) == ParseLog(Join(Dedent(lines[l..], offset).value, "\n"))
  {
    var lines := Lines(m.message);
    var offset := LeadingSpaces(lines[l]);
    var tail := lines[l..];
    forall k | 0 <= k < |tail|
      ensures DedentLine(tail[k], offset).Some?
    {
      assert tail[k] == lines[l + k];
    }
    assert Dedent(tail, offset).Some?;
  }

  /** Indenting the non-empty lines by `offset` spaces. */
  function Indent(lines: seq<string>, offset: nat): (r: seq<string>)
    ensures |r| == |lines|
  {
    seq(|lines|, k requires 0 <= k < |lines| =>
      if lines[k] == "" then "" else seq(offset, _ => ' ') + lines[k])
  }

  /** Dedenting undoes indenting. */
  lemma DedentOfIndent(lines: seq<string>, offset: nat)
    ensures Dedent(Indent(lines, offset), offset) == Some(lines)
  {
    var ind := Indent(lines, offset);
    forall k | 0 <= k < |lines|
      ensures DedentLine(ind[k], offset) == Some(lines[k])
    {
      if lines[k] != "" {
        var sp: string := seq(offset, _ => ' ');
        assert ind[k] == sp + lines[k];
        assert ind[k][offset..] == lines[k];
      }
    }
    assert Dedent(ind, offset).value == lines;
  }

  /** Spaces in front of a text that starts with no whitespace are what `lstrip` removes. */
  lemma {:induction false} LStripSpaces(sp: string, s: string)
    requires AllBlanks(sp) && s != [] && !IsSpace(s[0])
    ensures LStrip(sp + s) == s
    decreases |sp|
  {
    if sp == [] {
      assert sp + s == s;
    } else {
      assert (sp + s)[0] == sp[0] == ' ';
      assert (sp + s)[1..] == sp[1..] + s;
      assert AllBlanks(sp[1..]) by {
        forall i | 0 <= i < |sp[1..]| ensures sp[1..][i] == ' ' { assert sp[1..][i] == sp[i + 1]; }
      }
      LStripSpaces(sp[1..], s);
    }
  }

  /** An indented key line `<spaces><key><text>` is not blank and carries its key. */
  lemma IndentedKeyLine(sp: string, key: string, text: string)
    requires AllBlanks(sp) && key != [] && !IsSpace(key[0]) && text != []
    ensures !AllSpace(sp + key + text) && IsKeyLine(sp + key + text, key)
  {
    var x := key + text;
    assert sp + key + text == sp + x;
    assert (sp + x)[|sp|] == x[0] == key[0];
    LStripSpaces(sp, x);
    assert x[..|key|] == key;
  }

  /** The indented commit line `<spaces>commit <hex id>`. */
  lemma IndentedCommitLine(sp: string, id: string)
    requires AllBlanks(sp) && id != [] && forall i :: 0 <= i < |id| ==> IsLowerHex(id[i])
    ensures LeadingSpaces(sp + ("commit " + id)) == |sp| && IsCommitLine(sp + ("commit " + id))
  {
    DropSpaces(sp, "commit " + id);
    var rest := "commit " + id;
    assert (sp + rest)[|sp|..] == rest;
    assert rest[..7] == "commit ";
    assert forall i :: 7 <= i < |rest| ==> rest[i] == id[i - 7];
  }

  /** A commit line followed directly by non-blank author and date lines,
      with a further line after them, is where the header pattern matches. */
  lemma HeaderAtLines(lines: seq<string>, h: nat)
    requires h + 3 < |lines| && IsCommitLine(lines[h])
    requires !AllSpace(lines[h + 1]) && IsKeyLine(lines[h + 1], "Author: ")
    requires !AllSpace(lines[h + 2]) && IsKeyLine(lines[h + 2], "Date:   ")
    ensures EmbeddedHeaderAt(lines, h)
  {
    assert NextNonBlank(lines, h + 1) == h + 1;
    assert NextNonBlank(lines, h + 2) == h + 2;
  }

  /** A match after lines none of which is a commit line is the leftmost one. */
  lemma FirstHeaderAt(lines: seq<string>, h: nat)
    requires EmbeddedHeaderAt(lines, h)
    requires forall j :: 0 <= j < h ==> !IsCommitLine(lines[j])
    ensures FindEmbeddedHeader(lines) == Some(h)
  {
    var r := FindHeaderFrom(lines, 0);
    assert r.Some?;
    assert forall j :: 0 <= j < h ==> !EmbeddedHeaderAt(lines, j);
  }

  /** An indented commit line, author line and date line after lines none of
      which is a commit line: the leftmost match, with that indentation. */
  lemma HeaderOfIndented(lines: seq<string>, h: nat, sp: string, id: string, author: string, date: string)
    requires h + 3 < |lines| && AllBlanks(sp)
    requires lines[h] == sp + ("commit " + id)
    requires lines[h + 1] == sp + "Author: " + author && lines[h + 2] == sp + "Date:   " + date
    requires id != [] && forall i :: 0 <= i < |id| ==> IsLowerHex(id[i])
    requires author != [] && date != []
    requires forall j :: 0 <= j < h ==> !IsCommitLine(lines[j])
    ensures FindEmbeddedHeader(lines) == Some(h) && LeadingSpaces(lines[h]) == |sp|
  {
    IndentedCommitLine(sp, id);
    IndentedKeyLine(sp, "Author: ", author);
    IndentedKeyLine(sp, "Date:   ", date);
    HeaderAtLines(lines, h);
    FirstHeaderAt(lines, h);
  }

  /** Lines of a log indented after a preamble with no commit line: the
      embedded header is found where the log starts, with the log's indentation. */
  lemma IndentedHeader(pre: seq<string>, ls: seq<string>, offset: nat, id: string, author: string, date: string)
    requires forall j :: 0 <= j < |pre| ==> !IsCommitLine(pre[j])
    requires |ls| >= 5 && ls[0] == "commit " + id && ls[1] == "Author: " + author && ls[2] == "Date:   " + date
    requires id != [] && forall i :: 0 <= i < |id| ==> IsLowerHex(id[i])
    requires author != [] && date != []
    ensures FindEmbeddedHeader(pre + Indent(ls, offset)) == Some(|pre|)
    ensures LeadingSpaces((pre + Indent(ls, offset))[|pre|]) == offset
  {
    var sp: string := seq(offset, _ => ' ');
    var lines := pre + Indent(ls, offset);
    var h := |pre|;
    assert lines[h] == sp + ("commit " + id);
    assert lines[h + 1] == sp + "Author: " + author;
    assert lines[h + 2] == sp + "Date:   " + date;
    assert forall j :: 0 <= j < h ==> lines[j] == pre[j];
    HeaderOfIndented(lines, h, sp, id, author, date);
  }

  /** Embedded-commit expansion: a record whose message is a preamble without
      a commit line followed by the log of some records, indented uniformly,
      is replaced by exactly those records. */
  lemma UnpackExpands(m: CommitMessage, pre: seq<string>, ms: seq<CommitMessage>, offset: nat)
    requires forall j :: 0 <= j < |pre| ==> '\n' !in pre[j] && !IsCommitLine(pre[j])
    requires ms != [] && forall k :: 0 <= k < |ms| ==> Loggable(ms[k])
    requires Last(ms).message != ""
    requires forall i :: 0 <= i < |ms[0].commitId| ==> IsLowerHex(ms[0].commitId[i])
    requires ms[0].date != ""
    requires m.message == Join(pre + Indent(Lines(FormatLog(ms)), offset), "\n")
    ensures UnpackOne(m) == Ok(ms)
  {
    var ls := Lines(FormatLog(ms));
    var il := Indent(ls, offset);
    var lines := pre + il;
    LogHeadLines(ms);
    SplitOnCharFree(FormatLog(ms), '\n');
    IndentedLinesFree(pre, ls, offset);
    SplitOnJoinChar(lines, '\n');
    IndentedHeader(pre, ls, offset, ms[0].commitId, ms[0].author, ms[0].date);
    IndentedLinesIndented(pre, ls, offset);
    UnpackReplaces(m, |pre|);
    assert lines[|pre|..] == il;
    DedentOfIndent(ls, offset);
    JoinSplitOn(FormatLog(ms), "\n");
    ParseLogOfFormat(ms);
  }

  /** A record whose message is one word with no whitespace can be logged. */
  lemma WordLoggable(m: CommitMessage)
    requires PrintableHeader(m)
    requires m.message != [] && forall i :: 0 <= i < |m.message| ==> !IsSpace(m.message[i])
    ensures Loggable(m)
  {
    var w := m.message;
    SplitOnCharAbsent(w, '\n');
    assert Lines(w) == [w];
    assert !IsSpace(w[|w| - 1]);
    var t := "\n" + w;
    forall i | 0 <= i <= |t| ensures !OccursAt(t, "\ncommit ", i) {
      if 0 < i && i + 8 <= |t| {
        assert t[i..i + 8][0] == w[i - 1];
      } else if i == 0 && 8 <= |t| {
        assert t[..8][7] == w[6];
      }
    }
  }

  /** A merge whose message carries the log of two commits, `abc` and `def`,
      indented by four spaces under its own first line, unpacks to exactly
      those two commits. */
  lemma UnpackTwoNested(m: CommitMessage, ms: seq<CommitMessage>)
    requires ms == [CommitMessage("abc", "Ann", "Mon", "first"), CommitMessage("def", "Bob", "Tue", "second")]
    requires m.message == Join(["Merge", ""] + Indent(Lines(FormatLog(ms)), 4), "\n")
    ensures UnpackOne(m) == Ok(ms)
  {
    TwoRecordsLoggable(ms);
    HexAbc(ms[0].commitId);
    assert ms[0].date != "" && Last(ms).message != "";
    MergePreamble(["Merge", ""]);
    UnpackExpands(m, ["Merge", ""], ms, 4);
  }

  /** The merge's own lines hold no newline and no commit line. */
  lemma MergePreamble(pre: seq<string>)
    requires pre == ["Merge", ""]
    ensures forall j :: 0 <= j < |pre| ==> '\n' !in pre[j] && !IsCommitLine(pre[j])
  {
    assert !StartsWith(pre[0], "commit ");
    assert !StartsWith(pre[1], "commit ");
  }

  lemma TwoRecordsLoggable(ms: seq<CommitMessage>)
    requires ms == [CommitMessage("abc", "Ann", "Mon", "first"), CommitMessage("def", "Bob", "Tue", "second")]
    ensures forall k :: 0 <= k < |ms| ==> Loggable(ms[k])
  {
    FirstRecordLoggable(ms[0]);
    SecondRecordLoggable(ms[1]);
  }

  lemma HexAbc(id: string)
    requires id == "abc"
    ensures forall i :: 0 <= i < |id| ==> IsLowerHex(id[i])
  {
    forall i | 0 <= i < |id| ensures IsLowerHex(id[i]) {
      assert i == 0 || i == 1 || i == 2;
    }
  }

  lemma FirstRecordLoggable(m: CommitMessage)
    requires m == CommitMessage("abc", "Ann", "Mon", "first")
    ensures Loggable(m)
  {
    WordLoggable(m);
  }

  lemma SecondRecordLoggable(m: CommitMessage)
    requires m == CommitMessage("def", "Bob", "Tue", "second")
    ensures Loggable(m)
  {
    WordLoggable(m);
  }

  lemma SpacesIndent(x: string, offset: nat)
    ensures HasIndent(seq(offset, _ => ' ') + x, offset)
  {
    var sp: string := seq(offset, _ => ' ');
    assert forall i :: 0 <= i < offset ==> (sp + x)[i] == sp[i];
  }

  lemma IndentedLinesIndented(pre: seq<string>, ls: seq<string>, offset: nat)
    ensures var lines := pre + Indent(ls, offset);
            forall k :: |pre| <= k < |lines| ==> lines[k] == "" || HasIndent(lines[k], offset)
  {
    var lines := pre + Indent(ls, offset);
    forall k | |pre| <= k < |lines|
      ensures lines[k] == "" || HasIndent(lines[k], offset)
    {
      assert lines[k] == Indent(ls, offset)[k - |pre|];
      SpacesIndent(ls[k - |pre|], offset);
    }
  }

  lemma IndentedLinesFree(pre: seq<string>, ls: seq<string>, offset: nat)
    requires forall j :: 0 <= j < |pre| ==> '\n' !in pre[j]
    requires forall k :: 0 <= k < |ls| ==> '\n' !in ls[k]
    ensures forall k :: 0 <= k < |pre + Indent(ls, offset)| ==> '\n' !in (pre + Indent(ls, offset))[k]
  {
    var lines := pre + Indent(ls, offset);
    forall k | |pre| <= k < |lines|
      ensures '\n' !in lines[k]
    {
      assert lines[k] == Indent(ls, offset)[k - |pre|];
    }
  }

  // ---------------------------------------------------------------------
  // Embedded summaries: `_EMBEDDED_SUMMARY_MATCHER`, matched line by line.

  /** The class `[a-z]`. */
  predicate IsLowerAlpha(c: char) {
    'a' <= c <= 'z'
  }

  /** The length of the run of `[a-z]` at the start of `s`. */
  function LowerRun(s: string): (n: nat)
    ensures n <= |s|
    ensures forall i :: 0 <= i < n ==> IsLowerAlpha(s[i])
    ensures n == |s| || !IsLowerAlpha(s[n])
    decreases |s|
  {
    if s != [] && IsLowerAlpha(s[0]) then 1 + LowerRun(s[1..]) else 0
  }

  /** The lazy scope `.+?` of `\(.+?\): .+`, started at `lo`, can close at
      `j`: the scope `rest[lo - 1..j]` has no newline, `): ` follows it, and
      after that comes at least one character that is not a newline. */
  predicate ClosesAt(rest: string, lo: nat, j: int) {
    1 <= lo <= j < |rest| - 3 && OccursAt(rest, "): ", j) && '\n' !in rest[lo - 1..j] && rest[j + 3] != '\n'
  }

  /** `.+?\): .+` from the start of `rest`: some closing position works. */
  ghost predicate ScopeThenText(rest: string) {
    exists j :: ClosesAt(rest, 1, j)
  }

  /** The lazy search itself: try closing the scope at `k`, then at `k + 1`,
      until the scope would have to cross a newline. */
  predicate ScanScope(rest: string, k: nat)
    requires k >= 1
    decreases |rest| - k
  {
    k < |rest| - 3 && rest[k - 1] != '\n' &&
    ((rest[k..k + 3] == "): " && rest[k + 3] != '\n') || ScanScope(rest, k + 1))
  }

  /** The search from `k` succeeds exactly when the scope can close at some
      position from `k` on. */
  lemma {:induction false} ScanScopeSpec(rest: string, k: nat)
    requires k >= 1
    ensures ScanScope(rest, k) <==> exists j :: ClosesAt(rest, k, j)
    decreases |rest| - k
  {
    if k < |rest| - 3 {
      if rest[k - 1] == '\n' {
        NoCloseAcrossNewline(rest, k);
      } else {
        ScanScopeSpec(rest, k + 1);
        if ScanScope(rest, k) {
          if rest[k..k + 3] == "): " && rest[k + 3] != '\n' {
            CloseHere(rest, k);
          } else {
            var j :| ClosesAt(rest, k + 1, j);
            CloseWiden(rest, k, j);
          }
        }
        if exists j :: ClosesAt(rest, k, j) {
          var j :| ClosesAt(rest, k, j);
          if j > k {
            CloseNarrow(rest, k, j);
          }
        }
      }
    }
  }

  lemma NoCloseAcrossNewline(rest: string, k: nat)
    requires 1 <= k <= |rest| && rest[k - 1] == '\n'
    ensures forall j :: !ClosesAt(rest, k, j)
  {
    forall j | k <= j < |rest| - 3
      ensures !ClosesAt(rest, k, j)
    {
      assert rest[k - 1..j][0] == '\n';
    }
  }

  lemma CloseHere(rest: string, k: nat)
    requires 1 <= k < |rest| - 3 && rest[k - 1] != '\n'
    requires rest[k..k + 3] == "): " && rest[k + 3] != '\n'
    ensures ClosesAt(rest, k, k)
  {
    assert rest[k - 1..k] == [rest[k - 1]];
  }

  lemma CloseWiden(rest: string, k: nat, j: int)
    requires k >= 1 && ClosesAt(rest, k + 1, j) && rest[k - 1] != '\n'
    ensures ClosesAt(rest, k, j)
  {
    assert rest[k - 1..j] == [rest[k - 1]] + rest[k..j];
  }

  lemma CloseNarrow(rest: string, k: nat, j: int)
    requires ClosesAt(rest, k, j) && j > k
    ensures ClosesAt(rest, k + 1, j)
  {
    assert rest[k - 1..j] == [rest[k - 1]] + rest[k..j];
  }

  /** `_EMBEDDED_SUMMARY_MATCHER.match(line)`, the pattern
      `^\s*(?:\*\s*)?[a-z]+\(.+?\): .+`. Neither whitespace nor `*` is a
      letter, so both whitespace runs and the letter run are as long as
      possible, and a `*` there must be taken by the optional group. */
  predicate IsSummaryLine(line: string) {
    var r := LStrip(line);
    var t := if r != [] && r[0] == '*' then LStrip(r[1..]) else r;
    var n := LowerRun(t);
    1 <= n < |t| && t[n] == '(' && ScanScope(t[n + 1..], 1)
  }

  /** The search decides the pattern's scope-and-text part. */
  lemma ScanScopeDecides(rest: string)
    ensures ScanScope(rest, 1) <==> ScopeThenText(rest)
  {
    ScanScopeSpec(rest, 1);
  }

  /** The positions, below `n`, of the lines that satisfy `p`. */
  function PositionsUpTo(lines: seq<string>, p: string -> bool, n: nat): (idx: seq<nat>)
    requires n <= |lines|
    ensures forall i :: 0 <= i < |idx| ==> idx[i] < n && p(lines[idx[i]])
  {
    if n == 0 then []
    else
      var prev := PositionsUpTo(lines, p, n - 1);
      var idx := prev + (if p(lines[n - 1]) then [n - 1] else []);
      assert forall i :: 0 <= i < |prev| ==> idx[i] == prev[i];
      idx
  }

  /** The positions of all summary lines. */
  function SummaryIndices(lines: seq<string>): seq<nat> {
    PositionsUpTo(lines, IsSummaryLine, |lines|)
  }

  /** The lines `lines[lo:hi]`. */
  datatype Range = Range(lo: nat, hi: nat)

  /** The ranges closed by the positions after the first: each runs from
      one position up to the next. */
  function ClosedRanges(idx: seq<nat>): (rs: seq<Range>)
    ensures |rs| == if idx == [] then 0 else |idx| - 1
    ensures forall i {:trigger rs[i]} :: 0 <= i < |rs| ==> rs[i] == Range(idx[i], idx[i + 1])
    decreases |idx|
  {
    if |idx| <= 1 then []
    else
      var front := idx[..|idx| - 1];
      assert forall i :: 0 <= i < |front| ==> front[i] == idx[i];
      ClosedRanges(front) + [Range(idx[|idx| - 2], idx[|idx| - 1])]
  }

  /** The ranges `_unpack_embedded_summaries` cuts `end` lines into, given
      the positions `idx` of the summary lines: each summary line up to the
      next one, the last up to the end; with no summary line, all lines. The
      lines before the first summary line are in no range. */
  function SummaryRanges(idx: seq<nat>, end: nat): seq<Range> {
    if idx == [] then [Range(0, end)]
    else ClosedRanges(idx) + [Range(Last(idx), end)]
  }

  /** `'\n'.join(lines[a:b]).rstrip()` (the empty text for a range that
      does not lie within the lines; the scan never forms one). */
  function BlockText(lines: seq<string>, a: nat, b: nat): string {
    if a <= b <= |lines| then RStrip(Join(lines[a..b], "\n")) else ""
  }

  /** The text of each range. */
  function Texts(lines: seq<string>, rs: seq<Range>): (r: seq<string>)
    ensures |r| == |rs|
  {
    seq(|rs|, i requires 0 <= i < |rs| => BlockText(lines, rs[i].lo, rs[i].hi))
  }

  /** The texts `_unpack_embedded_summaries` cuts a message's lines into. */
  function SummaryTexts(lines: seq<string>): seq<string> {
    Texts(lines, SummaryRanges(SummaryIndices(lines), |lines|))
  }

  /** One record per text, all with the commit id, author and date of `m`. */
  function Relabel(m: CommitMessage, texts: seq<string>): (r: seq<CommitMessage>)
    ensures |r| == |texts|
  {
    seq(|texts|, i requires 0 <= i < |texts| => m.(message := texts[i]))
  }

  /** What `_unpack_embedded_summaries` makes of one record. */
  function SummariesOf(m: CommitMessage): (r: seq<CommitMessage>)
    ensures var n := |SummaryIndices(Lines(m.message))|;
            |r| == if n == 0 then 1 else n
    ensures forall k :: 0 <= k < |r| ==>
              r[k].commitId == m.commitId && r[k].author == m.author && r[k].date == m.date
  {
    Relabel(m, SummaryTexts(Lines(m.message)))
  }

  /** `_unpack_embedded_summaries(msg_list)` as a value. */
  function UnpackedSummaries(msgs: seq<CommitMessage>): seq<CommitMessage> {
    FlatMap(SummariesOf, msgs)
  }

  /** `_unpack_embedded_summaries`: the loop over the records. */
  method UnpackEmbeddedSummaries(msgs: seq<CommitMessage>) returns (result: seq<CommitMessage>)
    ensures result == UnpackedSummaries(msgs)
  {
    result := [];
    for i := 0 to |msgs|
      invariant result == FlatMap(SummariesOf, msgs[..i])
    {
      var pieces := SplitSummaries(msgs[i]);
      FlatMapStep(SummariesOf, msgs, i);
      result := result + pieces;
    }
    assert msgs[..|msgs|] == msgs;
  }

  /** The body of that loop for one record. */
  method SplitSummaries(m: CommitMessage) returns (r: seq<CommitMessage>)
    ensures r == SummariesOf(m)
  {
    var lines := Lines(m.message);
    var prev;
    r, prev := ClosedSummaries(m, lines, IsSummaryLine);
    if prev < 0 {
      prev := 0;
    }
    var text := BlockText(lines, prev, |lines|);
    ghost var idx := SummaryIndices(lines);
    TextsSnoc(lines, ClosedRanges(idx), Range(prev, |lines|));
    assert SummaryRanges(idx, |lines|) == ClosedRanges(idx) + [Range(prev, |lines|)];
    RelabelSnoc(m, Texts(lines, ClosedRanges(idx)), text);
    r := r + [CommitMessage(m.commitId, m.author, m.date, text)];
  }

  /** The scan over the lines: every line that `isSummary` accepts closes
      the range opened by the previous one; `prev` is the last such line
      seen, or -1. */
  method ClosedSummaries(m: CommitMessage, lines: seq<string>, isSummary: string -> bool)
    returns (r: seq<CommitMessage>, prev: int)
    ensures prev == LastOr(PositionsUpTo(lines, isSummary, |lines|)) && prev < |lines|
    ensures r == Relabel(m, Texts(lines, ClosedRanges(PositionsUpTo(lines, isSummary, |lines|))))
  {
    prev := -1;
    r := [];
    for index := 0 to |lines|
      invariant prev == LastOr(PositionsUpTo(lines, isSummary, index))
      invariant prev < index
      invariant r == Relabel(m, Texts(lines, ClosedRanges(PositionsUpTo(lines, isSummary, index))))
    {
      ScanStep(m, lines, isSummary, index, prev, r);
      if isSummary(lines[index]) {
        if prev >= 0 {
          var text := BlockText(lines, prev, index);
          r := r + [CommitMessage(m.commitId, m.author, m.date, text)];
        }
        prev := index;
      }
    }
  }

  /** One line of the scan: a summary line closes the open range, if any,
      and opens the next; any other line leaves both alone. */
  lemma ScanStep(m: CommitMessage, lines: seq<string>, p: string -> bool, index: nat, prev: int, r: seq<CommitMessage>)
    requires index < |lines|
    requires prev == LastOr(PositionsUpTo(lines, p, index))
    requires r == Relabel(m, Texts(lines, ClosedRanges(PositionsUpTo(lines, p, index))))
    ensures p(lines[index]) ==> index == LastOr(PositionsUpTo(lines, p, index + 1))
    ensures !p(lines[index]) ==> prev == LastOr(PositionsUpTo(lines, p, index + 1))
    ensures !p(lines[index]) || prev < 0 ==>
              r == Relabel(m, Texts(lines, ClosedRanges(PositionsUpTo(lines, p, index + 1))))
    ensures p(lines[index]) && prev >= 0 ==>
              r + [CommitMessage(m.commitId, m.author, m.date, BlockText(lines, prev, index))] ==
              Relabel(m, Texts(lines, ClosedRanges(PositionsUpTo(lines, p, index + 1))))
  {
    var pos := PositionsUpTo(lines, p, index);
    PositionsStep(lines, p, index);
    if p(lines[index]) {
      if prev >= 0 {
        ClosedStep(m, lines, pos, index);
      } else {
        assert ClosedRanges([index]) == [];
      }
    }
  }

  function LastOr(idx: seq<nat>): int {
    if idx == [] then -1 else Last(idx)
  }

  /** A further summary line closes the range opened by the previous one. */
  lemma ClosedStep(m: CommitMessage, lines: seq<string>, pos: seq<nat>, index: nat)
    requires pos != []
    ensures Relabel(m, Texts(lines, ClosedRanges(pos + [index]))) ==
            Relabel(m, Texts(lines, ClosedRanges(pos))) + [m.(message := BlockText(lines, Last(pos), index))]
  {
    var next := pos + [index];
    assert next[..|next| - 1] == pos;
    assert ClosedRanges(next) == ClosedRanges(pos) + [Range(Last(pos), index)];
    TextsSnoc(lines, ClosedRanges(pos), Range(Last(pos), index));
    RelabelSnoc(m, Texts(lines, ClosedRanges(pos)), BlockText(lines, Last(pos), index));
  }

  /** The positions are listed in increasing order. */
  lemma {:induction false} PositionsIncrease(lines: seq<string>, p: string -> bool, n: nat)
    requires n <= |lines|
    ensures forall i, j :: 0 <= i < j < |PositionsUpTo(lines, p, n)| ==>
              PositionsUpTo(lines, p, n)[i] < PositionsUpTo(lines, p, n)[j]
  {
    if n > 0 {
      PositionsIncrease(lines, p, n - 1);
      var prev := PositionsUpTo(lines, p, n - 1);
      var idx := PositionsUpTo(lines, p, n);
      assert idx == prev + (if p(lines[n - 1]) then [n - 1] else []);
      forall i, j | 0 <= i < j < |idx|
        ensures idx[i] < idx[j]
      {
        assert idx[i] == prev[i] && prev[i] < n - 1;
        if j < |prev| {
          assert idx[j] == prev[j] && prev[i] < prev[j];
        } else {
          assert idx[j] == n - 1;
        }
      }
    }
  }

  lemma PositionsStep(lines: seq<string>, p: string -> bool, n: nat)
    requires n < |lines|
    ensures PositionsUpTo(lines, p, n + 1) == PositionsUpTo(lines, p, n) + if p(lines[n]) then [n] else []
  {
  }

  /** Every line below `n` that satisfies `p` has its position listed. */
  lemma {:induction false} PositionsComplete(lines: seq<string>, p: string -> bool, n: nat, k: nat)
    requires k < n <= |lines|
    ensures p(lines[k]) ==> k in PositionsUpTo(lines, p, n)
    decreases n
  {
    if k < n - 1 {
      PositionsComplete(lines, p, n - 1, k);
    }
  }

  lemma TextsSnoc(lines: seq<string>, rs: seq<Range>, x: Range)
    ensures Texts(lines, rs + [x]) == Texts(lines, rs) + [BlockText(lines, x.lo, x.hi)]
  {
    var ys := rs + [x];
    assert forall i :: 0 <= i < |rs| ==> ys[i] == rs[i];
  }

  lemma RelabelSnoc(m: CommitMessage, texts: seq<string>, t: string)
    ensures Relabel(m, texts + [t]) == Relabel(m, texts) + [m.(message := t)]
  {
  }

  /** Range `i` runs from summary position `i` to the next one, or to the end. */
  lemma SummaryRangeAt(idx: seq<nat>, end: nat, i: nat)
    requires i < |idx|
    ensures |SummaryRanges(idx, end)| == |idx|
    ensures SummaryRanges(idx, end)[i] == Range(idx[i], if i + 1 < |idx| then idx[i + 1] else end)
  {
  }

  /** The texts partition the lines from the first summary line on: text `i`
      is summary line `i` and the lines up to the next summary line or to
      the end of the message. */
  lemma SummaryTextsPartition(lines: seq<string>, i: nat)
    requires i < |SummaryIndices(lines)|
    ensures var idx := SummaryIndices(lines);
            |SummaryTexts(lines)| == |idx| && IsSummaryLine(lines[idx[i]]) &&
            SummaryTexts(lines)[i] == BlockText(lines, idx[i], if i + 1 < |idx| then idx[i + 1] else |lines|)
  {
    SummaryRangeAt(SummaryIndices(lines), |lines|, i);
  }

  /** No line between two consecutive summary lines, or after the last, is
      itself a summary line. */
  lemma SummaryBlocksHaveOneSummary(lines: seq<string>, i: nat, k: nat)
    requires var idx := SummaryIndices(lines);
             i < |idx| && idx[i] < k < (if i + 1 < |idx| then idx[i + 1] else |lines|)
    ensures !IsSummaryLine(lines[k])
  {
    PositionsGap(lines, IsSummaryLine, |lines|, i, k);
  }

  lemma PositionsGap(lines: seq<string>, p: string -> bool, n: nat, i: nat, k: nat)
    requires n <= |lines|
    requires var idx := PositionsUpTo(lines, p, n);
             i < |idx| && idx[i] < k < (if i + 1 < |idx| then idx[i + 1] else n)
    ensures !p(lines[k])
  {
    var idx := PositionsUpTo(lines, p, n);
    PositionsComplete(lines, p, n, k);
    PositionsIncrease(lines, p, n);
    forall j | 0 <= j < |idx|
      ensures idx[j] != k
    {
      if i + 1 < j {
        assert idx[i + 1] < idx[j];
      }
    }
  }

  /** With no matching line there is no position. */
  lemma {:induction false} PositionsEmpty(lines: seq<string>, p: string -> bool, n: nat)
    requires n <= |lines|
    requires forall k :: 0 <= k < n ==> !p(lines[k])
    ensures PositionsUpTo(lines, p, n) == []
    decreases n
  {
    if n > 0 {
      PositionsEmpty(lines, p, n - 1);
    }
  }

  /** A message without summary lines becomes one record, its message
      right-stripped. */
  lemma SummariesWithoutSummaryLine(m: CommitMessage)
    requires forall k :: 0 <= k < |Lines(m.message)| ==> !IsSummaryLine(Lines(m.message)[k])
    ensures SummariesOf(m) == [m.(message := RStrip(m.message))]
  {
    var lines := Lines(m.message);
    PositionsEmpty(lines, IsSummaryLine, |lines|);
    assert lines[0..|lines|] == lines;
    JoinSplitOn(m.message, "\n");
  }

  /** Past a prefix with no matching line, the positions in `lines` are
      those in the rest moved up by the length of the prefix. */
  lemma {:induction false} PositionsShift(lines: seq<string>, p: string -> bool, f: nat, n: nat)
    requires f <= n <= |lines|
    requires forall k :: 0 <= k < f ==> !p(lines[k])
    ensures var idx := PositionsUpTo(lines, p, n);
            var jdx := PositionsUpTo(lines[f..], p, n - f);
            |idx| == |jdx| && forall i :: 0 <= i < |idx| ==> idx[i] == jdx[i] + f
    decreases n
  {
    var rest := lines[f..];
    if n == f {
      PositionsEmpty(lines, p, f);
    } else {
      PositionsShift(lines, p, f, n - 1);
      assert rest[n - 1 - f] == lines[n - 1];
      var idx0 := PositionsUpTo(lines, p, n - 1);
      var jdx0 := PositionsUpTo(rest, p, n - 1 - f);
      if p(lines[n - 1]) {
        assert PositionsUpTo(lines, p, n) == idx0 + [n - 1];
        assert PositionsUpTo(rest, p, n - f) == jdx0 + [n - 1 - f];
      } else {
        assert PositionsUpTo(lines, p, n) == idx0 + [] == idx0;
        assert PositionsUpTo(rest, p, n - f) == jdx0 + [] == jdx0;
      }
    }
  }

  lemma BlockTextShift(lines: seq<string>, f: nat, a: nat, b: nat, a': nat, b': nat)
    requires a' == a + f && b' == b + f && a' <= b' <= |lines|
    ensures BlockText(lines, a', b') == BlockText(lines[f..], a, b)
  {
    assert lines[a'..b'] == lines[f..][a..b];
  }

  /** The texts for the lines that satisfy `p`, as for summary lines. */
  function TextsWhere(lines: seq<string>, p: string -> bool): seq<string> {
    Texts(lines, SummaryRanges(PositionsUpTo(lines, p, |lines|), |lines|))
  }

  /** Past a prefix with no matching line, the texts are those of the rest. */
  lemma TextsSkipPrefix(lines: seq<string>, p: string -> bool, f: nat)
    requires f < |lines| && p(lines[f])
    requires forall k :: 0 <= k < f ==> !p(lines[k])
    ensures TextsWhere(lines, p) == TextsWhere(lines[f..], p)
  {
    var rest := lines[f..];
    var idx := PositionsUpTo(lines, p, |lines|);
    var jdx := PositionsUpTo(rest, p, |rest|);
    PositionsShift(lines, p, f, |lines|);
    assert |idx| == |jdx|;
    assert rest[0] == lines[f];
    PositionsComplete(rest, p, |rest|, 0);
    assert jdx != [];
    PositionsIncrease(lines, p, |lines|);
    var rs := SummaryRanges(idx, |lines|);
    var rs' := SummaryRanges(jdx, |rest|);
    SummaryRangeAt(idx, |lines|, 0);
    SummaryRangeAt(jdx, |rest|, 0);
    forall i | 0 <= i < |rs|
      ensures rs[i].lo == rs'[i].lo + f && rs[i].hi == rs'[i].hi + f && rs[i].lo <= rs[i].hi <= |lines|
    {
      SummaryRangeAt(idx, |lines|, i);
      SummaryRangeAt(jdx, |rest|, i);
    }
    TextsShift(lines, f, rs, rs');
  }

  /** Ranges moved up by `f` have the texts of the original ranges in the
      lines from `f` on. */
  lemma TextsShift(lines: seq<string>, f: nat, rs: seq<Range>, rs': seq<Range>)
    requires f <= |lines| && |rs| == |rs'|
    requires forall i :: 0 <= i < |rs| ==>
               rs[i].lo == rs'[i].lo + f && rs[i].hi == rs'[i].hi + f && rs[i].lo <= rs[i].hi <= |lines|
    ensures Texts(lines, rs) == Texts(lines[f..], rs')
  {
    forall i | 0 <= i < |rs|
      ensures Texts(lines, rs)[i] == Texts(lines[f..], rs')[i]
    {
      BlockTextShift(lines, f, rs'[i].lo, rs'[i].hi, rs[i].lo, rs[i].hi);
    }
  }

  /** What comes before the first summary line is dropped: the texts are those
      of the lines from that summary line on. */
  lemma SummariesSkipPreamble(lines: seq<string>, f: nat)
    requires f < |lines| && IsSummaryLine(lines[f])
    requires forall k :: 0 <= k < f ==> !IsSummaryLine(lines[k])
    ensures SummaryTexts(lines) == SummaryTexts(lines[f..])
  {
    TextsSkipPrefix(lines, IsSummaryLine, f);
  }

  /** `_unpack_embedded_summaries` on a concatenation of lists. */
  lemma UnpackedSummariesAppend(a: seq<CommitMessage>, b: seq<CommitMessage>)
    ensures UnpackedSummaries(a + b) == UnpackedSummaries(a) + UnpackedSummaries(b)
  {
    FlatMapAppend(SummariesOf, a, b);
  }

  /** No record disappears: each yields at least one. */
  lemma UnpackedSummariesCover(msgs: seq<CommitMessage>)
    ensures |UnpackedSummaries(msgs)| >= |msgs|
  {
    FlatMapCovers(SummariesOf, msgs);
  }

  // ---------------------------------------------------------------------
  // normalize_message_list

  /** `normalize_message_list(msg_list)`: embedded commits first, then
      embedded summaries of the result. */
  function Normalized(msgs: seq<CommitMessage>): (r: Result<seq<CommitMessage>>)
    ensures r.Ok? <==> UnpackedCommits(msgs).Ok?
    ensures r.Err? ==> r.error == UnpackedCommits(msgs).error
    ensures r.Ok? ==> |r.value| >= |UnpackedCommits(msgs).value|
  {
    UnpackedSummariesCover(if UnpackedCommits(msgs).Ok? then UnpackedCommits(msgs).value else []);
    var unpacked :- UnpackedCommits(msgs);
    Ok(UnpackedSummaries(unpacked))
  }

  method NormalizeMessageList(msgs: seq<CommitMessage>) returns (r: Result<seq<CommitMessage>>)
    ensures r == Normalized(msgs)
  {
    var unpacked := UnpackEmbeddedCommits(msgs);
    if unpacked.Err? {
      return Err(unpacked.error);
    }
    var summaries := UnpackEmbeddedSummaries(unpacked.value);
    r := Ok(summaries);
  }

  /** Only the first position can be listed when only the first line matches. */
  lemma {:induction false} PositionsOnlyFirst(lines: seq<string>, p: string -> bool, n: nat)
    requires 1 <= n <= |lines| && p(lines[0])
    requires forall k :: 0 < k < n ==> !p(lines[k])
    ensures PositionsUpTo(lines, p, n) == [0]
    decreases n
  {
    if n > 1 {
      PositionsOnlyFirst(lines, p, n - 1);
    }
  }

  /** When only the first line matches, all the lines form one text. */
  lemma TextsOnlyFirst(lines: seq<string>, p: string -> bool)
    requires |lines| >= 1 && p(lines[0])
    requires forall k :: 0 < k < |lines| ==> !p(lines[k])
    ensures TextsWhere(lines, p) == [RStrip(Join(lines, "\n"))]
  {
    PositionsOnlyFirst(lines, p, |lines|);
    assert SummaryRanges([0], |lines|) == [Range(0, |lines|)];
    assert lines[0..|lines|] == lines;
  }

  /** The same for a whole record with a tidy message. */
  lemma OneBlockRecord(m: CommitMessage, p: string -> bool)
    requires IsTidy(m.message) && p(Lines(m.message)[0])
    requires forall k :: 0 < k < |Lines(m.message)| ==> !p(Lines(m.message)[k])
    ensures Relabel(m, TextsWhere(Lines(m.message), p)) == [m]
  {
    TextsOnlyFirst(Lines(m.message), p);
    JoinSplitOn(m.message, "\n");
    TidyRStrip(m.message);
    assert m.(message := m.message) == m;
  }

  /** A tidy message whose only summary line is its first line is one block
      already: the record comes back unchanged. */
  lemma SummariesOneAtStart(m: CommitMessage)
    requires IsTidy(m.message)
    requires IsSummaryLine(Lines(m.message)[0])
    requires forall k :: 0 < k < |Lines(m.message)| ==> !IsSummaryLine(Lines(m.message)[k])
    ensures SummariesOf(m) == [m]
  {
    OneBlockRecord(m, IsSummaryLine);
  }

  /** A record with no embedded commit header and no summary line after its
      first line, as `make` produces it, is left as it is. */
  predicate Plain(m: CommitMessage) {
    var lines := Lines(m.message);
    IsTidy(m.message) &&
    (forall l :: 0 <= l < |lines| ==> !EmbeddedHeaderAt(lines, l)) &&
    (forall k :: 0 < k < |lines| ==> !IsSummaryLine(lines[k]))
  }

  /** Normalizing a list of plain records changes nothing. */
  lemma NormalizePlain(msgs: seq<CommitMessage>)
    requires forall k :: 0 <= k < |msgs| ==> Plain(msgs[k])
    ensures UnpackedCommits(msgs) == Ok(msgs)
    ensures UnpackedSummaries(msgs) == msgs
    ensures Normalized(msgs) == Ok(msgs)
  {
    forall k | 0 <= k < |msgs|
      ensures UnpackOne(msgs[k]) == Ok([msgs[k]]) && SummariesOf(msgs[k]) == [msgs[k]]
    {
      var m := msgs[k];
      UnpackWithoutHeader(m);
      if IsSummaryLine(Lines(m.message)[0]) {
        SummariesOneAtStart(m);
      } else {
        SummariesWithoutSummaryLine(m);
        TidyRStrip(m.message);
        assert m.(message := RStrip(m.message)) == m;
      }
    }
    FlatMapAllIdentity(UnpackOne, msgs);
    FlatMapIdentity(SummariesOf, msgs);
  }
}
