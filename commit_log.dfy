/** `CommitMessage.make` and `make_list_from_result`: reading the entries of
    `git log --pretty=medium` output into commit records whose message has
    no trailing whitespace on any line and no blank line at either end. */
module CommitLog {
  import opened Outcomes
  import opened Text

  datatype CommitMessage = CommitMessage(commitId: string, author: string, date: string, message: string)

  /** The three groups of the header pattern and the text after group 3. */
  datatype Header = Header(commitId: string, author: string, date: string, body: string)

  /** The length of the run of `' '` at the start of `s` (the regex ` *`). */
  function LeadingSpaces(s: string): (n: nat)
    ensures n <= |s|
    ensures forall i :: 0 <= i < n ==> s[i] == ' '
    ensures n == |s| || s[n] != ' '
    decreases |s|
  {
    if s != [] && s[0] == ' ' then 1 + LeadingSpaces(s[1..]) else 0
  }

  /** ` *(.+)` matched against a whole line `r`: the spaces are greedy but
      must leave at least one character to the group, so a line of spaces
      only yields its last space, and an empty line does not match. */
  function AuthorGroup(r: string): Option<string> {
    if r == [] then None
    else
      var n := LeadingSpaces(r);
      if n == |r| then Some(r[n - 1..]) else Some(r[n..])
  }

  /** ` *(.*)` matched against a whole line: everything after the spaces. */
  function DateGroup(r: string): string {
    r[LeadingSpaces(r)..]
  }

  /** The text before the first newline and the text after it. */
  function SplitFirstLine(s: string): (r: Option<(string, string)>)
    ensures r.None? <==> '\n' !in s
    ensures r.Some? ==> '\n' !in r.value.0 && s == r.value.0 + "\n" + r.value.1
  {
    IndexOfChar(s, '\n');
    match IndexOf(s, "\n")
    case None => None
    case Some(i) =>
      assert s == s[..i] + "\n" + s[i + 1..];
      Some((s[..i], s[i + 1..]))
  }

  /** Cutting at the first newline of `a + "\n" + b` when `a` has none. */
  lemma CutLine(a: string, b: string)
    requires '\n' !in a
    ensures SplitFirstLine(a + "\n" + b) == Some((a, b))
  {
    var s := a + "\n" + b;
    assert s == a + ['\n'] + b;
    IndexOfCharAfter(a, '\n', b);
    assert s[..|a|] == a && s[|a| + 1..] == b;
  }

  /** `_MEDIUM_PRETTY_COMMIT_MATCHER.match(entry)`, the pattern
      `(.+)\nAuthor: *(.+)\nDate: *(.*)\n` anchored at the start of the
      entry. `.` does not cross a newline, so each group is confined to its
      line: group 1 is the whole first line, which must be non-empty, and
      the line after the date must exist. The body is `entry[match.end(3):]`
      and so starts with that line's newline. */
  function ParseHeader(entry: string): (r: Option<Header>)
    ensures r.Some? ==> r.value.commitId != [] && '\n' !in r.value.commitId
    ensures r.Some? ==> r.value.author != [] && '\n' !in r.value.author && '\n' !in r.value.date
    ensures r.Some? ==> StartsWith(r.value.body, "\n")
  {
    match SplitFirstLine(entry)
    case None => None
    case Some((line1, rest1)) =>
      if line1 == [] || !StartsWith(rest1, "Author:") then None
      else
        match SplitFirstLine(rest1[7..])
        case None => None
        case Some((line2, rest2)) =>
          match AuthorGroup(line2)
          case None => None
          case Some(author) =>
            if !StartsWith(rest2, "Date:") then None
            else
              match SplitFirstLine(rest2[5..])
              case None => None
              case Some((line3, rest3)) =>
                GroupsOfLines(line2, line3);
                Some(Header(line1, author, DateGroup(line3), "\n" + rest3))
  }

  /** The groups are cut from their lines, so neither holds a newline. */
  lemma GroupsOfLines(line2: string, line3: string)
    requires '\n' !in line2 && '\n' !in line3
    ensures AuthorGroup(line2).Some? ==> AuthorGroup(line2).value != [] && '\n' !in AuthorGroup(line2).value
    ensures '\n' !in DateGroup(line3)
  {
    if line2 != [] {
      var n := LeadingSpaces(line2);
      if n == |line2| {
        assert AuthorGroup(line2).value == line2[n - 1..];
      }
    }
  }

  /** `text.split('\n')`. */
  function Lines(text: string): seq<string> {
    SplitOn(text, "\n")
  }

  /** `[line.rstrip() for line in lines]`. */
  function RStripAll(lines: seq<string>): (r: seq<string>)
    ensures |r| == |lines|
    ensures forall k :: 0 <= k < |r| ==> r[k] == RStrip(lines[k])
  {
    seq(|lines|, k requires 0 <= k < |lines| => RStrip(lines[k]))
  }

  /** Lines left after deleting the blank lines at the front. */
  function DropLeadingBlank(lines: seq<string>): (r: seq<string>)
    ensures |r| <= |lines| && r == lines[|lines| - |r|..]
    ensures forall k :: 0 <= k < |lines| - |r| ==> lines[k] == ""
    ensures r == [] || r[0] != ""
    decreases |lines|
  {
    if lines != [] && lines[0] == "" then
      var rest := lines[1..];
      assert forall k :: 1 <= k < |lines| ==> lines[k] == rest[k - 1];
      DropLeadingBlank(rest)
    else lines
  }

  /** Lines left after deleting the blank lines at the end. */
  function DropTrailingBlank(lines: seq<string>): (r: seq<string>)
    ensures |r| <= |lines| && r == lines[..|r|]
    ensures forall k :: |r| <= k < |lines| ==> lines[k] == ""
    ensures r == [] || r[|r| - 1] != ""
    decreases |lines|
  {
    if lines != [] && lines[|lines| - 1] == "" then
      var front := lines[..|lines| - 1];
      assert forall k :: 0 <= k < |front| ==> lines[k] == front[k];
      DropTrailingBlank(front)
    else lines
  }

  /** Deleting the blank lines at both ends. */
  function Trim(lines: seq<string>): seq<string> {
    DropTrailingBlank(DropLeadingBlank(lines))
  }

  /** Trimming keeps one contiguous run of the lines, unchanged and in
      order, and deletes only blank lines around it. */
  lemma TrimIsSlice(ls: seq<string>) returns (lo: nat)
    ensures lo + |Trim(ls)| <= |ls| && Trim(ls) == ls[lo..lo + |Trim(ls)|]
    ensures forall k :: 0 <= k < lo ==> ls[k] == ""
    ensures forall k :: lo + |Trim(ls)| <= k < |ls| ==> ls[k] == ""
  {
    var front := DropLeadingBlank(ls);
    lo := |ls| - |front|;
    TrimTail(ls, front, DropTrailingBlank(front));
  }

  /** Unless nothing is left, trimming leaves non-blank lines at both ends. */
  lemma TrimEnds(ls: seq<string>)
    ensures Trim(ls) == [] || (Trim(ls)[0] != "" && Trim(ls)[|Trim(ls)| - 1] != "")
  {
    var front := DropLeadingBlank(ls);
    var t := DropTrailingBlank(front);
    if t != [] {
      assert t[0] == front[0];
    }
  }

  lemma TrimTail(ls: seq<string>, front: seq<string>, t: seq<string>)
    requires |front| <= |ls| && |t| <= |front|
    requires front == ls[|ls| - |front|..] && t == front[..|t|]
    requires forall k :: |t| <= k < |front| ==> front[k] == ""
    ensures var lo := |ls| - |front|;
            t == ls[lo..lo + |t|] && forall k :: lo + |t| <= k < |ls| ==> ls[k] == ""
  {
    var lo := |ls| - |front|;
    forall k | lo + |t| <= k < |ls|
      ensures ls[k] == ""
    {
      assert ls[k] == front[k - lo];
    }
  }

  /** Trimming leaves alone lines that neither start nor end blank. */
  lemma TrimUnchanged(ls: seq<string>)
    requires ls != [] && ls[0] != "" && ls[|ls| - 1] != ""
    ensures Trim(ls) == ls
  {
  }

  /** A blank line in front is trimmed away. */
  lemma TrimBlankFront(ls: seq<string>)
    ensures Trim([""] + ls) == Trim(ls)
  {
    assert ([""] + ls)[1..] == ls;
  }

  /** The lines of a body once each is right-stripped and the blank lines
      at both ends are deleted. */
  function TidyLines(text: string): seq<string> {
    Trim(RStripAll(Lines(text)))
  }

  /** The message `make` keeps of a body. */
  function Tidy(text: string): (r: string)
    ensures IsTidy(r)
    ensures TidyLines(text) != [] ==> Lines(r) == TidyLines(text)
    ensures TidyLines(text) == [] ==> r == ""
  {
    var t := TidyLines(text);
    TrimEnds(RStripAll(Lines(text)));
    if t == [] then
      SplitOnCharAbsent("", '\n');
      Join(t, "\n")
    else
      TidyLinesClean(text);
      JoinedTidy(t);
      Join(t, "\n")
  }

  /** A message as `make` leaves it: no line ends in whitespace, and unless
      it is empty its first and last lines are not blank. */
  predicate IsTidy(m: string) {
    var ls := Lines(m);
    (forall k :: 0 <= k < |ls| ==> RStrip(ls[k]) == ls[k]) &&
    (m == "" || (ls[0] != "" && ls[|ls| - 1] != ""))
  }

  /** `CommitMessage.make(entry)`; an entry whose header does not match
      makes the source fail on `None`, here `MalformedLogEntry`. */
  function Parse(entry: string): (r: Result<CommitMessage>)
    ensures r.Ok? <==> ParseHeader(entry).Some?
    ensures r.Err? ==> r.error == MalformedLogEntry(entry)
    ensures r.Ok? ==> IsTidy(r.value.message)
  {
    match ParseHeader(entry)
    case None => Err(MalformedLogEntry(entry))
    case Some(h) => Ok(CommitMessage(h.commitId, h.author, h.date, Tidy(h.body)))
  }

  lemma RStripIdempotent(s: string)
    ensures RStrip(RStrip(s)) == RStrip(s)
  {
  }

  /** A right-stripped line without newline stays so. */
  lemma CleanLine(line: string)
    requires '\n' !in line
    ensures '\n' !in RStrip(line) && RStrip(RStrip(line)) == RStrip(line)
  {
    var r := RStrip(line);
    assert r == line[..|r|];
    RStripIdempotent(line);
  }

  /** A run of right-stripped newline-free lines holds only clean lines. */
  lemma CleanRun(lines: seq<string>, all: seq<string>, lo: nat, t: seq<string>)
    requires forall k :: 0 <= k < |lines| ==> '\n' !in lines[k]
    requires |all| == |lines| && forall k :: 0 <= k < |all| ==> all[k] == RStrip(lines[k])
    requires lo + |t| <= |all| && t == all[lo..lo + |t|]
    ensures forall k :: 0 <= k < |t| ==> '\n' !in t[k] && RStrip(t[k]) == t[k]
  {
    forall k | 0 <= k < |t|
      ensures '\n' !in t[k] && RStrip(t[k]) == t[k]
    {
      assert t[k] == all[lo + k];
      CleanLine(lines[lo + k]);
    }
  }

  /** The tidied lines: right-stripped lines of the body without newlines. */
  lemma TidyLinesClean(text: string)
    ensures forall k :: 0 <= k < |TidyLines(text)| ==>
              '\n' !in TidyLines(text)[k] && RStrip(TidyLines(text)[k]) == TidyLines(text)[k]
  {
    var lines := Lines(text);
    var all := RStripAll(lines);
    SplitOnCharFree(text, '\n');
    var lo := TrimIsSlice(all);
    CleanRun(lines, all, lo, Trim(all));
  }

  /** Joining clean lines whose ends are not blank gives a tidy message
      that splits back into those lines. */
  lemma JoinedTidy(t: seq<string>)
    requires t != [] && t[0] != "" && t[|t| - 1] != ""
    requires forall k :: 0 <= k < |t| ==> '\n' !in t[k] && RStrip(t[k]) == t[k]
    ensures Lines(Join(t, "\n")) == t && IsTidy(Join(t, "\n"))
  {
    SplitOnJoinChar(t, '\n');
    TidyOfLines(Join(t, "\n"), t);
  }

  /** A message whose lines are clean and whose end lines are not blank is tidy. */
  lemma TidyOfLines(m: string, t: seq<string>)
    requires Lines(m) == t && t != [] && t[0] != "" && t[|t| - 1] != ""
    requires forall k :: 0 <= k < |t| ==> RStrip(t[k]) == t[k]
    ensures IsTidy(m)
  {
  }

  /** A tidy message survives being tidied again. */
  lemma TidyOfTidy(m: string)
    requires IsTidy(m)
    ensures Tidy(m) == m
  {
    var ls := Lines(m);
    if m == "" {
      SplitOnCharAbsent("", '\n');
      assert RStripAll(ls) == [""];
    } else {
      assert RStripAll(ls) == ls;
      TrimUnchanged(ls);
      JoinSplitOn(m, "\n");
    }
  }

  /** Tidying is idempotent. */
  lemma TidyIdempotent(text: string)
    ensures Tidy(Tidy(text)) == Tidy(text)
  {
    TidyOfTidy(Tidy(text));
  }

  /** The lines of `"\n" + m`: a blank one, then those of `m`. */
  lemma LinesAfterNewline(m: string)
    ensures Lines("\n" + m) == [""] + Lines(m)
    ensures RStripAll(Lines("\n" + m)) == [""] + RStripAll(Lines(m))
  {
    assert "\n" + m == "" + ['\n'] + m;
    SplitOnCharAfter("", '\n', m);
  }

  /** Leading blank lines of a body are dropped: `Tidy("\n" + m) == m` for tidy `m`. */
  lemma TidyAfterNewline(m: string)
    requires IsTidy(m)
    ensures Tidy("\n" + m) == m
  {
    LinesAfterNewline(m);
    TrimBlankFront(RStripAll(Lines(m)));
    TidyOfTidy(m);
  }

  lemma TidyAfterBlank(m: string)
    requires IsTidy(m)
    ensures Tidy("\n" + ("\n" + m)) == m
  {
    LinesAfterNewline("\n" + m);
    TrimBlankFront(RStripAll(Lines("\n" + m)));
    TidyAfterNewline(m);
  }

  /** A tidy message has nothing for `rstrip` to remove. */
  lemma TidyRStrip(m: string)
    requires IsTidy(m)
    ensures RStrip(m) == m
  {
    if m != "" {
      var ls := Lines(m);
      JoinSplitOn(m, "\n");
      JoinEndsWithLast(ls, "\n");
      RStripOfEnd(m, ls[|ls| - 1]);
    }
  }

  /** A text ending in a non-empty right-stripped text has nothing to strip. */
  lemma RStripOfEnd(m: string, last: string)
    requires EndsWith(m, last) && last != "" && RStrip(last) == last
    ensures RStrip(m) == m
  {
    assert m[|m| - 1] == last[|last| - 1];
  }

  // ---------------------------------------------------------------------
  // The imperative `make`.

  /** `CommitMessage.make(entry)`: the two `while` loops delete blank lines
      from the front and the back of the right-stripped lines. */
  method Make(entry: string) returns (r: Result<CommitMessage>)
    ensures r == Parse(entry)
  {
    var header := ParseHeader(entry);
    if header.None? {
      return Err(MalformedLogEntry(entry));
    }
    var h := header.value;
    var stripped := RStripAll(Lines(h.body));
    var lines := stripped;
    while lines != [] && lines[0] == ""
      invariant DropLeadingBlank(lines) == DropLeadingBlank(stripped)
      decreases |lines|
    {
      lines := lines[1..];
    }
    var front := lines;
    while lines != [] && lines[|lines| - 1] == ""
      invariant DropTrailingBlank(lines) == DropTrailingBlank(front)
      decreases |lines|
    {
      lines := lines[..|lines| - 1];
    }
    r := Ok(CommitMessage(h.commitId, h.author, h.date, Join(lines, "\n")));
  }

  // ---------------------------------------------------------------------
  // Whole logs.

  /** `('\n' + response_text.strip()).split('\ncommit ')[1:]`. */
  function LogEntries(text: string): seq<string> {
    SplitOn("\n" + Strip(text), "\ncommit ")[1..]
  }

  /** Parsing every entry in turn; the first entry that fails decides the error. */
  function ParseAll(entries: seq<string>): Result<seq<CommitMessage>> {
    MapAll(Parse, entries)
  }

  /** `CommitMessage.make_list_from_result(text)` as a value. */
  function ParseLog(text: string): (r: Result<seq<CommitMessage>>)
    ensures var es := LogEntries(text);
            r.Ok? <==> forall k :: 0 <= k < |es| ==> ParseHeader(es[k]).Some?
    ensures var es := LogEntries(text);
            r.Ok? ==> |r.value| == |es| &&
                      forall k :: 0 <= k < |es| ==> Parse(es[k]) == Ok(r.value[k]) && IsTidy(r.value[k].message)
    ensures var es := LogEntries(text);
            r.Err? ==> exists k :: 0 <= k < |es| && ParseHeader(es[k]).None? &&
                                   r.error == MalformedLogEntry(es[k]) &&
                                   forall j :: 0 <= j < k ==> ParseHeader(es[j]).Some?
  {
    MapAllSpec(Parse, LogEntries(text));
    ParseAll(LogEntries(text))
  }

  /** `make_list_from_result`: the loop appends one record per entry. */
  method MakeListFromResult(text: string) returns (r: Result<seq<CommitMessage>>)
    ensures r == ParseLog(text)
  {
    var entries := LogEntries(text);
    var response: seq<CommitMessage> := [];
    for i := 0 to |entries|
      invariant MapAll(Parse, entries[..i]) == Ok(response)
    {
      var m := Make(entries[i]);
      assert entries[..i + 1][..i] == entries[..i];
      if m.Err? {
        MapAllFailedPrefix(Parse, entries, i + 1);
        return Err(m.error);
      }
      response := response + [m.value];
    }
    assert entries[..|entries|] == entries;
    r := Ok(response);
  }

  /** The entries are the pieces between the boundaries: joining them back
      with the boundary restores the stripped log, and none holds a boundary. */
  lemma LogEntriesPartition(text: string)
    ensures var pieces := SplitOn("\n" + Strip(text), "\ncommit ");
            "\n" + Strip(text) == Join([pieces[0]] + LogEntries(text), "\ncommit ")
    ensures forall k :: 0 <= k < |LogEntries(text)| ==> !Contains(LogEntries(text)[k], "\ncommit ")
  {
    SplitPartition("\n" + Strip(text), "\ncommit ");
  }

  /** The same for any text and non-empty separator. */
  lemma SplitPartition(s: string, sep: string)
    requires |sep| > 0
    ensures s == Join([SplitOn(s, sep)[0]] + SplitOn(s, sep)[1..], sep)
    ensures forall k :: 0 <= k < |SplitOn(s, sep)[1..]| ==> !Contains(SplitOn(s, sep)[1..][k], sep)
  {
    var pieces := SplitOn(s, sep);
    JoinSplitOn(s, sep);
    assert pieces == [pieces[0]] + pieces[1..];
    SplitOnPiecesFree(s, sep);
    forall k | 0 <= k < |pieces[1..]|
      ensures !Contains(pieces[1..][k], sep)
    {
      assert pieces[1..][k] == pieces[k + 1];
    }
  }

  // ---------------------------------------------------------------------
  // Formatting an entry and reading it back.

  /** The header and message of one entry as `git log --pretty=medium`
      writes it after `commit `: id line, author line, date line, a blank
      line, the message. */
  function FormatEntry(m: CommitMessage): string {
    m.commitId + "\n" + ("Author: " + m.author + "\n" + ("Date:   " + m.date + "\n" + ("\n" + m.message)))
  }

  /** A record whose fields the header pattern can carry: one-line fields,
      a non-empty id and author, no space where ` *` would swallow it, and
      a tidy message. */
  predicate Printable(m: CommitMessage) {
    PrintableHeader(m) && IsTidy(m.message)
  }

  predicate PrintableHeader(m: CommitMessage) {
    m.commitId != [] && '\n' !in m.commitId &&
    m.author != [] && '\n' !in m.author && m.author[0] != ' ' &&
    '\n' !in m.date && (m.date == [] || m.date[0] != ' ')
  }

  predicate AllBlanks(sp: string) {
    forall i :: 0 <= i < |sp| ==> sp[i] == ' '
  }

  lemma {:induction false} DropSpaces(sp: string, s: string)
    requires AllBlanks(sp)
    requires s == [] || s[0] != ' '
    ensures LeadingSpaces(sp + s) == |sp|
    ensures (sp + s)[|sp|..] == s
    decreases |sp|
  {
    if sp != [] {
      assert (sp + s)[1..] == sp[1..] + s;
      DropSpaces(sp[1..], s);
    }
  }

  /** A line `<key><spaces><field>` followed by more text: the key is a
      prefix, and after it come the spaces, the field and the rest. */
  lemma KeyedLine(key: string, sp: string, field: string, rest: string)
    ensures StartsWith(key + sp + field + "\n" + rest, key)
    ensures (key + sp + field + "\n" + rest)[|key|..] == (sp + field) + "\n" + rest
  {
    assert (key + sp + field + "\n" + rest)[..|key|] == key;
  }

  /** The header pattern on an entry built from its three fields, with any
      run of spaces after `Author:` and `Date:`. */
  lemma ParseHeaderOf(commitId: string, sp2: string, author: string, sp3: string, date: string, tail: string)
    requires commitId != [] && '\n' !in commitId
    requires AllBlanks(sp2) && AllBlanks(sp3)
    requires author != [] && '\n' !in author && author[0] != ' '
    requires '\n' !in date && (date == [] || date[0] != ' ')
    ensures ParseHeader(commitId + "\n" + ("Author:" + sp2 + author + "\n" + ("Date:" + sp3 + date + "\n" + tail))) ==
            Some(Header(commitId, author, date, "\n" + tail))
  {
    var rest2 := "Date:" + sp3 + date + "\n" + tail;
    var rest1 := "Author:" + sp2 + author + "\n" + rest2;
    CutLine(commitId, rest1);
    KeyedLine("Author:", sp2, author, rest2);
    CutLine(sp2 + author, rest2);
    DropSpaces(sp2, author);
    assert AuthorGroup(sp2 + author) == Some(author);
    KeyedLine("Date:", sp3, date, tail);
    CutLine(sp3 + date, tail);
    DropSpaces(sp3, date);
    assert DateGroup(sp3 + date) == date;
  }

  lemma FormatShape(m: CommitMessage)
    ensures FormatEntry(m) ==
            m.commitId + "\n" + ("Author:" + " " + m.author + "\n" + ("Date:" + "   " + m.date + "\n" + ("\n" + m.message)))
  {
    assert "Author: " + m.author == "Author:" + " " + m.author;
    assert "Date:   " + m.date == "Date:" + "   " + m.date;
  }

  /** The header pattern reads back the three fields of a formatted entry. */
  lemma ParseHeaderOfFormat(m: CommitMessage)
    requires PrintableHeader(m)
    ensures ParseHeader(FormatEntry(m)) == Some(Header(m.commitId, m.author, m.date, "\n" + ("\n" + m.message)))
  {
    FormatShape(m);
    ParseHeaderOf(m.commitId, " ", m.author, "   ", m.date, "\n" + m.message);
  }

  /** Parse/format round trip for one entry. */
  lemma ParseOfFormat(m: CommitMessage)
    requires Printable(m)
    ensures Parse(FormatEntry(m)) == Ok(m)
  {
    ParseHeaderOfFormat(m);
    TidyAfterBlank(m.message);
  }

  /** A record that can sit in a log: printable, and no line of its message
      starts with `commit ` (the log would be cut there). */
  predicate Loggable(m: CommitMessage) {
    Printable(m) && !Contains("\n" + m.message, "\ncommit ")
  }

  /** The entries of a log, each after its `commit `. */
  function FormattedEntries(ms: seq<CommitMessage>): (r: seq<string>)
    ensures |r| == |ms|
  {
    seq(|ms|, i requires 0 <= i < |ms| => FormatEntry(ms[i]))
  }

  /** The log `git log --pretty=medium` writes for the records: each entry
      led by `commit `, the entries on successive lines. */
  function FormatLog(ms: seq<CommitMessage>): string {
    if ms == [] then "" else "commit " + Join(FormattedEntries(ms), "\ncommit ")
  }

  /** `x`, a newline, then `rest`: a boundary can only start in `rest` or at
      that newline, and neither has one. */
  lemma LineThenFree(x: string, rest: string)
    requires '\n' !in x && !Contains(rest, "\ncommit ") && !StartsWith(rest, "commit ")
    ensures !Contains(x + "\n" + rest, "\ncommit ")
  {
    var s := x + "\n" + rest;
    var sep := "\ncommit ";
    forall j | 0 <= j <= |s|
      ensures !OccursAt(s, sep, j)
    {
      if j + |sep| <= |s| {
        if j < |x| {
          assert s[j..j + |sep|][0] == x[j];
        } else if j == |x| {
          assert s[j..j + |sep|][1..] == rest[..7];
        } else {
          assert s[j..j + |sep|] == rest[j - |x| - 1..j - |x| - 1 + |sep|];
          assert !OccursAt(rest, sep, j - |x| - 1);
        }
      }
    }
  }

  /** No entry of a loggable record holds a boundary. */
  lemma EntryFree(m: CommitMessage)
    requires Loggable(m)
    ensures !Contains(FormatEntry(m), "\ncommit ")
  {
    var r3 := "\n" + m.message;
    var r2 := "Date:   " + m.date + "\n" + r3;
    var r1 := "Author: " + m.author + "\n" + r2;
    assert !StartsWith(r3, "commit ") by {
      if |r3| >= 7 { assert r3[..7][0] == '\n'; }
    }
    LineThenFree("Date:   " + m.date, r3);
    assert !StartsWith(r2, "commit ") by {
      if |r2| >= 7 { assert r2[..7][0] == 'D'; }
    }
    LineThenFree("Author: " + m.author, r2);
    assert !StartsWith(r1, "commit ") by {
      if |r1| >= 7 { assert r1[..7][0] == 'A'; }
    }
    LineThenFree(m.commitId, r1);
  }

  /** A log whose last message is tidy and not empty: nothing for `strip` to remove. */
  lemma StripOfFormatLog(ms: seq<CommitMessage>)
    requires ms != [] && IsTidy(Last(ms).message) && Last(ms).message != ""
    ensures Strip(FormatLog(ms)) == FormatLog(ms)
  {
    var es := FormattedEntries(ms);
    var s := FormatLog(ms);
    var msg := Last(ms).message;
    assert LStrip(s) == s;
    LogEndsWithLast(ms);
    TidyRStrip(msg);
    RStripOfEnd(s, msg);
  }

  lemma LogEndsWithLast(ms: seq<CommitMessage>)
    requires ms != []
    ensures EndsWith(FormatLog(ms), Last(ms).message)
  {
    var es := FormattedEntries(ms);
    var j := Join(es, "\ncommit ");
    var m := Last(ms);
    JoinEndsWithLast(es, "\ncommit ");
    assert es[|es| - 1] == FormatEntry(m);
    EndsWithAppend("commit ", j);
    EntryEndsWithMessage(m);
    EndsWithTrans(FormatLog(ms), j, FormatEntry(m));
    EndsWithTrans(FormatLog(ms), FormatEntry(m), m.message);
  }

  /** A formatted entry ends in the message. */
  lemma EntryEndsWithMessage(m: CommitMessage)
    ensures EndsWith(FormatEntry(m), m.message)
  {
    var t3 := "\n" + m.message;
    var t2 := "Date:   " + m.date + "\n" + t3;
    var t1 := "Author: " + m.author + "\n" + t2;
    EndsWithAppend("\n", m.message);
    EndsWithAppend("Date:   " + m.date + "\n", t3);
    EndsWithAppend("Author: " + m.author + "\n", t2);
    EndsWithAppend(m.commitId + "\n", t1);
    EndsWithTrans(t2, t3, m.message);
    EndsWithTrans(t1, t2, m.message);
    EndsWithTrans(FormatEntry(m), t1, m.message);
  }

  /** The entries of a log with nothing to strip and no boundary inside an entry. */
  lemma LogEntriesOfFormat(ms: seq<CommitMessage>)
    requires ms != [] && Strip(FormatLog(ms)) == FormatLog(ms)
    requires forall k :: 0 <= k < |ms| ==> !Contains(FormattedEntries(ms)[k], "\ncommit ")
    ensures LogEntries(FormatLog(ms)) == FormattedEntries(ms)
  {
    var sep := "\ncommit ";
    var es := FormattedEntries(ms);
    LogWithLead(ms);
    BoundaryStartsOnce();
    SplitAfterEmpty(es, sep);
    assert ([""] + es)[1..] == es;
  }

  /** The log behind a newline is the entries joined behind an empty piece. */
  lemma LogWithLead(ms: seq<CommitMessage>)
    requires ms != []
    ensures "\n" + FormatLog(ms) == Join([""] + FormattedEntries(ms), "\ncommit ")
  {
    var sep := "\ncommit ";
    var es := FormattedEntries(ms);
    JoinCons("", es, sep);
    assert FormatLog(ms) == "commit " + Join(es, sep);
    BoundaryPrefix(Join(es, sep));
  }

  /** Splitting pieces joined behind an empty piece gives them back. */
  lemma SplitAfterEmpty(es: seq<string>, sep: string)
    requires |sep| > 0 && sep[0] !in sep[1..]
    requires forall k :: 0 <= k < |es| ==> !Contains(es[k], sep)
    ensures SplitOn(Join([""] + es, sep), sep) == [""] + es
  {
    FreeAfterEmpty(es, sep);
    SplitOnJoin([""] + es, sep);
  }

  /** A newline before `commit ` is the boundary. */
  lemma BoundaryPrefix(j: string)
    ensures "\n" + ("commit " + j) == "" + "\ncommit " + j
  {
  }

  /** The newline that starts the boundary occurs nowhere else in it. */
  lemma BoundaryStartsOnce()
    ensures "\ncommit "[0] !in "\ncommit "[1..]
  {
    assert "\ncommit "[1..] == "commit ";
  }

  /** Putting an empty piece in front keeps every piece free of `sep`. */
  lemma FreeAfterEmpty(es: seq<string>, sep: string)
    requires |sep| > 0
    requires forall k :: 0 <= k < |es| ==> !Contains(es[k], sep)
    ensures forall k :: 0 <= k < |[""] + es| ==> !Contains(([""] + es)[k], sep)
  {
    var xs := [""] + es;
    forall k | 0 <= k < |xs|
      ensures !Contains(xs[k], sep)
    {
      if k > 0 {
        assert xs[k] == es[k - 1];
      }
    }
  }

  /** Log round trip: the log written for loggable records whose last message
      is not empty reads back as exactly those records. */
  lemma ParseLogOfFormat(ms: seq<CommitMessage>)
    requires forall k :: 0 <= k < |ms| ==> Loggable(ms[k])
    requires ms == [] || Last(ms).message != ""
    ensures ParseLog(FormatLog(ms)) == Ok(ms)
  {
    if ms == [] {
      assert IndexOf("\n", "\ncommit ").None?;
      assert LogEntries("") == [];
    } else {
      var es := FormattedEntries(ms);
      forall k | 0 <= k < |es|
        ensures !Contains(es[k], "\ncommit ") && Parse(es[k]) == Ok(ms[k])
      {
        EntryFree(ms[k]);
        ParseOfFormat(ms[k]);
      }
      StripOfFormatLog(ms);
      LogEntriesOfFormat(ms);
      MapAllOk(Parse, es, ms);
    }
  }

  /** A newline-free line in front of the rest of a text is its first line. */
  lemma SplitLineAfter(l: string, rest: string)
    requires '\n' !in l
    ensures var r := SplitOn(l + "\n" + rest, "\n"); r[0] == l && r[1..] == SplitOn(rest, "\n")
  {
    SplitOnCharAfter(l, '\n', rest);
  }

  /** Four newline-free lines in front of the rest of a text are its first four lines. */
  lemma SplitFourLines(l0: string, l1: string, l2: string, l3: string, rest: string)
    requires '\n' !in l0 && '\n' !in l1 && '\n' !in l2 && '\n' !in l3
    ensures var r := SplitOn(l0 + "\n" + (l1 + "\n" + (l2 + "\n" + (l3 + "\n" + rest))), "\n");
            |r| >= 5 && r[0] == l0 && r[1] == l1 && r[2] == l2 && r[3] == l3
  {
    var r3 := l3 + "\n" + rest;
    var r2 := l2 + "\n" + r3;
    var r1 := l1 + "\n" + r2;
    SplitLineAfter(l3, rest);
    SplitLineAfter(l2, r3);
    SplitLineAfter(l1, r2);
    SplitLineAfter(l0, r1);
  }

  /** An entry after its `commit ` prefix, as lines in front of its message. */
  lemma EntryAsLines(m: CommitMessage, tail: string)
    ensures "commit " + (FormatEntry(m) + tail) ==
            ("commit " + m.commitId) + "\n" + (("Author: " + m.author) + "\n" +
            (("Date:   " + m.date) + "\n" + ("" + "\n" + (m.message + tail))))
  {
  }

  /** The first lines of a log: the first entry's commit line, author line,
      date line and the blank line before its message. */
  lemma LogHeadLines(ms: seq<CommitMessage>)
    requires ms != [] && PrintableHeader(ms[0])
    ensures var ls := Lines(FormatLog(ms));
            |ls| >= 5 && ls[0] == "commit " + ms[0].commitId && ls[1] == "Author: " + ms[0].author &&
            ls[2] == "Date:   " + ms[0].date && ls[3] == ""
  {
    var m := ms[0];
    var es := FormattedEntries(ms);
    var sep := "\ncommit ";
    var tail := if |es| == 1 then "" else sep + Join(es[1..], sep);
    assert es[0] == FormatEntry(m);
    assert FormatLog(ms) == "commit " + (FormatEntry(m) + tail);
    EntryAsLines(m, tail);
    SplitFourLines("commit " + m.commitId, "Author: " + m.author, "Date:   " + m.date, "", m.message + tail);
  }

  /** A header whose second line does not start with `Author:` does not match. */
  lemma ParseWithoutAuthor(firstLine: string, rest: string)
    requires '\n' !in firstLine && !StartsWith(rest, "Author:")
    ensures Parse(firstLine + "\n" + rest) == Err(MalformedLogEntry(firstLine + "\n" + rest))
  {
    CutLine(firstLine, rest);
  }
}
