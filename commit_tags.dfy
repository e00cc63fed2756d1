/** `CommitTag`: one line of `git show-ref --tags` read as a commit id and
    the last path segment of the tag ref. Instances compare by their tag
    string alone. */
module CommitTags {
  import opened Outcomes
  import opened Text

  datatype CommitTag = CommitTag(commitId: string, tag: string)

  /** `s.split(c)` has more than one piece exactly when `c` occurs in `s`;
      its first piece is the text before the first `c`. */
  lemma SplitOnCharFirst(s: string, c: char)
    ensures |SplitOn(s, [c])| >= 2 <==> c in s
    ensures c !in SplitOn(s, [c])[0]
    ensures c in s ==> StartsWith(s, SplitOn(s, [c])[0] + [c])
  {
    SplitOnCharFree(s, c);
    if c in s {
      var j :| 0 <= j < |s| && s[j] == c;
      assert OccursAt(s, [c], j);
      var i := IndexOf(s, [c]).value;
      SplitOnFound(s, [c], i);
      assert s[..i + 1] == s[..i] + [c];
    } else {
      SplitOnCharAbsent(s, c);
    }
  }

  /** `CommitTag.make(ref_line)`: the id is the text before the first space,
      the tag the last `/`-separated segment of the second space-separated
      token. A line without a space has no second token: `IndexError`. */
  function Make(refLine: string): (r: Result<CommitTag>)
    ensures r.Ok? <==> ' ' in refLine
    ensures r.Err? ==> r.error == MalformedRefLine(refLine)
    ensures r.Ok? ==> ' ' !in r.value.commitId && StartsWith(refLine, r.value.commitId + " ")
    ensures r.Ok? ==> ' ' !in r.value.tag && '/' !in r.value.tag
    ensures r.Ok? ==> |SplitOn(refLine, " ")| >= 2 &&
                      var tok := SplitOn(refLine, " ")[1];
                      EndsWith(tok, r.value.tag) &&
                      (r.value.tag == tok || tok[|tok| - |r.value.tag| - 1] == '/')
  {
    SplitOnCharFirst(refLine, ' ');
    var tokens := SplitOn(refLine, " ");
    if |tokens| < 2 then Err(MalformedRefLine(refLine))
    else
      SecondTokenTag(refLine);
      Ok(CommitTag(tokens[0], Last(SplitOn(tokens[1], "/"))))
  }

  /** The tag taken from the second token of a line with a space. */
  lemma SecondTokenTag(refLine: string)
    requires |SplitOn(refLine, " ")| >= 2
    ensures var tok := SplitOn(refLine, " ")[1];
            var r := Last(SplitOn(tok, "/"));
            ' ' !in r && '/' !in r && EndsWith(tok, r) && (r == tok || tok[|tok| - |r| - 1] == '/')
  {
    SplitOnCharPieceFree(refLine, ' ', 1);
    TagSegment(SplitOn(refLine, " ")[1]);
  }

  /** The last `/`-segment of a token without spaces: no space and no `/` in
      it, and it is the whole token or what follows its last `/`. */
  lemma TagSegment(tok: string)
    requires ' ' !in tok
    ensures var r := Last(SplitOn(tok, "/"));
            ' ' !in r && '/' !in r && EndsWith(tok, r) && (r == tok || tok[|tok| - |r| - 1] == '/')
  {
    var parts := SplitOn(tok, "/");
    var r := Last(parts);
    assert '/' !in r by { SplitOnCharFree(tok, '/'); }
    SplitOnCharLast(tok, '/');
    assert r == tok[|tok| - |r|..];
  }

  /** Reading back the line `show-ref` prints: `<id> <dir>/.../<dir>/<tag>`. */
  lemma MakeOfRefLine(commitId: string, dirs: seq<string>, tag: string)
    requires ' ' !in commitId && ' ' !in tag && '/' !in tag
    requires forall k :: 0 <= k < |dirs| ==> ' ' !in dirs[k] && '/' !in dirs[k]
    ensures Make(commitId + " " + Join(dirs + [tag], "/")) == Ok(CommitTag(commitId, tag))
  {
    var path := PathOfParts(dirs, tag);
    TokensOfRefLine(commitId, path);
    MakeOfTokens(commitId + " " + path, commitId, path);
  }

  /** The joined ref path has no space and its last segment is the tag. */
  lemma PathOfParts(dirs: seq<string>, tag: string) returns (path: string)
    requires ' ' !in tag && '/' !in tag
    requires forall k :: 0 <= k < |dirs| ==> ' ' !in dirs[k] && '/' !in dirs[k]
    ensures path == Join(dirs + [tag], "/")
    ensures ' ' !in path && Last(SplitOn(path, "/")) == tag
  {
    var parts := dirs + [tag];
    PartsFree(dirs, tag);
    path := Join(parts, "/");
    JoinKeepsAbsent(parts, "/", ' ');
    LastOfJoined(parts, tag);
  }

  lemma LastOfJoined(parts: seq<string>, tag: string)
    requires |parts| >= 1 && Last(parts) == tag
    requires forall k :: 0 <= k < |parts| ==> '/' !in parts[k]
    ensures Last(SplitOn(Join(parts, "/"), "/")) == tag
  {
    SplitOnJoinChar(parts, '/');
  }

  lemma PartsFree(dirs: seq<string>, tag: string)
    requires ' ' !in tag && '/' !in tag
    requires forall k :: 0 <= k < |dirs| ==> ' ' !in dirs[k] && '/' !in dirs[k]
    ensures forall k :: 0 <= k < |dirs + [tag]| ==> ' ' !in (dirs + [tag])[k] && '/' !in (dirs + [tag])[k]
  {
  }

  lemma MakeOfTokens(line: string, commitId: string, path: string)
    requires SplitOn(line, " ") == [commitId, path]
    ensures Make(line) == Ok(CommitTag(commitId, Last(SplitOn(path, "/"))))
  {
  }

  lemma TokensOfRefLine(commitId: string, path: string)
    requires ' ' !in commitId && ' ' !in path
    ensures SplitOn(commitId + " " + path, " ") == [commitId, path]
  {
    assert commitId + " " + path == commitId + [' '] + path;
    SplitOnCharAfter(commitId, ' ', path);
    SplitOnCharAbsent(path, ' ');
  }

  /** The rich comparisons `<`, `<=`, `==` of CommitTag look only at the tag. */
  predicate TagLess(a: CommitTag, b: CommitTag) {
    LexLess(a.tag, b.tag)
  }

  predicate TagLe(a: CommitTag, b: CommitTag) {
    LexLe(a.tag, b.tag)
  }

  predicate TagEquiv(a: CommitTag, b: CommitTag) {
    a.tag == b.tag
  }

  /** `<` is a strict weak order whose incomparable pairs are exactly the
      instances `==` calls equal (same tag, whatever the ids). */
  lemma TagOrderIsStrictWeak(a: CommitTag, b: CommitTag, c: CommitTag)
    ensures !TagLess(a, a)
    ensures TagLess(a, b) && TagLess(b, c) ==> TagLess(a, c)
    ensures !TagLess(a, b) && !TagLess(b, a) <==> TagEquiv(a, b)
    ensures TagLe(a, b) <==> TagLess(a, b) || TagEquiv(a, b)
  {
    LexLessIrreflexive(a.tag);
    if TagLess(a, b) && TagLess(b, c) {
      LexLessTransitive(a.tag, b.tag, c.tag);
    }
    LexLessTotal(a.tag, b.tag);
    if TagEquiv(a, b) {
      assert !LexLess(a.tag, b.tag);
    }
  }
}
