/** The value logic of `GitRunner`: choosing the baseline tag for a commit
    (`query_local_repository_commits_to_existing_tag_from_id`) and deciding
    the version of a repository (`collect_repository_summary`). The outputs
    of the `git` commands these run are parameters: `onelineLog` is what
    `log --pretty=oneline <id>` prints and `mediumLog(n)` what
    `log -n <n> --pretty=medium <id>` prints. */
module GitRunner {
  import opened Outcomes
  import opened Text
  import opened Severity
  import SemVer
  import CommitTags
  import CommitLog

  type CommitTag = CommitTags.CommitTag
  type CommitMessage = CommitLog.CommitMessage

  // ---------------------------------------------------------------------
  // `sorted(commit_tags)`: CommitTag orders by its tag alone.

  predicate SortedByTag(s: seq<CommitTag>) {
    forall i, j :: 0 <= i < j < |s| ==> LexLe(s[i].tag, s[j].tag)
  }

  /** Placing `x` after every element whose tag is not greater. */
  function Insert(x: CommitTag, s: seq<CommitTag>): (r: seq<CommitTag>)
    ensures multiset(r) == multiset(s) + multiset{x}
    decreases |s|
  {
    if s == [] then [x]
    else if LexLess(x.tag, s[0].tag) then [x] + s
    else
      assert s == [s[0]] + s[1..];
      [s[0]] + Insert(x, s[1..])
  }

  lemma {:induction false} InsertSorted(x: CommitTag, s: seq<CommitTag>)
    requires SortedByTag(s)
    ensures SortedByTag(Insert(x, s))
    decreases |s|
  {
    if s == [] {
    } else if LexLess(x.tag, s[0].tag) {
      forall j | 0 <= j < |s|
        ensures LexLe(x.tag, s[j].tag)
      {
        if s[j].tag != s[0].tag {
          LexLessTransitive(x.tag, s[0].tag, s[j].tag);
        }
      }
      ConsSorted(x, s);
    } else {
      var rest := s[1..];
      InsertSorted(x, rest);
      LexLessTotal(x.tag, s[0].tag);
      assert forall j :: 0 <= j < |rest| ==> rest[j] == s[j + 1];
      BoundByMembers(s[0], x, rest, Insert(x, rest));
      ConsSorted(s[0], Insert(x, rest));
    }
  }

  /** An element no greater than any of a sorted list can go in front. */
  lemma ConsSorted(y: CommitTag, t: seq<CommitTag>)
    requires SortedByTag(t)
    requires forall k :: 0 <= k < |t| ==> LexLe(y.tag, t[k].tag)
    ensures SortedByTag([y] + t)
  {
    var r := [y] + t;
    forall i, j | 0 <= i < j < |r|
      ensures LexLe(r[i].tag, r[j].tag)
    {
      assert r[j] == t[j - 1];
      if i > 0 {
        assert r[i] == t[i - 1];
      }
    }
  }

  /** A lower bound of `x` and of every element of `rest` bounds every
      element of any arrangement of them. */
  lemma BoundByMembers(y: CommitTag, x: CommitTag, rest: seq<CommitTag>, t: seq<CommitTag>)
    requires multiset(t) == multiset(rest) + multiset{x}
    requires LexLe(y.tag, x.tag)
    requires forall j :: 0 <= j < |rest| ==> LexLe(y.tag, rest[j].tag)
    ensures forall k :: 0 <= k < |t| ==> LexLe(y.tag, t[k].tag)
  {
    forall k | 0 <= k < |t|
      ensures LexLe(y.tag, t[k].tag)
    {
      assert t[k] in multiset(t);
      if t[k] != x {
        assert t[k] in multiset(rest);
        var j :| 0 <= j < |rest| && rest[j] == t[k];
      }
    }
  }

  /** `sorted(commit_tags)`: a permutation of the input in tag order. */
  function SortByTag(s: seq<CommitTag>): (r: seq<CommitTag>)
    ensures multiset(r) == multiset(s)
    ensures SortedByTag(r)
    decreases |s|
  {
    if s == [] then []
    else
      var front := s[..|s| - 1];
      assert s == front + [Last(s)];
      var sorted := SortByTag(front);
      InsertSorted(Last(s), sorted);
      Insert(Last(s), sorted)
  }

  // ---------------------------------------------------------------------
  // `id_to_newest_tag`.

  /** The dictionary after storing each entry of `s` in turn, later entries
      replacing earlier ones with the same id. */
  function StoreAll(s: seq<CommitTag>): map<string, string>
    decreases |s|
  {
    if s == [] then map[] else StoreAll(s[..|s| - 1])[Last(s).commitId := Last(s).tag]
  }

  /** The two halves of the dictionary's meaning for one id, on any list:
      the id is a key exactly when some entry has it, and then its value is
      the tag of the last such entry. */
  lemma {:induction false} StoreAllAt(s: seq<CommitTag>, id: string)
    ensures id in StoreAll(s) <==> exists k :: 0 <= k < |s| && s[k].commitId == id
    ensures id in StoreAll(s) ==>
              exists k :: 0 <= k < |s| && s[k].commitId == id && s[k].tag == StoreAll(s)[id] &&
                          forall j :: k < j < |s| ==> s[j].commitId != id
    decreases |s|
  {
    if s != [] {
      var front := s[..|s| - 1];
      StoreAllAt(front, id);
      assert forall k :: 0 <= k < |front| ==> front[k] == s[k];
      if Last(s).commitId != id && id in StoreAll(s) {
        var k :| 0 <= k < |front| && front[k].commitId == id && front[k].tag == StoreAll(front)[id] &&
                  forall j :: k < j < |front| ==> front[j].commitId != id;
        assert s[k].commitId == id && s[k].tag == StoreAll(s)[id];
      }
    }
  }

  /** The id-to-newest-tag dictionary, as the source builds it. */
  function NewestTags(commitTags: seq<CommitTag>): map<string, string> {
    StoreAll(SortByTag(commitTags))
  }

  /** On the input list itself: an id is a key exactly when some entry
      carries it, and its value is the lexicographically greatest tag among
      the entries with that id. */
  lemma NewestTagsSpec(commitTags: seq<CommitTag>, id: string)
    ensures id in NewestTags(commitTags) <==> exists k :: 0 <= k < |commitTags| && commitTags[k].commitId == id
    ensures id in NewestTags(commitTags) ==>
              (exists k :: 0 <= k < |commitTags| && commitTags[k].commitId == id &&
                           commitTags[k].tag == NewestTags(commitTags)[id]) &&
              (forall k :: 0 <= k < |commitTags| && commitTags[k].commitId == id ==>
                           LexLe(commitTags[k].tag, NewestTags(commitTags)[id]))
  {
    var s := SortByTag(commitTags);
    StoreAllAt(s, id);
    SameIdsPresent(commitTags, s, id);
    if id in StoreAll(s) {
      var k :| 0 <= k < |s| && s[k].commitId == id && s[k].tag == StoreAll(s)[id] &&
                forall j :: k < j < |s| ==> s[j].commitId != id;
      LastOfIdIsGreatest(commitTags, s, id, k);
    }
  }

  /** Rearranging a list keeps the ids that occur in it. */
  lemma SameIdsPresent(a: seq<CommitTag>, b: seq<CommitTag>, id: string)
    requires multiset(a) == multiset(b)
    ensures (exists k :: 0 <= k < |a| && a[k].commitId == id) <==> (exists k :: 0 <= k < |b| && b[k].commitId == id)
  {
    if exists k :: 0 <= k < |a| && a[k].commitId == id {
      var k :| 0 <= k < |a| && a[k].commitId == id;
      assert a[k] in multiset(b);
    }
    if exists k :: 0 <= k < |b| && b[k].commitId == id {
      var k :| 0 <= k < |b| && b[k].commitId == id;
      assert b[k] in multiset(a);
    }
  }

  /** In a sorted arrangement, the last entry with an id carries the
      greatest tag any entry of the original list has for that id. */
  lemma LastOfIdIsGreatest(a: seq<CommitTag>, s: seq<CommitTag>, id: string, k: nat)
    requires multiset(a) == multiset(s) && SortedByTag(s)
    requires k < |s| && s[k].commitId == id && forall j :: k < j < |s| ==> s[j].commitId != id
    ensures exists i :: 0 <= i < |a| && a[i].commitId == id && a[i].tag == s[k].tag
    ensures forall i :: 0 <= i < |a| && a[i].commitId == id ==> LexLe(a[i].tag, s[k].tag)
  {
    assert s[k] in multiset(a);
    forall i | 0 <= i < |a| && a[i].commitId == id
      ensures LexLe(a[i].tag, s[k].tag)
    {
      assert a[i] in multiset(s);
      var j :| 0 <= j < |s| && s[j] == a[i];
      assert j <= k;
    }
  }

  /** The loop that fills `id_to_newest_tag` over the sorted entries. */
  method BuildNewestTags(commitTags: seq<CommitTag>) returns (idToNewestTag: map<string, string>)
    ensures idToNewestTag == NewestTags(commitTags)
  {
    var sorted := SortByTag(commitTags);
    idToNewestTag := map[];
    for i := 0 to |sorted|
      invariant idToNewestTag == StoreAll(sorted[..i])
    {
      assert sorted[..i + 1][..i] == sorted[..i];
      idToNewestTag := idToNewestTag[sorted[i].commitId := sorted[i].tag];
    }
    assert sorted[..|sorted|] == sorted;
  }

  // ---------------------------------------------------------------------
  // The walk down the oneline log.

  /** `line.split(' ', 1)[0]`: the commit id at the start of a oneline entry. */
  function LineId(line: string): (id: string)
    ensures ' ' !in id
    ensures ' ' in line ==> StartsWith(line, id + " ")
    ensures ' ' !in line ==> id == line
  {
    CommitTags.SplitOnCharFirst(line, ' ');
    if ' ' !in line then
      SplitOnCharAbsent(line, ' ');
      SplitOn(line, " ")[0]
    else SplitOn(line, " ")[0]
  }

  /** `id_to_newest_tag.get(id)`. */
  function Lookup(tags: map<string, string>, id: string): Option<string> {
    if id in tags then Some(tags[id]) else None
  }

  /** `if tag:` — found and not the empty string. */
  predicate Truthy(tag: Option<string>) {
    tag.Some? && tag.value != ""
  }

  predicate TaggedLine(lines: seq<string>, tags: map<string, string>, k: int)
    requires 0 <= k < |lines|
  {
    Truthy(Lookup(tags, LineId(lines[k])))
  }

  /** The first line at or after `k` whose id maps to a non-empty tag. */
  function FirstTaggedFrom(lines: seq<string>, tags: map<string, string>, k: nat): (r: Option<nat>)
    requires k <= |lines|
    ensures r.Some? ==> k <= r.value < |lines| && TaggedLine(lines, tags, r.value) &&
                        forall j :: k <= j < r.value ==> !TaggedLine(lines, tags, j)
    ensures r.None? ==> forall j :: k <= j < |lines| ==> !TaggedLine(lines, tags, j)
    decreases |lines| - k
  {
    if k == |lines| then None
    else if TaggedLine(lines, tags, k) then Some(k)
    else FirstTaggedFrom(lines, tags, k + 1)
  }

  /** Where the walk stops: `count` is the number of lines before the first
      tagged one, and `tag` the last lookup made (the value from before the
      walk when there are no lines). */
  function Walk(lines: seq<string>, tags: map<string, string>, before: Option<string>): (r: (nat, Option<string>))
    ensures r.0 <= |lines|
    ensures forall j :: 0 <= j < r.0 ==> !TaggedLine(lines, tags, j)
    ensures r.0 < |lines| ==> TaggedLine(lines, tags, r.0) && r.1 == Lookup(tags, LineId(lines[r.0]))
    ensures r.0 == |lines| && lines != [] ==> r.1 == Lookup(tags, LineId(lines[|lines| - 1]))
  {
    match FirstTaggedFrom(lines, tags, 0)
    case Some(k) => (k, Lookup(tags, LineId(lines[k])))
    case None => (|lines|, if lines == [] then before else Lookup(tags, LineId(Last(lines))))
  }

  /** The source's `for line in lines` loop with its `break`. */
  method WalkToBaseline(lines: seq<string>, tags: map<string, string>, before: Option<string>)
    returns (count: nat, tag: Option<string>)
    ensures (count, tag) == Walk(lines, tags, before)
  {
    count := 0;
    tag := before;
    while count < |lines|
      invariant count <= |lines|
      invariant FirstTaggedFrom(lines, tags, count) == FirstTaggedFrom(lines, tags, 0)
      invariant count == 0 ==> tag == before
      invariant count > 0 ==> tag == Lookup(tags, LineId(lines[count - 1]))
      decreases |lines| - count
    {
      tag := Lookup(tags, LineId(lines[count]));
      FirstTaggedStep(lines, tags, count);
      if Truthy(tag) {
        WalkStopsAt(lines, tags, before, count);
        return;
      }
      count := count + 1;
    }
    WalkRunsOut(lines, tags, before);
  }

  lemma FirstTaggedStep(lines: seq<string>, tags: map<string, string>, k: nat)
    requires k < |lines|
    ensures TaggedLine(lines, tags, k) ==> FirstTaggedFrom(lines, tags, k) == Some(k)
    ensures !TaggedLine(lines, tags, k) ==> FirstTaggedFrom(lines, tags, k) == FirstTaggedFrom(lines, tags, k + 1)
  {
  }

  lemma WalkRunsOut(lines: seq<string>, tags: map<string, string>, before: Option<string>)
    requires FirstTaggedFrom(lines, tags, 0) == FirstTaggedFrom(lines, tags, |lines|)
    ensures Walk(lines, tags, before) == (|lines|, if lines == [] then before else Lookup(tags, LineId(Last(lines))))
  {
  }

  /** `query_local_repository_commits_to_existing_tag_from_id`: the baseline
      tag and the messages since it, or `NoBaselineTag`. */
  function QueryCommitsToExistingTag(commitId: string, commitTags: seq<CommitTag>,
                                     onelineLog: string, mediumLog: nat -> string): (r: Result<(string, seq<CommitMessage>)>)
    ensures r.Ok? ==> exists i :: 0 <= i < |commitTags| && commitTags[i].tag == r.value.0
    ensures r.Err? ==> forall i :: 0 <= i < |commitTags| ==> commitTags[i].commitId != commitId
    ensures (exists i :: 0 <= i < |commitTags| && commitTags[i].commitId == commitId) ==> r.Ok? && r.value.1 == []
  {
    QueryFromNewest(commitId, commitTags, onelineLog, mediumLog);
    QueryWithTags(commitId, NewestTags(commitTags), onelineLog, mediumLog)
  }

  /** The query's tag is a stored one; it fails only for an untagged id, and
      a tagged id answers at once. */
  lemma QueryTagIsStored(commitId: string, tags: map<string, string>, onelineLog: string, mediumLog: nat -> string)
    ensures var r := QueryWithTags(commitId, tags, onelineLog, mediumLog);
            (r.Ok? ==> exists id :: id in tags && tags[id] == r.value.0) &&
            (r.Err? ==> commitId !in tags) &&
            (commitId in tags ==> r == Ok((tags[commitId], [])))
  {
    if commitId !in tags {
      var lines := SplitOn(onelineLog, "\n");
      var w := Walk(lines, tags, None);
      if w.1.Some? {
        var k := if w.0 < |lines| then w.0 else |lines| - 1;
        assert w.1 == Lookup(tags, LineId(lines[k]));
        LogSinceStored(commitId, w, tags, LineId(lines[k]), mediumLog);
      } else {
        assert LogSince(commitId, w, mediumLog).Err?;
      }
    }
  }

  /** A found tag looked up for a stored id is what the query reports. */
  lemma LogSinceStored(commitId: string, w: (nat, Option<string>), tags: map<string, string>, id: string,
                       mediumLog: nat -> string)
    requires w.1 == Lookup(tags, id) && w.1.Some?
    ensures var r := LogSince(commitId, w, mediumLog);
            r.Ok? ==> id in tags && tags[id] == r.value.0
  {
  }

  lemma QueryFromNewest(commitId: string, commitTags: seq<CommitTag>, onelineLog: string, mediumLog: nat -> string)
    ensures var r := QueryWithTags(commitId, NewestTags(commitTags), onelineLog, mediumLog);
            (r.Ok? ==> exists i :: 0 <= i < |commitTags| && commitTags[i].tag == r.value.0) &&
            (r.Err? ==> forall i :: 0 <= i < |commitTags| ==> commitTags[i].commitId != commitId) &&
            ((exists i :: 0 <= i < |commitTags| && commitTags[i].commitId == commitId) ==> r.Ok? && r.value.1 == [])
  {
    var tags := NewestTags(commitTags);
    var r := QueryWithTags(commitId, tags, onelineLog, mediumLog);
    QueryTagIsStored(commitId, tags, onelineLog, mediumLog);
    NewestTagsSpec(commitTags, commitId);
    if r.Ok? {
      var id :| id in tags && tags[id] == r.value.0;
      NewestTagsSpec(commitTags, id);
    }
  }

  /** The same once `id_to_newest_tag` is built. */
  function QueryWithTags(commitId: string, tags: map<string, string>,
                         onelineLog: string, mediumLog: nat -> string): Result<(string, seq<CommitMessage>)>
  {
    if commitId in tags then Ok((tags[commitId], []))
    else
      LogSince(commitId, Walk(SplitOn(onelineLog, "\n"), tags, None), mediumLog)
  }

  /** After the walk: no tag found is an error, otherwise the tag and the
      messages of the `count` commits before the tagged one. */
  function LogSince(commitId: string, w: (nat, Option<string>), mediumLog: nat -> string): Result<(string, seq<CommitMessage>)> {
    if w.1.None? then Err(NoBaselineTag(commitId))
    else
      match CommitLog.ParseLog(mediumLog(w.0))
      case Ok(messages) => Ok((w.1.value, messages))
      case Err(e) => Err(e)
  }

  method QueryLocalRepositoryCommitsToExistingTagFromId(commitId: string, commitTags: seq<CommitTag>,
                                                        onelineLog: string, mediumLog: nat -> string)
    returns (r: Result<(string, seq<CommitMessage>)>)
    ensures r == QueryCommitsToExistingTag(commitId, commitTags, onelineLog, mediumLog)
  {
    var idToNewestTag := BuildNewestTags(commitTags);
    var tag := Lookup(idToNewestTag, commitId);
    if tag.Some? {
      return Ok((tag.value, []));
    }
    var lines := SplitOn(onelineLog, "\n");
    var count;
    count, tag := WalkToBaseline(lines, idToNewestTag, tag);
    if tag.None? {
      return Err(NoBaselineTag(commitId));
    }
    var messages := CommitLog.MakeListFromResult(mediumLog(count));
    if messages.Err? {
      return Err(messages.error);
    }
    return Ok((tag.value, messages.value));
  }

  /** A tagged HEAD is its own baseline: its newest tag, no messages, and
      neither log is read. */
  lemma TaggedHead(commitId: string, commitTags: seq<CommitTag>, onelineLog: string, mediumLog: nat -> string, k: nat)
    requires k < |commitTags| && commitTags[k].commitId == commitId
    ensures var r := QueryCommitsToExistingTag(commitId, commitTags, onelineLog, mediumLog);
            r.Ok? && r.value.1 == [] &&
            (exists i :: 0 <= i < |commitTags| && commitTags[i].commitId == commitId && commitTags[i].tag == r.value.0) &&
            (forall i :: 0 <= i < |commitTags| && commitTags[i].commitId == commitId ==> LexLe(commitTags[i].tag, r.value.0))
  {
    NewestTagsSpec(commitTags, commitId);
  }

  /** An untagged HEAD: the baseline is the first line of the oneline log
      whose id has a non-empty tag; the messages are the `count` entries
      before it. */
  lemma BaselineIsFirstTagged(commitId: string, commitTags: seq<CommitTag>, onelineLog: string,
                              mediumLog: nat -> string, k: nat)
    requires forall i :: 0 <= i < |commitTags| ==> commitTags[i].commitId != commitId
    requires var lines := SplitOn(onelineLog, "\n");
             k < |lines| && TaggedLine(lines, NewestTags(commitTags), k) &&
             forall j :: 0 <= j < k ==> !TaggedLine(lines, NewestTags(commitTags), j)
    ensures var lines := SplitOn(onelineLog, "\n");
            var tag := NewestTags(commitTags)[LineId(lines[k])];
            QueryCommitsToExistingTag(commitId, commitTags, onelineLog, mediumLog) ==
              match CommitLog.ParseLog(mediumLog(k))
              case Ok(messages) => Ok((tag, messages))
              case Err(e) => Err(e)
  {
    NewestTagsSpec(commitTags, commitId);
    BaselineWithTags(commitId, NewestTags(commitTags), onelineLog, mediumLog, k);
  }

  lemma BaselineWithTags(commitId: string, tags: map<string, string>, onelineLog: string,
                         mediumLog: nat -> string, k: nat)
    requires commitId !in tags
    requires var lines := SplitOn(onelineLog, "\n");
             k < |lines| && TaggedLine(lines, tags, k) && forall j :: 0 <= j < k ==> !TaggedLine(lines, tags, j)
    ensures var lines := SplitOn(onelineLog, "\n");
            QueryWithTags(commitId, tags, onelineLog, mediumLog) ==
              LogSince(commitId, (k, Some(tags[LineId(lines[k])])), mediumLog)
  {
    WalkStopsAt(SplitOn(onelineLog, "\n"), tags, None, k);
  }

  /** The walk stops at the first tagged line, with that line's tag. */
  lemma WalkStopsAt(lines: seq<string>, tags: map<string, string>, before: Option<string>, k: nat)
    requires k < |lines| && TaggedLine(lines, tags, k) && forall j :: 0 <= j < k ==> !TaggedLine(lines, tags, j)
    ensures Walk(lines, tags, before) == (k, Lookup(tags, LineId(lines[k])))
  {
    var w := Walk(lines, tags, before);
    assert w.0 == k;
  }

  /** A walk over lines none of which has an entry ends past the last line
      with nothing found. */
  lemma WalkUnmapped(lines: seq<string>, tags: map<string, string>, before: Option<string>)
    requires lines != []
    requires forall j :: 0 <= j < |lines| ==> LineId(lines[j]) !in tags
    ensures Walk(lines, tags, before) == (|lines|, None)
  {
    assert !TaggedLine(lines, tags, 0);
  }

  /** No line of the log names a tagged commit: `ValueError`. */
  lemma NoBaseline(commitId: string, commitTags: seq<CommitTag>, onelineLog: string, mediumLog: nat -> string)
    requires forall i :: 0 <= i < |commitTags| ==> commitTags[i].commitId != commitId
    requires forall i, j :: 0 <= i < |commitTags| && 0 <= j < |SplitOn(onelineLog, "\n")| ==>
               commitTags[i].commitId != LineId(SplitOn(onelineLog, "\n")[j])
    ensures QueryCommitsToExistingTag(commitId, commitTags, onelineLog, mediumLog) == Err(NoBaselineTag(commitId))
  {
    var tags := NewestTags(commitTags);
    NewestTagsSpec(commitTags, commitId);
    var lines := SplitOn(onelineLog, "\n");
    forall j | 0 <= j < |lines|
      ensures LineId(lines[j]) !in tags
    {
      NewestTagsSpec(commitTags, LineId(lines[j]));
    }
    WalkUnmapped(lines, tags, None);
  }

  // ---------------------------------------------------------------------
  // `collect_repository_summary`.

  datatype RepositorySummary = RepositorySummary(commitId: string, tag: string, version: string,
                                                 commitMessages: seq<CommitMessage>)

  /** The version decision: with no new messages the baseline tag and its
      version; otherwise the baseline bumped at the most significant
      component the messages ask for. A malformed baseline tag fails. */
  function Summarize(currentId: string, tag: string, msgs: seq<CommitMessage>): (r: Result<RepositorySummary>)
    ensures r.Ok? <==> SemVer.Make(tag).Ok?
    ensures r.Err? ==> r.error == MalformedTag(tag)
    ensures r.Ok? ==> r.value.commitId == currentId && r.value.commitMessages == msgs &&
                      SemVer.Make(r.value.tag).Ok? &&
                      r.value.version == SemVer.ToVersion(SemVer.Make(r.value.tag).value) &&
                      SemVer.Make(r.value.tag).value.seriesName == SemVer.Make(tag).value.seriesName
    ensures r.Ok? && msgs == [] ==> r.value.tag == tag
    ensures r.Ok? && msgs != [] ==> SemVer.NumericLess(SemVer.Make(tag).value, SemVer.Make(r.value.tag).value)
  {
    match SemVer.Make(tag)
    case Err(e) => Err(e)
    case Ok(current) =>
      if msgs == [] then Ok(RepositorySummary(currentId, tag, SemVer.ToVersion(current), msgs))
      else
        DefaultListInRange(msgs);
        var i := ListImplication(msgs, None, None, None, SemVer.MINOR_INDEX);
        SemVer.NextIncreases(current, i.value);
        MadeSeriesValid(tag);
        SemVer.MakeToTag(SemVer.Next(current, i).value);
        match SemVer.Next(current, i)
        case Err(e) => Err(e)
        case Ok(next) => Ok(RepositorySummary(currentId, SemVer.ToTag(next), SemVer.ToVersion(next), msgs))
  }

  /** `collect_repository_summary` on the outputs of its git commands;
      `allTags` is what `query_tag_commits` returned. */
  function CollectRepositorySummary(currentId: string, allTags: seq<CommitTag>,
                                    onelineLog: string, mediumLog: nat -> string): (r: Result<RepositorySummary>)
    ensures var q := QueryCommitsToExistingTag(currentId, allTags, onelineLog, mediumLog);
            (q.Err? ==> r == Err(q.error)) &&
            (q.Ok? ==> (r.Ok? <==> SemVer.Make(q.value.0).Ok?) && (r.Err? ==> r.error == MalformedTag(q.value.0)))
    ensures var q := QueryCommitsToExistingTag(currentId, allTags, onelineLog, mediumLog);
            r.Ok? ==> q.Ok? && (exists i :: 0 <= i < |allTags| && allTags[i].tag == q.value.0) &&
                      r.value.commitId == currentId && r.value.commitMessages == q.value.1 &&
                      SemVer.Make(r.value.tag).Ok? &&
                      r.value.version == SemVer.ToVersion(SemVer.Make(r.value.tag).value) &&
                      (q.value.1 == [] ==> r.value.tag == q.value.0) &&
                      (q.value.1 != [] ==> SemVer.NumericLess(SemVer.Make(q.value.0).value, SemVer.Make(r.value.tag).value))
  {
    var baseline :- QueryCommitsToExistingTag(currentId, allTags, onelineLog, mediumLog);
    Summarize(currentId, baseline.0, baseline.1)
  }

  /** End to end, a tagged HEAD: the summary is HEAD's greatest tag with no
      messages, or the tag's parse error. */
  lemma CollectAtTaggedHead(currentId: string, allTags: seq<CommitTag>, onelineLog: string,
                            mediumLog: nat -> string, k: nat)
    requires k < |allTags| && allTags[k].commitId == currentId
    ensures currentId in NewestTags(allTags)
    ensures var r := CollectRepositorySummary(currentId, allTags, onelineLog, mediumLog);
            var t := NewestTags(allTags)[currentId];
            (forall i :: 0 <= i < |allTags| && allTags[i].commitId == currentId ==> LexLe(allTags[i].tag, t)) &&
            (exists i :: 0 <= i < |allTags| && allTags[i].commitId == currentId && allTags[i].tag == t) &&
            r == (match SemVer.Make(t)
                  case Ok(v) => Ok(RepositorySummary(currentId, t, SemVer.ToVersion(v), []))
                  case Err(e) => Err(e))
  {
    NewestTagsSpec(allTags, currentId);
  }

  /** End to end, an untagged HEAD whose messages since the baseline parse
      and are not empty: the summary carries those messages and proposes a
      strictly greater version of the baseline's series. */
  lemma CollectSinceBaseline(currentId: string, allTags: seq<CommitTag>, onelineLog: string,
                             mediumLog: nat -> string, k: nat, msgs: seq<CommitMessage>)
    requires forall i :: 0 <= i < |allTags| ==> allTags[i].commitId != currentId
    requires var lines := SplitOn(onelineLog, "\n");
             k < |lines| && TaggedLine(lines, NewestTags(allTags), k) &&
             forall j :: 0 <= j < k ==> !TaggedLine(lines, NewestTags(allTags), j)
    requires CommitLog.ParseLog(mediumLog(k)) == Ok(msgs) && msgs != []
    ensures var lines := SplitOn(onelineLog, "\n");
            var baseline := NewestTags(allTags)[LineId(lines[k])];
            var r := CollectRepositorySummary(currentId, allTags, onelineLog, mediumLog);
            (r.Ok? <==> SemVer.Make(baseline).Ok?) &&
            (r.Ok? ==> r.value.commitId == currentId && r.value.commitMessages == msgs &&
                       SemVer.Make(r.value.tag).Ok? &&
                       SemVer.Make(r.value.tag).value.seriesName == SemVer.Make(baseline).value.seriesName &&
                       SemVer.NumericLess(SemVer.Make(baseline).value, SemVer.Make(r.value.tag).value))
  {
    var lines := SplitOn(onelineLog, "\n");
    var baseline := NewestTags(allTags)[LineId(lines[k])];
    BaselineIsFirstTagged(currentId, allTags, onelineLog, mediumLog, k);
    assert QueryCommitsToExistingTag(currentId, allTags, onelineLog, mediumLog) == Ok((baseline, msgs));
    assert CollectRepositorySummary(currentId, allTags, onelineLog, mediumLog) == Summarize(currentId, baseline, msgs);
  }

  /** Every series `make` reads is one `to_tag` can write back. */
  lemma MadeSeriesValid(tag: string)
    requires SemVer.Make(tag).Ok?
    ensures SemVer.ValidSeries(SemVer.Make(tag).value.seriesName)
  {
    var p :| SemVer.SeparatorAt(tag, p) && (forall q :: p < q < |tag| ==> !SemVer.SeparatorAt(tag, q)) &&
             SemVer.Make(tag).value == SemVer.VersionAt(tag, p);
  }

  /** Nothing new since the baseline: the summary repeats the baseline tag
      and its version. */
  lemma SummaryUpToDate(currentId: string, tag: string)
    requires SemVer.Make(tag).Ok?
    ensures Summarize(currentId, tag, []) ==
            Ok(RepositorySummary(currentId, tag, SemVer.ToVersion(SemVer.Make(tag).value), []))
  {
  }

  /** New messages: the summary proposes a strictly greater version of the
      same series, bumped at the list's implication, and its tag reads back
      as that version. The bump never fails with the default rules. */
  lemma SummaryProposesNext(currentId: string, tag: string, msgs: seq<CommitMessage>)
    requires SemVer.Make(tag).Ok? && msgs != []
    ensures var current := SemVer.Make(tag).value;
            var i := MinImplication(msgs, None, None, None, SemVer.MINOR_INDEX);
            var r := Summarize(currentId, tag, msgs);
            SemVer.MAJOR_INDEX <= i <= SemVer.PATCH_INDEX &&
            r.Ok? && SemVer.Next(current, Some(i)).Ok? &&
            var next := SemVer.Next(current, Some(i)).value;
            r.value == RepositorySummary(currentId, SemVer.ToTag(next), SemVer.ToVersion(next), msgs) &&
            next.seriesName == current.seriesName && SemVer.NumericLess(current, next) &&
            SemVer.Make(r.value.tag) == Ok(next)
  {
    var current := SemVer.Make(tag).value;
    DefaultListInRange(msgs);
    var i := MinImplication(msgs, None, None, None, SemVer.MINOR_INDEX);
    SemVer.NextIncreases(current, i);
    var next := SemVer.Next(current, Some(i)).value;
    MadeSeriesValid(tag);
    SemVer.MakeToTag(next);
  }

  /** One breaking change since the baseline proposes the next major version. */
  lemma BreakingChangeBumpsMajor(currentId: string, tag: string, msgs: seq<CommitMessage>, k: nat)
    requires SemVer.Make(tag).Ok?
    requires k < |msgs| && Contains(Strip(msgs[k].message), "BREAKING CHANGE")
    ensures var v := SemVer.Make(tag).value;
            Summarize(currentId, tag, msgs) ==
              Ok(RepositorySummary(currentId, SemVer.ToTag(v.(major := v.major + 1, minor := 0, patch := 0)),
                                   SemVer.ToVersion(v.(major := v.major + 1, minor := 0, patch := 0)), msgs))
  {
    var v := SemVer.Make(tag).value;
    var bumped := v.(major := v.major + 1, minor := 0, patch := 0);
    assert ListImplication(msgs, None, None, None, SemVer.MINOR_INDEX) == Some(SemVer.MAJOR_INDEX) by {
      BreakingChangeAnywhere(msgs, k);
    }
    SemVer.NextMajor(v);
    SummarizeBumps(currentId, tag, msgs, SemVer.MAJOR_INDEX, bumped);
  }

  /** The summary of a non-empty list carries the baseline bumped at the
      index the list asks for. */
  lemma SummarizeBumps(currentId: string, tag: string, msgs: seq<CommitMessage>, i: int,
                        next: SemVer.SemanticVersion)
    requires SemVer.Make(tag).Ok? && msgs != []
    requires ListImplication(msgs, None, None, None, SemVer.MINOR_INDEX) == Some(i)
    requires SemVer.Next(SemVer.Make(tag).value, Some(i)) == Ok(next)
    ensures Summarize(currentId, tag, msgs) == Ok(RepositorySummary(currentId, SemVer.ToTag(next), SemVer.ToVersion(next), msgs))
  {
  }

  /** A baseline tag `make` cannot read fails the summary with its error. */
  lemma SummaryMalformedTag(currentId: string, tag: string, msgs: seq<CommitMessage>)
    requires forall p :: !SemVer.SeparatorAt(tag, p)
    ensures Summarize(currentId, tag, msgs) == Err(MalformedTag(tag))
  {
  }
}
