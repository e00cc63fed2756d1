# A verified model of the buildtool's git logic

The Spinnaker buildtool decides the next release version of a repository.
It reads the output of `git`:

- the tags (`show-ref --tags`);
- the ancestry (`log --pretty=oneline`);
- the commit log since the baseline tag (`log --pretty=medium`).

From these it derives:

- the newest tag on each commit;
- the baseline tag, i.e. the first tagged ancestor;
- the commit messages since the baseline;
- how severe those messages are, by conventional-commit rules;
- the proposed tag and version.

This project models that logic from `dev/buildtool/git.py` in Dafny and proves its properties.

Modules, following the classes of the source:

- `Outcomes`: the `Result`/`Option` wrappers standing in for the exceptions the source raises, and the list combinators the loops are specified by.
- `Text`: Python's string operations as functions on `seq<char>`: `split`, `join`, `strip`, `lstrip`, `rstrip`, `find`, digit runs and `int()`, lexicographic `<`.
- `SemVer`: `SemanticVersion`, meaning `make`, `to_version`, `to_tag`, `most_significant_diff_index` and `next`.
- `CommitTags`: `CommitTag.make` and the tag-only rich comparisons.
- `CommitLog`: `CommitMessage.make` and `make_list_from_result`. The `_MEDIUM_PRETTY_COMMIT_MATCHER` pattern is written out as a hand-made parser.
- `CommitNormalizer`:
  - `normalize_message_list`, `_unpack_embedded_commits` and `_unpack_embedded_summaries`.
  - The `_EMBEDDED_COMMIT_MATCHER` and `_EMBEDDED_SUMMARY_MATCHER` patterns are written as line predicates.
  - The lazy `.+?` of the summary pattern is a search whose outcome is proved equal to an existential.
- `Severity`:
  - `determine_semver_implication` and `determine_semver_implication_on_list`.
  - A compiled pattern is a `Matcher`: whether `search` finds it, and whether it has capture groups.
  - The three default pattern lists are predicates proved to say what they mean in plain terms.
- `GitRunner`:
  - the tag map and ancestor walk of `query_local_repository_commits_to_existing_tag_from_id`;
  - the version decision of `collect_repository_summary`.
- `Remote`: `RemoteGitRepository.make_from_url`, `upstream_url`, `is_same_repo` and the URL splitting of `__normalize_repo_url`.

Where the source works by changing variables in a loop, the model has a `method` with that loop and its invariants. Those loops are:

- the blank-line deletion in `make`;
- `make_list_from_result`;
- the two unpacking loops;
- the running minimum;
- the dictionary fill;
- the ancestor walk.

Each such method's `ensures` ties its result to a specification function. The properties are proved as lemmas about those functions. Git's output reaches the model as parameters:

- `onelineLog`: the text of the oneline log.
- `mediumLog(count)`: the text `log -n count --pretty=medium` produces.
- `allTags`: the result of `query_tag_commits`.

Indices are the source's integer constants: `TAG_INDEX` 0, `MAJOR_INDEX` 1, `MINOR_INDEX` 2, `PATCH_INDEX` 3. `\s` is the ASCII whitespace set, and `\d` the ASCII digits.

## Model

| member | source | states |
|---|---|---|
| SemVer.Make | dev/buildtool/git.py:90-109 | `make` succeeds exactly when some `-` is preceded by a non-empty newline-free series and followed by three dot-separated digit runs. It then gives the version read at the last such `-`, since the first group is greedy. Otherwise it fails with `MalformedTag(tag)`. |
| SemVer.MakeToTag | dev/buildtool/git.py:97-133 | Round trip: `make(v.to_tag()) == v` for every version whose series is non-empty and newline-free. |
| SemVer.MostSignificantDiffIndex | dev/buildtool/git.py:111-122 | `None` exactly when both versions are equal. `TAG_INDEX` exactly when the series differ. Otherwise it gives the first numeric component, in the order major, minor, patch, that differs, with all more significant ones equal. |
| SemVer.Next | dev/buildtool/git.py:135-160 | Succeeds exactly for MAJOR, MINOR or PATCH. The bumped component grows by one, the more significant ones and the series are kept, and the less significant ones become 0. `None` or any other index fails with `InvalidBumpIndex`. |
| SemVer.NextDiffersAt | dev/buildtool/git.py:111-160 | The successor at index `i` differs from its origin first at `i`. |
| SemVer.NextIncreases | dev/buildtool/git.py:135-160 | Every successor is strictly greater in (major, minor, patch) order. |
| SemVer.NextExamples | dev/buildtool/git.py:135-160 | Bumping 1.2.3 at PATCH, MINOR and MAJOR gives 1.2.4, 1.3.0 and 2.0.0. Bumping at TAG or at `None` fails. |
| SemVer.NoDashInVersion | dev/buildtool/git.py:124-127 | `to_version` never writes a `-`, so the separator `to_tag` writes is the last one. |
| CommitTags.Make | dev/buildtool/git.py:168-180 | Succeeds exactly when the line has a space. The id is the text before the first space. The tag is the last `/` segment of the second token: a suffix of that token that is either all of it or starts right after a `/`, and holds neither space nor `/`. A line without a space has no second token, and the model fails with `MalformedRefLine`. |
| CommitTags.MakeOfRefLine | dev/buildtool/git.py:174-178 | A `show-ref` line `<id> <dir>/.../<dir>/<tag>` reads back as exactly that id and tag. |
| CommitTags.TagOrderIsStrictWeak | dev/buildtool/git.py:183-193 | Comparison looks at the tag alone. `<` is irreflexive and transitive. Two tags are incomparable under `<` exactly when `==` holds, whatever the ids. `<=` is `<` or `==`. |
| CommitLog.ParseHeader | dev/buildtool/git.py:200-201 | A matched header has a non-empty one-line id, a non-empty one-line author and a one-line date. The body starts at the newline that ends the date line. |
| CommitLog.Parse | dev/buildtool/git.py:259-277 | `make` succeeds exactly when the header pattern matches. Otherwise it fails with `MalformedLogEntry(entry)`. |
| CommitLog.Make | dev/buildtool/git.py:259-277 | The method with the two `while` loops that delete blank lines computes `Parse`. |
| CommitLog.DropLeadingBlank | dev/buildtool/git.py:269-270 | Deletes exactly the blank lines at the front. What is left is a suffix that is empty or starts with a non-blank line. |
| CommitLog.DropTrailingBlank | dev/buildtool/git.py:271-272 | Deletes exactly the blank lines at the end. What is left is a prefix that is empty or ends with a non-blank line. |
| CommitLog.TrimIsSlice | dev/buildtool/git.py:266-275 | The kept lines are one contiguous run of the input, unchanged and in order. Everything removed before and after the run is blank. |
| CommitLog.Tidy | dev/buildtool/git.py:265-275 | No line of a made message ends in whitespace. A non-empty message neither starts nor ends with a blank line. Its lines are exactly the right-stripped, trimmed lines of the body, and it is empty when nothing is left. |
| CommitLog.TidyIdempotent | dev/buildtool/git.py:265-275 | Normalising a normalised message changes nothing. |
| CommitLog.ParseHeaderOf | dev/buildtool/git.py:200-201 | The pattern accepts any run of spaces after `Author:` and `Date:`. The groups are the id line, the author and the date. |
| CommitLog.ParseOfFormat | dev/buildtool/git.py:200-277 | Round trip: reading back an entry in the format `git log --pretty=medium` writes gives the record again. This holds for every record with one-line fields, a non-empty id and author, and a tidy message. |
| CommitLog.ParseWithoutAuthor | dev/buildtool/git.py:261-263 | An entry whose second line does not start with `Author:` fails. |
| CommitLog.MakeListFromResult | dev/buildtool/git.py:246-256 | The append loop computes `ParseLog`: each entry parsed in turn, and the first failure is the error. |
| CommitLog.ParseLog | dev/buildtool/git.py:246-256 | The entries are the pieces of `('\n' + text.strip()).split('\ncommit ')` after the first. Reading succeeds exactly when every entry matches the header pattern. It then gives one record per entry, in order, each the entry's `make` with a tidy message. Otherwise it fails with `MalformedLogEntry` of the first entry that does not match. |
| CommitLog.ParseLogOfFormat | dev/buildtool/git.py:246-277 | Log round trip: the `--pretty=medium` log written for records reads back as exactly those records. This holds when every record has one-line fields, a non-empty id and author, a tidy message with no line starting `commit `, and the last message is not empty. |
| CommitLog.LogEntriesPartition | dev/buildtool/git.py:252 | Joining the entries back after the leading piece, with the boundary, restores `'\n' + text.strip()`. No entry contains a boundary. |
| CommitNormalizer.FindHeaderFrom | dev/buildtool/git.py:203-207 | Finds the first line at which the embedded-header pattern matches. `None` means it matches at no line. |
| CommitNormalizer.Dedent | dev/buildtool/git.py:311-322 | Fails exactly when some non-empty line lacks `offset` leading spaces. Otherwise it gives one line per input line: an empty line stays empty, and every other line is the input line with those spaces removed. |
| CommitNormalizer.DedentLoop | dev/buildtool/git.py:308-323 | The `for`/`break` loop reports misindentation exactly when `Dedent` fails. It then returns no lines. Otherwise it returns the dedented lines. |
| CommitNormalizer.DedentOfIndent | dev/buildtool/git.py:310-315 | Dedenting lines indented by `offset` spaces gives them back. |
| CommitNormalizer.UnpackOne | dev/buildtool/git.py:300-329 | A record is replaced, or the unpacking fails, only when the embedded-header pattern matches at some line, and then at the first such line. A failure is a `MalformedLogEntry`. Records that replace it have tidy messages. |
| CommitNormalizer.UnpackCommitMessage | dev/buildtool/git.py:300-329 | The loop body for one record computes `UnpackOne`. |
| CommitNormalizer.UnpackEmbeddedCommits | dev/buildtool/git.py:292-330 | The loop over the records computes the records' unpackings concatenated in order, stopping at the first failure. |
| CommitNormalizer.UnpackWithoutHeader | dev/buildtool/git.py:302-305 | A record with no embedded header is kept unchanged. |
| CommitNormalizer.UnpackMisindented | dev/buildtool/git.py:311-322 | A record with a non-empty line after the header that lacks the header's indentation is kept unchanged. |
| CommitNormalizer.UnpackReplaces | dev/buildtool/git.py:307-329 | Otherwise the record is replaced by the re-parse of its dedented lines from the header on. The text before the header is dropped. |
| CommitNormalizer.UnpackExpands | dev/buildtool/git.py:300-329 | A merge whose message is preamble lines, then a log of loggable records indented by any number of spaces, unpacks to exactly those records. The preamble may hold no commit line. The first record's id is lower-case hex and its date is not empty, and the last message is not empty. |
| CommitNormalizer.UnpackTwoNested | dev/buildtool/git.py:300-329 | A merge `Merge` whose message nests the log of commits `abc` and `def`, indented by four spaces, unpacks to exactly those two commits. |
| CommitNormalizer.ScanScopeSpec | dev/buildtool/git.py:209-211 | The lazy search for `.+?\): .+` succeeds exactly when some position closes the scope: no newline inside, `): ` after it, then a non-newline character. |
| CommitNormalizer.ScanScopeDecides | dev/buildtool/git.py:209-211 | The summary line predicate's search decides the pattern's scope-and-text part. |
| CommitNormalizer.ClosedSummaries | dev/buildtool/git.py:352-360 | The `prev`-tracking loop emits one record for each summary line after the first. Each record holds the right-stripped text from the previous summary line up to that line. On exit `prev` is the last summary line, or -1. |
| CommitNormalizer.SplitSummaries | dev/buildtool/git.py:347-364 | The loop plus the final append compute `SummariesOf` for one record. |
| CommitNormalizer.UnpackEmbeddedSummaries | dev/buildtool/git.py:333-366 | The outer loop concatenates the records' splits in order. |
| CommitNormalizer.SummariesOf | dev/buildtool/git.py:345-366 | A record yields max(1, number of summary lines) records. All of them keep its commit id, author and date. |
| CommitNormalizer.SummaryTextsPartition | dev/buildtool/git.py:351-364 | The i-th text is the right-stripped block from the i-th summary line up to the next summary line or to the end. |
| CommitNormalizer.SummaryBlocksHaveOneSummary | dev/buildtool/git.py:353-360 | No line strictly inside a block is a summary line. |
| CommitNormalizer.SummariesWithoutSummaryLine | dev/buildtool/git.py:361-364 | With no summary line, the output is the one record with its message right-stripped. |
| CommitNormalizer.SummariesSkipPreamble | dev/buildtool/git.py:352-364 | The lines before the first summary line are dropped: the texts are those of the lines from it on. |
| CommitNormalizer.UnpackedSummariesAppend | dev/buildtool/git.py:345-366 | The summary splitting distributes over concatenation of record lists. |
| CommitNormalizer.UnpackedSummariesCover | dev/buildtool/git.py:345-366 | The output never has fewer records than the input. |
| CommitNormalizer.Normalized | dev/buildtool/git.py:280-289 | Normalising fails exactly when the commit unpacking fails, with its error. Otherwise it never gives fewer records than the unpacking did. |
| CommitNormalizer.NormalizeMessageList | dev/buildtool/git.py:280-289 | Computes the commit unpacking followed by the summary splitting, failing where the former fails. |
| CommitNormalizer.NormalizePlain | dev/buildtool/git.py:280-366 | Tidy records that hold no embedded header, and no summary line after their first line, come through both passes unchanged. A summary line at the first line is allowed. |
| CommitNormalizer.SummariesOneAtStart | dev/buildtool/git.py:345-366 | A tidy record whose only summary line is its first line yields exactly itself. |
| Severity.IsCompliant | dev/buildtool/git.py:399-411 | A rule list is compliant exactly when some rule is found that has groups, and no earlier rule is found. |
| Severity.Implication | dev/buildtool/git.py:384-432 | The result is MAJOR, MINOR, PATCH or the default index. |
| Severity.BreakingChangeSpec | dev/buildtool/git.py:238-242 | The default MAJOR pattern is found exactly when the stripped message contains `BREAKING CHANGE`. |
| Severity.DefaultClassification | dev/buildtool/git.py:222-243 | Under the defaults the result is MAJOR on `BREAKING CHANGE`. Otherwise it is MINOR when a line opens with a MINOR keyword, then PATCH for a PATCH keyword, else the default index. |
| Severity.ConventionalMinor | dev/buildtool/git.py:229-237 | A `feat:`/`feat(...)`-style subject gives MINOR unless the message has a breaking change. |
| Severity.ConventionalPatch | dev/buildtool/git.py:222-228 | A `fix:`-style subject gives PATCH when nothing calls for more. |
| Severity.StarredLineMatches | dev/buildtool/git.py:224-235 | A bulleted line `*  <keyword>(...` matches the keyword pattern. |
| Severity.EmptyRulesSkipLevel | dev/buildtool/git.py:401-402 | An explicit empty rule list is never compliant, so its level is skipped rather than defaulted. |
| Severity.MinImplication | dev/buildtool/git.py:375-381 | The running minimum is at most `PATCH_INDEX + 1` and at most each message's index. It is one of those values. |
| Severity.ListImplication | dev/buildtool/git.py:373-382 | `None` exactly for an empty list. |
| Severity.DetermineSemverImplicationOnList | dev/buildtool/git.py:369-382 | The loop with the accumulator `msi` computes `ListImplication`. |
| Severity.MinImplicationAppend | dev/buildtool/git.py:375-381 | The minimum over a concatenation is the smaller of the two minima. |
| Severity.BreakingChangeAnywhere | dev/buildtool/git.py:369-382 | One message with `BREAKING CHANGE` makes the list's implication MAJOR. |
| Severity.DefaultListInRange | dev/buildtool/git.py:369-382 | With the defaults, a non-empty list always asks for MAJOR, MINOR or PATCH. |
| GitRunner.SortByTag | dev/buildtool/git.py:620 | `sorted(commit_tags)` is a permutation of its input, ordered by tag. |
| GitRunner.StoreAllAt | dev/buildtool/git.py:620-621 | After the dictionary fill an id is a key exactly when some entry carries it. Its value is the tag of the last such entry. |
| GitRunner.NewestTagsSpec | dev/buildtool/git.py:619-621 | On the unsorted input: an id is a key exactly when some entry carries it. Its value is the lexicographically greatest of that id's tags. |
| GitRunner.BuildNewestTags | dev/buildtool/git.py:619-621 | The fill loop over the sorted list builds that map. |
| GitRunner.LineId | dev/buildtool/git.py:630 | `line.split(' ', 1)[0]`: the text before the first space, or the whole line. |
| GitRunner.Walk | dev/buildtool/git.py:628-634 | `count` is the number of lines before the first one whose id maps to a non-empty tag. `tag` is the last lookup made. |
| GitRunner.WalkToBaseline | dev/buildtool/git.py:628-634 | The `for`/`break` loop computes `Walk`. |
| GitRunner.QueryCommitsToExistingTag | dev/buildtool/git.py:614-646 | The baseline tag is always one of the stored tags. The query fails only when HEAD carries no tag. A tagged HEAD answers with no messages. |
| GitRunner.QueryLocalRepositoryCommitsToExistingTagFromId | dev/buildtool/git.py:614-646 | The method computes the baseline query from its inputs. |
| GitRunner.TaggedHead | dev/buildtool/git.py:622-624 | A tagged HEAD returns its greatest tag and no messages. |
| GitRunner.BaselineIsFirstTagged | dev/buildtool/git.py:626-646 | Otherwise the baseline is the newest tag of the first tagged ancestor line `k`. The messages are the parse of the log of `k` commits. |
| GitRunner.WalkUnmapped | dev/buildtool/git.py:628-636 | When no line's id has an entry, the walk ends past the last line with no tag. |
| GitRunner.NoBaseline | dev/buildtool/git.py:636-639 | No tagged HEAD and no tagged ancestor fails with `NoBaselineTag(commitId)`. |
| GitRunner.Summarize | dev/buildtool/git.py:832-846 | Succeeds exactly when the baseline tag reads as a version, else fails with `MalformedTag`. The summary keeps HEAD's id and the messages. Its tag reads back as a version of the baseline's series, and its version is that version's text. With no messages the tag is the baseline. With messages the version is strictly greater. |
| GitRunner.CollectRepositorySummary | dev/buildtool/git.py:822-846 | A failed baseline query fails the summary with its error. Otherwise the summary succeeds exactly when the baseline tag reads as a version. It then carries HEAD's id and the messages since the baseline. Its tag reads back as its version, and is a stored tag when nothing is new, or strictly greater with new messages. |
| GitRunner.CollectAtTaggedHead | dev/buildtool/git.py:822-846 | A tagged HEAD summarises to its greatest tag and that tag's version with no messages. |
| GitRunner.CollectSinceBaseline | dev/buildtool/git.py:822-846 | An untagged HEAD with new messages since the first tagged ancestor proposes a strictly greater version of the baseline's series and carries those messages. |
| GitRunner.SummaryUpToDate | dev/buildtool/git.py:832-842 | With no new messages the summary repeats the baseline tag and its version. |
| GitRunner.SummaryProposesNext | dev/buildtool/git.py:832-839 | With new messages the bump never fails. The summary proposes a strictly greater version of the same series, bumped at the list's implication, and its tag reads back as that version. |
| GitRunner.BreakingChangeBumpsMajor | dev/buildtool/git.py:832-839 | A breaking change since the baseline proposes `<series>-<major+1>.0.0`. |
| GitRunner.SummaryMalformedTag | dev/buildtool/git.py:832 | A baseline tag `make` cannot read fails the summary with `MalformedTag`. |
| Remote.MakeFromUrl | dev/buildtool/git.py:59-65 | Keeps url and upstream. The name is the part of the url after its last `/` (all of it when there is none), and holds no `/`. |
| Remote.MakeFromUrlName | dev/buildtool/git.py:64 | `<prefix>/<name>` is named `<name>`. |
| Remote.UpstreamUrlOfMade | dev/buildtool/git.py:59-82 | A repository made from a url with an upstream has that upstream's url as `upstream_url`. Without an upstream it has `None`. |
| Remote.Gitless | dev/buildtool/git.py:535-538 | Removes one trailing `.git`, and nothing else. |
| Remote.SchemeUrlParts | dev/buildtool/git.py:541 | `<scheme>://<host>/<owner>/<path>` splits into exactly those three groups. |
| Remote.SshUrlParts | dev/buildtool/git.py:544 | `git@<host>:<owner>/<path>` splits into exactly those three groups. |
| Remote.SshIsNotScheme | dev/buildtool/git.py:541-544 | A `git@` url never matches the scheme pattern, so the ssh pattern decides it. |
| Remote.NormalizeHosted | dev/buildtool/git.py:535-546 | A scheme url normalises to its (host, owner, path), with or without `.git`. |
| Remote.NormalizeSsh | dev/buildtool/git.py:535-546 | An ssh url normalises to its (host, owner, path), with or without `.git`. |
| Remote.SameRepoAcrossForms | dev/buildtool/git.py:551-555 | The https form and the `git@...:...git` form of one repository are the same repo. |
| Remote.NoColonIsLocal | dev/buildtool/git.py:541-548 | A url without `:` matches neither pattern and normalises to its absolute path. |
| Remote.NormalizeRepoUrl | dev/buildtool/git.py:535-548 | A hosted result has a non-empty host without its stop character. It also has a non-empty owner without `/` and a non-empty one-line path. Otherwise the result is the absolute path of the url as given, `.git` included. |
| Remote.IsSameRepo | dev/buildtool/git.py:551-555 | Equal urls are the same repo. Urls equal up to a trailing `.git` are the same repo when the first is hosted. |

## Behaviour of git.py worth noting

- `_unpack_embedded_summaries` drops the text before the first summary line. It emits no record for it (lines 352-364). `SummariesSkipPreamble` states this.
- `CommitMessage.make` calls `end` on the match without testing it. An entry whose header does not match raises `AttributeError` (line 263). In the model this is `Err(MalformedLogEntry(entry))`.
- `collect_repository_summary` classifies the messages exactly as `make_list_from_result` returns them. It does not call `normalize_message_list` on them (lines 829-836).
- The walk tests `if tag:`. A tag that is the empty string does not stop it. After a walk that runs out, the last lookup decides between `ValueError` (lookup `None`) and success (lookup `""`) (lines 629-639).
- `is_compliant` treats an explicit empty rule list as falsy, so that level is skipped. The defaults are not used for it (lines 401-402, 413-418).
- In `is_compliant` the first rule of a list that is found decides the list. When its match has no groups, later rules of the same list are not tried (lines 407-411).
- `__normalize_repo_url` strips `.git` before matching, but a local path is the absolute path of the url as given, `.git` included (lines 535-548).

## Left out

- Running `git` (`check_git`, `run_git`, clone, push, pull, tagging, re-init, branch deletion) and the `hub` pull-request call are external processes. Their outputs are parameters of the model.
- Authentication, environment variables and argparse options (`__inject_auth`, `stash_and_clear_auth_env_vars`, `add_git_parser_args`) are configuration, not logic.
- Every `logging` call and the `time.time()` timing in `collect_repository_summary` are side effects with no bearing on results.
- `LooseVersion` in `CommitTag.make` is a foreign object. A `CommitTag` keeps only its id and tag.
- `os.path.abspath` in `__normalize_repo_url` is a parameter `absPath` of the model.
- `RemoteGitRepository.merge_to_dict` merges dictionaries and is outside the version logic.
- `RepositorySummary.to_yaml` depends on a yaml library.
- `query_tag_commits` filters with a caller-supplied regular expression and sorts in reverse. The model takes its result, `allTags`, as given.
- `determine_remote_git_repository` reads `remote -v` through regex iteration. It is git plumbing.
- A single pattern passed to `is_compliant` instead of a list is not modelled: every caller in this core passes lists.
- The patterns are hand-written predicates, not a regular-expression engine. Each is stated for the one fixed pattern in the source.
- Severity.Implication: its own contract only bounds the result. The priority order MAJOR, MINOR, PATCH, default is stated by `DefaultClassification` and `EmptyRulesSkipLevel`, and the compliance of each level by `IsCompliant`.
