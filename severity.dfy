/** `CommitMessage.determine_semver_implication` and its list form: which
    version component a commit asks to bump. A rule list is tried on the
    stripped message; the first rule whose pattern is found there decides
    the list, and it counts when its match has capture groups. MAJOR rules
    are tried first, then MINOR, then PATCH, then the default index. */
module Severity {
  import opened Outcomes
  import opened Text
  import opened SemVer
  import opened CommitLog

  /** A compiled pattern as `is_compliant` uses it: whether `search` finds
      it in a text, and whether the pattern has capture groups (a match's
      `groups()` is a non-empty, hence true, tuple exactly then). */
  datatype Matcher = Matcher(search: string -> bool, hasGroups: bool)

  /** Where `^` matches under MULTILINE: the start, or just after a newline. */
  predicate LineStart(text: string, ls: int) {
    ls == 0 || (0 < ls <= |text| && text[ls - 1] == '\n')
  }

  /** `^\s*` can end at `q`: some line start at or before `q` is followed by
      whitespace only (newlines included) up to `q`. */
  predicate AfterIndent(text: string, q: int) {
    0 <= q <= |text| && exists ls :: 0 <= ls <= q && LineStart(text, ls) && AllSpace(text[ls..q])
  }

  /** DEFAULT_MAJOR_REGEXS: `^\s*(.*?BREAKING CHANGE.*)` under MULTILINE finds
      a match: after an indent, a run without newline reaches the marker. */
  predicate IsBreakingChange(text: string) {
    exists q, j :: 0 <= q <= j <= |text| && AfterIndent(text, q) && '\n' !in text[q..j] && OccursAt(text, "BREAKING CHANGE", j)
  }

  /** `(?:kw1|kw2|...)[\(:]` at position `r`. */
  predicate KeywordAt(text: string, r: int, keywords: seq<string>) {
    exists w :: w in keywords && OccursAt(text, w, r) && r + |w| < |text| && (text[r + |w|] == '(' || text[r + |w|] == ':')
  }

  /** `\*\s+` at `q`, followed by a keyword. */
  predicate StarKeywordAt(text: string, q: int, keywords: seq<string>) {
    0 <= q < |text| && text[q] == '*' &&
    exists r :: q + 2 <= r <= |text| && AllSpace(text[q + 1..r]) && KeywordAt(text, r, keywords)
  }

  /** `^\s*(?:\*\s+)?((?:kw1|kw2|...)[\(:].*)` under MULTILINE finds a match. */
  predicate KeywordSearch(text: string, keywords: seq<string>) {
    exists q :: 0 <= q <= |text| && AfterIndent(text, q) && (KeywordAt(text, q, keywords) || StarKeywordAt(text, q, keywords))
  }

  /** The alternatives of DEFAULT_PATCH_REGEXS (`docs?` is `doc` or `docs`). */
  const PATCH_KEYWORDS: seq<string> := ["fix", "bug", "doc", "docs", "test"]

  /** The alternatives of DEFAULT_MINOR_REGEXS. */
  const MINOR_KEYWORDS: seq<string> := ["feat", "feature", "chore", "refactor", "perf", "config"]

  const DEFAULT_MAJOR_REGEXS: seq<Matcher> := [Matcher(IsBreakingChange, true)]
  const DEFAULT_MINOR_REGEXS: seq<Matcher> := [Matcher(text => KeywordSearch(text, MINOR_KEYWORDS), true)]
  const DEFAULT_PATCH_REGEXS: seq<Matcher> := [Matcher(text => KeywordSearch(text, PATCH_KEYWORDS), true)]

  /** `is_compliant(spec)` read as a truth value: an empty list gives `None`;
      otherwise the first rule found in the text decides, true when its
      match has groups; no rule found gives `None`. */
  function IsCompliant(rules: seq<Matcher>, text: string): (r: bool)
    ensures r <==> exists i :: 0 <= i < |rules| && rules[i].search(text) && rules[i].hasGroups &&
                               forall j :: 0 <= j < i ==> !rules[j].search(text)
    decreases |rules|
  {
    if rules == [] then false
    else if rules[0].search(text) then
      FirstRuleFound(rules, text);
      rules[0].hasGroups
    else
      FirstRuleMissed(rules, text);
      IsCompliant(rules[1..], text)
  }

  /** When the first rule is found, it alone decides. */
  lemma FirstRuleFound(rules: seq<Matcher>, text: string)
    requires rules != [] && rules[0].search(text)
    ensures rules[0].hasGroups <==>
            exists i :: 0 <= i < |rules| && rules[i].search(text) && rules[i].hasGroups &&
                        forall j :: 0 <= j < i ==> !rules[j].search(text)
  {
  }

  /** When the first rule is not found, the decision passes to the rest. */
  lemma FirstRuleMissed(rules: seq<Matcher>, text: string)
    requires rules != [] && !rules[0].search(text)
    ensures (exists i :: 0 <= i < |rules| && rules[i].search(text) && rules[i].hasGroups &&
                         forall j :: 0 <= j < i ==> !rules[j].search(text)) <==>
            (exists i :: 0 <= i < |rules[1..]| && rules[1..][i].search(text) && rules[1..][i].hasGroups &&
                         forall j :: 0 <= j < i ==> !rules[1..][j].search(text))
  {
    var rest := rules[1..];
    if exists i :: 0 <= i < |rest| && rest[i].search(text) && rest[i].hasGroups &&
                   forall j :: 0 <= j < i ==> !rest[j].search(text) {
      var i :| 0 <= i < |rest| && rest[i].search(text) && rest[i].hasGroups &&
                forall j :: 0 <= j < i ==> !rest[j].search(text);
      forall j | 0 <= j < i + 1
        ensures !rules[j].search(text)
      {
        if j > 0 {
          assert rules[j] == rest[j - 1];
        }
      }
      assert rules[i + 1] == rest[i];
    }
    if exists i :: 0 <= i < |rules| && rules[i].search(text) && rules[i].hasGroups &&
                   forall j :: 0 <= j < i ==> !rules[j].search(text) {
      var i :| 0 <= i < |rules| && rules[i].search(text) && rules[i].hasGroups &&
                forall j :: 0 <= j < i ==> !rules[j].search(text);
      assert i != 0;
      assert rest[i - 1] == rules[i];
      forall j | 0 <= j < i - 1
        ensures !rest[j].search(text)
      {
        assert rest[j] == rules[j + 1];
      }
    }
  }

  /** A `None` argument stands for the class's default rule list. */
  function RulesOr(rules: Option<seq<Matcher>>, defaults: seq<Matcher>): seq<Matcher> {
    if rules.None? then defaults else rules.value
  }

  /** `message.determine_semver_implication(major, minor, patch, default)`. */
  function Implication(m: CommitMessage, major: Option<seq<Matcher>>, minor: Option<seq<Matcher>>,
                       patch: Option<seq<Matcher>>, defaultIndex: int): (r: int)
    ensures r == MAJOR_INDEX || r == MINOR_INDEX || r == PATCH_INDEX || r == defaultIndex
  {
    var text := Strip(m.message);
    if IsCompliant(RulesOr(major, DEFAULT_MAJOR_REGEXS), text) then MAJOR_INDEX
    else if IsCompliant(RulesOr(minor, DEFAULT_MINOR_REGEXS), text) then MINOR_INDEX
    else if IsCompliant(RulesOr(patch, DEFAULT_PATCH_REGEXS), text) then PATCH_INDEX
    else defaultIndex
  }

  /** The start of the line holding position `j`. */
  function LineStartOf(text: string, j: nat): (ls: nat)
    requires j <= |text|
    ensures ls <= j && LineStart(text, ls) && '\n' !in text[ls..j]
    decreases j
  {
    if j == 0 || text[j - 1] == '\n' then j
    else
      var ls := LineStartOf(text, j - 1);
      assert text[ls..j] == text[ls..j - 1] + [text[j - 1]];
      ls
  }

  /** The default MAJOR pattern is found exactly when the stripped message
      contains `BREAKING CHANGE` anywhere. */
  lemma BreakingChangeSpec(text: string)
    ensures IsBreakingChange(text) <==> Contains(text, "BREAKING CHANGE")
  {
    if Contains(text, "BREAKING CHANGE") {
      var j :| 0 <= j <= |text| && OccursAt(text, "BREAKING CHANGE", j);
      var ls := LineStartOf(text, j);
      assert AllSpace(text[ls..ls]);
      assert AfterIndent(text, ls);
    }
  }

  /** A line that starts with a keyword followed by `(` or `:` makes the
      keyword pattern match. */
  lemma KeywordLineMatches(text: string, p: int, w: string, keywords: seq<string>)
    requires LineStart(text, p) && w in keywords && OccursAt(text, w, p)
    requires p + |w| < |text| && (text[p + |w|] == '(' || text[p + |w|] == ':')
    ensures KeywordSearch(text, keywords)
  {
    assert AllSpace(text[p..p]);
    assert AfterIndent(text, p);
    assert KeywordAt(text, p, keywords);
  }

  /** A subject line `<keyword>(...` or `<keyword>:...` matches. */
  lemma SubjectMatches(text: string, w: string, keywords: seq<string>)
    requires w in keywords
    requires StartsWith(text, w + "(") || StartsWith(text, w + ":")
    ensures KeywordSearch(text, keywords)
  {
    var c := if StartsWith(text, w + "(") then '(' else ':';
    assert text[..|w| + 1] == w + [c];
    assert text[..|w|] == w && text[|w|] == c;
    KeywordLineMatches(text, 0, w, keywords);
  }

  /** A bullet line `* <keyword>(...` or `*  <keyword>:...` matches too. */
  lemma StarredLineMatches(text: string, p: int, gap: nat, w: string, keywords: seq<string>)
    requires LineStart(text, p) && p < |text| && text[p] == '*' && gap >= 1
    requires p + 1 + gap <= |text| && AllSpace(text[p + 1..p + 1 + gap])
    requires w in keywords && OccursAt(text, w, p + 1 + gap)
    requires p + 1 + gap + |w| < |text| && (text[p + 1 + gap + |w|] == '(' || text[p + 1 + gap + |w|] == ':')
    ensures KeywordSearch(text, keywords)
  {
    assert AllSpace(text[p..p]);
    assert AfterIndent(text, p);
    assert KeywordAt(text, p + 1 + gap, keywords);
    assert StarKeywordAt(text, p, keywords);
  }

  /** With the default rule lists the classification is: MAJOR when the
      stripped message contains `BREAKING CHANGE`, else MINOR when a line
      opens with a MINOR keyword, else PATCH when one opens with a PATCH
      keyword, else the default index. */
  lemma DefaultClassification(m: CommitMessage, defaultIndex: int)
    ensures var text := Strip(m.message);
            var r := Implication(m, None, None, None, defaultIndex);
            (Contains(text, "BREAKING CHANGE") ==> r == MAJOR_INDEX) &&
            (!Contains(text, "BREAKING CHANGE") && KeywordSearch(text, MINOR_KEYWORDS) ==> r == MINOR_INDEX) &&
            (!Contains(text, "BREAKING CHANGE") && !KeywordSearch(text, MINOR_KEYWORDS) && KeywordSearch(text, PATCH_KEYWORDS) ==> r == PATCH_INDEX) &&
            (!Contains(text, "BREAKING CHANGE") && !KeywordSearch(text, MINOR_KEYWORDS) && !KeywordSearch(text, PATCH_KEYWORDS) ==> r == defaultIndex)
  {
    ImplicationOfDefaults(m, defaultIndex);
    BreakingChangeSpec(Strip(m.message));
  }

  /** Each default list holds one rule with groups, so it is compliant
      exactly when its pattern is found. */
  lemma ImplicationOfDefaults(m: CommitMessage, defaultIndex: int)
    ensures Implication(m, None, None, None, defaultIndex) ==
            (if IsBreakingChange(Strip(m.message)) then MAJOR_INDEX
             else if KeywordSearch(Strip(m.message), MINOR_KEYWORDS) then MINOR_INDEX
             else if KeywordSearch(Strip(m.message), PATCH_KEYWORDS) then PATCH_INDEX
             else defaultIndex)
  {
    var text := Strip(m.message);
    SingleRule(DEFAULT_MAJOR_REGEXS[0], text);
    SingleRule(DEFAULT_MINOR_REGEXS[0], text);
    SingleRule(DEFAULT_PATCH_REGEXS[0], text);
  }

  lemma SingleRule(rule: Matcher, text: string)
    requires rule.hasGroups
    ensures IsCompliant([rule], text) == rule.search(text)
  {
  }

  /** A conventional `feat:`/`feat(scope):` subject asks for a MINOR bump
      under the defaults, unless the message marks a breaking change. */
  lemma ConventionalMinor(m: CommitMessage, w: string, defaultIndex: int)
    requires w in MINOR_KEYWORDS
    requires StartsWith(Strip(m.message), w + "(") || StartsWith(Strip(m.message), w + ":")
    requires !Contains(Strip(m.message), "BREAKING CHANGE")
    ensures Implication(m, None, None, None, defaultIndex) == MINOR_INDEX
  {
    SubjectMatches(Strip(m.message), w, MINOR_KEYWORDS);
    DefaultClassification(m, defaultIndex);
  }

  /** A `fix:`-style subject asks for a PATCH bump under the defaults when
      nothing in the message calls for more. */
  lemma ConventionalPatch(m: CommitMessage, w: string, defaultIndex: int)
    requires w in PATCH_KEYWORDS
    requires StartsWith(Strip(m.message), w + "(") || StartsWith(Strip(m.message), w + ":")
    requires !Contains(Strip(m.message), "BREAKING CHANGE") && !KeywordSearch(Strip(m.message), MINOR_KEYWORDS)
    ensures Implication(m, None, None, None, defaultIndex) == PATCH_INDEX
  {
    SubjectMatches(Strip(m.message), w, PATCH_KEYWORDS);
    DefaultClassification(m, defaultIndex);
  }

  /** An explicit empty list is not `None`: it is never compliant, so that
      level is skipped rather than defaulted. */
  lemma EmptyRulesSkipLevel(m: CommitMessage, minor: Option<seq<Matcher>>, patch: Option<seq<Matcher>>, defaultIndex: int)
    ensures Implication(m, Some([]), minor, patch, defaultIndex) ==
            (if IsCompliant(RulesOr(minor, DEFAULT_MINOR_REGEXS), Strip(m.message)) then MINOR_INDEX
             else if IsCompliant(RulesOr(patch, DEFAULT_PATCH_REGEXS), Strip(m.message)) then PATCH_INDEX
             else defaultIndex)
  {
  }

  /** The smallest of `start` and the values of `f` on `xs`, taken left to right. */
  function MinFrom<X>(f: X -> int, start: int, xs: seq<X>): (r: int)
    ensures r <= start
    ensures forall k :: 0 <= k < |xs| ==> r <= f(xs[k])
    ensures r == start || exists k :: 0 <= k < |xs| && r == f(xs[k])
    decreases |xs|
  {
    if xs == [] then start
    else
      var front := xs[..|xs| - 1];
      var a := MinFrom(f, start, front);
      var b := f(xs[|xs| - 1]);
      assert forall k :: 0 <= k < |front| ==> front[k] == xs[k];
      if a <= b then a else b
  }

  /** `determine_semver_implication` with its keyword arguments fixed. */
  function Classifier(major: Option<seq<Matcher>>, minor: Option<seq<Matcher>>,
                      patch: Option<seq<Matcher>>, defaultIndex: int): CommitMessage -> int
  {
    m => Implication(m, major, minor, patch, defaultIndex)
  }

  /** The running minimum `msi` after the messages in `msgs`, starting from
      PATCH_INDEX + 1: bounded by every message's own implication and equal
      to one of them unless it is still the start value. */
  function MinImplication(msgs: seq<CommitMessage>, major: Option<seq<Matcher>>, minor: Option<seq<Matcher>>,
                          patch: Option<seq<Matcher>>, defaultIndex: int): (r: int)
    ensures r <= PATCH_INDEX + 1
    ensures forall k :: 0 <= k < |msgs| ==> r <= Implication(msgs[k], major, minor, patch, defaultIndex)
    ensures r == PATCH_INDEX + 1 || exists k :: 0 <= k < |msgs| && r == Implication(msgs[k], major, minor, patch, defaultIndex)
  {
    var f := Classifier(major, minor, patch, defaultIndex);
    var r := MinFrom(f, PATCH_INDEX + 1, msgs);
    assert forall k :: 0 <= k < |msgs| ==> f(msgs[k]) == Implication(msgs[k], major, minor, patch, defaultIndex);
    r
  }

  /** `determine_semver_implication_on_list`: `None` for no messages, else
      the most significant bump any of them asks for. */
  function ListImplication(msgs: seq<CommitMessage>, major: Option<seq<Matcher>>, minor: Option<seq<Matcher>>,
                           patch: Option<seq<Matcher>>, defaultIndex: int): (r: Option<int>)
    ensures r.None? <==> msgs == []
  {
    if msgs == [] then None else Some(MinImplication(msgs, major, minor, patch, defaultIndex))
  }

  /** The source's loop with the running minimum. */
  method DetermineSemverImplicationOnList(msgs: seq<CommitMessage>, major: Option<seq<Matcher>>,
                                          minor: Option<seq<Matcher>>, patch: Option<seq<Matcher>>,
                                          defaultIndex: int) returns (r: Option<int>)
    ensures r == ListImplication(msgs, major, minor, patch, defaultIndex)
  {
    if msgs == [] {
      return None;
    }
    ghost var f := Classifier(major, minor, patch, defaultIndex);
    var msi := PATCH_INDEX + 1;
    for i := 0 to |msgs|
      invariant msi == MinFrom(f, PATCH_INDEX + 1, msgs[..i])
    {
      var severity := Implication(msgs[i], major, minor, patch, defaultIndex);
      MinFromStep(f, PATCH_INDEX + 1, msgs, i);
      assert severity == f(msgs[i]);
      if severity < msi {
        msi := severity;
      }
    }
    assert msgs[..|msgs|] == msgs;
    return Some(msi);
  }

  /** One more element of a prefix folds into the running minimum. */
  lemma MinFromStep<X>(f: X -> int, start: int, xs: seq<X>, i: nat)
    requires i < |xs|
    ensures var a := MinFrom(f, start, xs[..i]);
            MinFrom(f, start, xs[..i + 1]) == if a <= f(xs[i]) then a else f(xs[i])
  {
    assert xs[..i + 1][..i] == xs[..i];
  }

  /** The running minimum splits over concatenation. */
  lemma {:induction false} MinFromAppend<X>(f: X -> int, start: int, xs: seq<X>, ys: seq<X>)
    ensures var a := MinFrom(f, start, xs);
            var b := MinFrom(f, start, ys);
            MinFrom(f, start, xs + ys) == if a <= b then a else b
    decreases |ys|
  {
    if ys == [] {
      assert xs + ys == xs;
    } else {
      var ys' := ys[..|ys| - 1];
      assert (xs + ys)[..|xs + ys| - 1] == xs + ys';
      assert (xs + ys)[|xs + ys| - 1] == ys[|ys| - 1];
      MinFromAppend(f, start, xs, ys');
    }
  }

  /** So the severity of a log is that of its parts, whatever the order:
      splitting the list anywhere and taking the larger bump of the two
      halves gives the same answer. */
  lemma MinImplicationAppend(xs: seq<CommitMessage>, ys: seq<CommitMessage>,
                             major: Option<seq<Matcher>>, minor: Option<seq<Matcher>>,
                             patch: Option<seq<Matcher>>, defaultIndex: int)
    ensures var a := MinImplication(xs, major, minor, patch, defaultIndex);
            var b := MinImplication(ys, major, minor, patch, defaultIndex);
            MinImplication(xs + ys, major, minor, patch, defaultIndex) == if a <= b then a else b
  {
    MinFromAppend(Classifier(major, minor, patch, defaultIndex), PATCH_INDEX + 1, xs, ys);
  }

  /** Under the default rules one breaking change anywhere in the list makes
      the whole list a MAJOR bump. */
  lemma BreakingChangeAnywhere(msgs: seq<CommitMessage>, k: nat)
    requires k < |msgs| && Contains(Strip(msgs[k].message), "BREAKING CHANGE")
    ensures ListImplication(msgs, None, None, None, MINOR_INDEX) == Some(MAJOR_INDEX)
  {
    DefaultClassification(msgs[k], MINOR_INDEX);
    var r := MinImplication(msgs, None, None, None, MINOR_INDEX);
    assert r <= MAJOR_INDEX;
    if r != PATCH_INDEX + 1 {
      var j :| 0 <= j < |msgs| && r == Implication(msgs[j], None, None, None, MINOR_INDEX);
    }
  }

  /** With the default rules and default index every list of messages asks
      for a MAJOR, MINOR or PATCH bump. */
  lemma DefaultListInRange(msgs: seq<CommitMessage>)
    requires msgs != []
    ensures var r := ListImplication(msgs, None, None, None, MINOR_INDEX);
            r.Some? && MAJOR_INDEX <= r.value <= PATCH_INDEX
  {
    var r := MinImplication(msgs, None, None, None, MINOR_INDEX);
    assert r <= Implication(msgs[0], None, None, None, MINOR_INDEX);
    if r != PATCH_INDEX + 1 {
      var j :| 0 <= j < |msgs| && r == Implication(msgs[j], None, None, None, MINOR_INDEX);
    }
  }
}
