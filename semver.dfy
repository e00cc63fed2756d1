/** `SemanticVersion`: a release tag `<series>-<major>.<minor>.<patch>` as an
    immutable value, its parser (`make`), its two text forms (`to_tag`,
    `to_version`), the comparison `most_significant_diff_index` and the
    successor `next`. Component indices are the source's integer constants. */
module SemVer {
  import opened Outcomes
  import opened Text

  const TAG_INDEX: int := 0
  const MAJOR_INDEX: int := 1
  const MINOR_INDEX: int := 2
  const PATCH_INDEX: int := 3

  datatype SemanticVersion = SemanticVersion(seriesName: string, major: nat, minor: nat, patch: nat)

  /** The numeric component at a bumpable index. */
  function Component(v: SemanticVersion, index: int): nat
    requires MAJOR_INDEX <= index <= PATCH_INDEX
  {
    if index == MAJOR_INDEX then v.major
    else if index == MINOR_INDEX then v.minor
    else v.patch
  }

  /** A series name that `to_tag` can write and `make` read back: what `(.+)` can match. */
  predicate ValidSeries(series: string) {
    series != [] && '\n' !in series
  }

  /** `(\d+)\.(\d+)\.(\d+)` matches at the start of `t`: three digit runs,
      the first two followed by a `.` (each run as long as possible, since a
      `.` or nothing has to follow it). */
  predicate NumbersMatch(t: string) {
    var a := DigitRun(t);
    a != 0 && a < |t| && t[a] == '.' &&
    var t2 := t[a + 1..];
    var b := DigitRun(t2);
    b != 0 && b < |t2| && t2[b] == '.' &&
    DigitRun(t2[b + 1..]) != 0
  }

  /** The three values the groups denote, when the pattern matches. */
  function Numbers(t: string): Option<(nat, nat, nat)> {
    if !NumbersMatch(t) then None
    else
      var a := DigitRun(t);
      var t2 := t[a + 1..];
      var b := DigitRun(t2);
      var t3 := t2[b + 1..];
      var c := DigitRun(t3);
      Some((DigitsValue(t[..a]), DigitsValue(t2[..b]), DigitsValue(t3[..c])))
  }

  /** SEMVER_MATCHER `(.+)-(\d+)\.(\d+)\.(\d+)` matches the start of `tag`
      with its first group ending just before position `p`. */
  predicate SeparatorAt(tag: string, p: int) {
    1 <= p < |tag| && tag[p] == '-' && '\n' !in tag[..p] && NumbersMatch(tag[p + 1..])
  }

  /** The version the match with its separator at `p` denotes. */
  function VersionAt(tag: string, p: int): SemanticVersion
    requires SeparatorAt(tag, p)
  {
    var n := Numbers(tag[p + 1..]).value;
    SemanticVersion(tag[..p], n.0, n.1, n.2)
  }

  /** The greedy `(.+)` tries the longest group first: the separator chosen
      is the last position below `k` at which the rest matches. */
  function LastSeparator(tag: string, k: nat): (r: Option<nat>)
    requires k <= |tag|
    ensures r.Some? ==> r.value < k && SeparatorAt(tag, r.value)
    ensures r.Some? ==> forall q :: r.value < q < k ==> !SeparatorAt(tag, q)
    ensures r.None? ==> forall q :: 0 <= q < k ==> !SeparatorAt(tag, q)
  {
    var seps := seq(|tag|, q requires 0 <= q < |tag| => SeparatorAt(tag, q));
    var r := LastTrue(seps, k);
    assert forall q :: 0 <= q < |tag| ==> seps[q] == SeparatorAt(tag, q);
    r
  }

  /** The greatest index below `k` holding `true`. */
  function LastTrue(bs: seq<bool>, k: nat): (r: Option<nat>)
    requires k <= |bs|
    ensures r.Some? ==> r.value < k && bs[r.value] && forall q :: r.value < q < k ==> !bs[q]
    ensures r.None? ==> forall q :: 0 <= q < k ==> !bs[q]
    decreases k
  {
    if k == 0 then None
    else if bs[k - 1] then Some(k - 1)
    else LastTrue(bs, k - 1)
  }

  /** `SemanticVersion.make(tag)`: the version the pattern reads from the
      start of `tag`, or the `ValueError` for a malformed tag. */
  function Make(tag: string): (r: Result<SemanticVersion>)
    ensures r.Ok? <==> exists p :: SeparatorAt(tag, p)
    ensures r.Err? ==> r.error == MalformedTag(tag)
    ensures r.Ok? ==> exists p :: SeparatorAt(tag, p) && (forall q :: p < q < |tag| ==> !SeparatorAt(tag, q)) && r.value == VersionAt(tag, p)
  {
    match LastSeparator(tag, |tag|)
    case None => Err(MalformedTag(tag))
    case Some(p) => Ok(VersionAt(tag, p))
  }

  /** `to_version()`: `<major>.<minor>.<patch>`. */
  function ToVersion(v: SemanticVersion): string {
    NatToString(v.major) + "." + NatToString(v.minor) + "." + NatToString(v.patch)
  }

  /** `to_tag()`: `<series>-<major>.<minor>.<patch>`. */
  function ToTag(v: SemanticVersion): string {
    v.seriesName + "-" + ToVersion(v)
  }

  /** `self.most_significant_diff_index(arg)`: the first field, in the order
      series, major, minor, patch, in which the two versions differ. */
  function MostSignificantDiffIndex(self: SemanticVersion, arg: SemanticVersion): (r: Option<int>)
    ensures r.None? <==> self == arg
    ensures r == Some(TAG_INDEX) <==> self.seriesName != arg.seriesName
    ensures r.Some? && r.value != TAG_INDEX ==>
              MAJOR_INDEX <= r.value <= PATCH_INDEX && self.seriesName == arg.seriesName &&
              Component(self, r.value) != Component(arg, r.value) &&
              forall i :: MAJOR_INDEX <= i < r.value ==> Component(self, i) == Component(arg, i)
  {
    if arg.seriesName != self.seriesName then Some(TAG_INDEX)
    else if arg.major != self.major then Some(MAJOR_INDEX)
    else if arg.minor != self.minor then Some(MINOR_INDEX)
    else if arg.patch != self.patch then Some(PATCH_INDEX)
    else None
  }

  /** `self.next(at_index)`: bump the component at `at_index` by one and reset
      every less significant one to zero; `None` and any index other than
      MAJOR, MINOR or PATCH raise `ValueError`. */
  function Next(self: SemanticVersion, atIndex: Option<int>): (r: Result<SemanticVersion>)
    ensures r.Ok? <==> atIndex.Some? && MAJOR_INDEX <= atIndex.value <= PATCH_INDEX
    ensures r.Err? ==> r.error == InvalidBumpIndex(atIndex)
    ensures r.Ok? ==> r.value.seriesName == self.seriesName
    ensures r.Ok? ==>
              var i := atIndex.value;
              Component(r.value, i) == Component(self, i) + 1 &&
              (forall j :: MAJOR_INDEX <= j < i ==> Component(r.value, j) == Component(self, j)) &&
              (forall j :: i < j <= PATCH_INDEX ==> Component(r.value, j) == 0)
  {
    if atIndex.None? then Err(InvalidBumpIndex(atIndex))
    else if atIndex.value == PATCH_INDEX then Ok(self.(patch := self.patch + 1))
    else if atIndex.value == MINOR_INDEX then Ok(self.(minor := self.minor + 1, patch := 0))
    else if atIndex.value == MAJOR_INDEX then Ok(self.(major := self.major + 1, minor := 0, patch := 0))
    else Err(InvalidBumpIndex(atIndex))
  }

  lemma DigitsThenDot(x: string, rest: string)
    requires AllDigits(x)
    ensures DigitRun(x + "." + rest) == |x|
    ensures (x + "." + rest)[|x|] == '.'
    ensures (x + "." + rest)[..|x|] == x
    ensures (x + "." + rest)[|x| + 1..] == rest
  {
    assert x + "." + rest == x + ("." + rest);
    DigitRunOfDigits(x, "." + rest);
  }

  lemma NumbersOfDigits(x: string, y: string, z: string)
    requires AllDigits(x) && AllDigits(y) && AllDigits(z)
    requires x != [] && y != [] && z != []
    ensures Numbers(x + "." + y + "." + z) == Some((DigitsValue(x), DigitsValue(y), DigitsValue(z)))
  {
    var t := x + "." + y + "." + z;
    assert t == x + "." + (y + "." + z);
    DigitsThenDot(x, y + "." + z);
    DigitsThenDot(y, z);
    DigitRunOfDigits(z, "");
    assert z + "" == z;
  }

  /** Reading the numbers back from `to_version`. */
  lemma NumbersOfToVersion(v: SemanticVersion)
    ensures Numbers(ToVersion(v)) == Some((v.major, v.minor, v.patch))
  {
    NumbersOfDigits(NatToString(v.major), NatToString(v.minor), NatToString(v.patch));
    DigitsValueOfNatToString(v.major);
    DigitsValueOfNatToString(v.minor);
    DigitsValueOfNatToString(v.patch);
  }

  /** Parse/format round trip: `make(v.to_tag()) == v` for every version whose
      series the pattern's first group can hold. The greedy first group gives
      back the whole series because no `-` follows the separator. */
  lemma {:induction false} MakeToTag(v: SemanticVersion)
    requires ValidSeries(v.seriesName)
    ensures Make(ToTag(v)) == Ok(v)
  {
    var tag := ToTag(v);
    var p := |v.seriesName|;
    var t := ToVersion(v);
    assert tag == v.seriesName + "-" + t;
    assert tag[..p] == v.seriesName;
    assert tag[p + 1..] == t;
    NumbersOfToVersion(v);
    assert SeparatorAt(tag, p);
    NoDashInVersion(v);
    NoDashAfter(tag, p, t);
    LastSeparatorIs(tag, p);
  }

  /** No separator can sit in a dash-free tail. */
  lemma NoDashAfter(tag: string, p: nat, t: string)
    requires p < |tag| && tag[p + 1..] == t && '-' !in t
    ensures forall q :: p < q < |tag| ==> !SeparatorAt(tag, q)
  {
    forall q | p < q < |tag|
      ensures !SeparatorAt(tag, q)
    {
      assert tag[q] == t[q - p - 1];
    }
  }

  lemma NoDashInVersion(v: SemanticVersion)
    ensures '-' !in ToVersion(v)
  {
    var x, y, z := NatToString(v.major), NatToString(v.minor), NatToString(v.patch);
    assert forall i :: 0 <= i < |x| ==> IsDigit(x[i]);
    assert forall i :: 0 <= i < |y| ==> IsDigit(y[i]);
    assert forall i :: 0 <= i < |z| ==> IsDigit(z[i]);
  }

  /** A separator with none after it is the one the greedy match picks. */
  lemma LastSeparatorIs(tag: string, p: nat)
    requires SeparatorAt(tag, p)
    requires forall q :: p < q < |tag| ==> !SeparatorAt(tag, q)
    ensures Make(tag) == Ok(VersionAt(tag, p))
  {
    var r := LastSeparator(tag, |tag|);
    assert r.Some?;
    assert r.value == p;
  }

  /** The successor differs from its origin exactly at the bumped index. */
  lemma NextDiffersAt(v: SemanticVersion, i: int)
    requires MAJOR_INDEX <= i <= PATCH_INDEX
    ensures Next(v, Some(i)).Ok?
    ensures MostSignificantDiffIndex(v, Next(v, Some(i)).value) == Some(i)
  {
  }

  /** A MAJOR bump raises the major number and clears the others. */
  lemma NextMajor(v: SemanticVersion)
    ensures Next(v, Some(MAJOR_INDEX)) == Ok(v.(major := v.major + 1, minor := 0, patch := 0))
  {
  }

  /** Version order on the numeric components (the series is not compared). */
  predicate NumericLess(a: SemanticVersion, b: SemanticVersion) {
    a.major < b.major ||
    (a.major == b.major && a.minor < b.minor) ||
    (a.major == b.major && a.minor == b.minor && a.patch < b.patch)
  }

  /** Every successor is a strictly greater version. */
  lemma NextIncreases(v: SemanticVersion, i: int)
    requires MAJOR_INDEX <= i <= PATCH_INDEX
    ensures Next(v, Some(i)).Ok? && NumericLess(v, Next(v, Some(i)).value)
  {
  }

  /** Worked examples of the bump rules: 1.2.3 goes to 1.2.4, 1.3.0 and 2.0.0. */
  lemma NextExamples(s: string)
    ensures Next(SemanticVersion(s, 1, 2, 3), Some(PATCH_INDEX)) == Ok(SemanticVersion(s, 1, 2, 4))
    ensures Next(SemanticVersion(s, 1, 2, 3), Some(MINOR_INDEX)) == Ok(SemanticVersion(s, 1, 3, 0))
    ensures Next(SemanticVersion(s, 1, 2, 3), Some(MAJOR_INDEX)) == Ok(SemanticVersion(s, 2, 0, 0))
    ensures Next(SemanticVersion(s, 1, 2, 3), Some(TAG_INDEX)) == Err(InvalidBumpIndex(Some(TAG_INDEX)))
    ensures Next(SemanticVersion(s, 1, 2, 3), None) == Err(InvalidBumpIndex(None))
  {
  }
}
