/** The order of release versions and the choice of the release to update to (`update/update.go`). */
module Versions {
  import opened Common

  // ---------------------------------------------------------------- orders

  ghost predicate Lawful<T(!new)>(cmp: (T, T) -> int) {
    && (forall x, y :: cmp(x, y) == 0 <==> x == y)
    && (forall x, y :: cmp(x, y) == -cmp(y, x))
    && (forall x, y, z :: cmp(x, y) <= 0 && cmp(y, z) <= 0 ==> cmp(x, z) <= 0)
  }

  function CompareNumber(a: int, b: int): int {
    if a < b then -1 else if a > b then 1 else 0
  }

  function CompareChar(a: char, b: char): int {
    CompareNumber(a as int, b as int)
  }

  /** Field by field, and the longer one is greater when all of the shorter are equal. */
  function Lex<T>(cmp: (T, T) -> int, a: seq<T>, b: seq<T>): int {
    if a == [] && b == [] then 0
    else if a == [] then -1
    else if b == [] then 1
    else if cmp(a[0], b[0]) != 0 then cmp(a[0], b[0])
    else Lex(cmp, a[1..], b[1..])
  }

  lemma {:induction false} LexZero<T(!new)>(cmp: (T, T) -> int, a: seq<T>, b: seq<T>)
    requires Lawful(cmp)
    ensures Lex(cmp, a, b) == 0 <==> a == b
  {
    if a != [] && b != [] {
      LexZero(cmp, a[1..], b[1..]);
      assert a == [a[0]] + a[1..] && b == [b[0]] + b[1..];
    }
  }

  lemma {:induction false} LexFlips<T(!new)>(cmp: (T, T) -> int, a: seq<T>, b: seq<T>)
    requires Lawful(cmp)
    ensures Lex(cmp, a, b) == -Lex(cmp, b, a)
  {
    if a != [] && b != [] {
      LexFlips(cmp, a[1..], b[1..]);
      assert cmp(a[0], b[0]) == -cmp(b[0], a[0]);
    }
  }

  lemma {:induction false} LexChains<T(!new)>(cmp: (T, T) -> int, a: seq<T>, b: seq<T>, c: seq<T>)
    requires Lawful(cmp) && Lex(cmp, a, b) <= 0 && Lex(cmp, b, c) <= 0
    ensures Lex(cmp, a, c) <= 0
  {
    if a != [] && b != [] && c != [] {
      assert cmp(a[0], b[0]) <= 0 && cmp(b[0], c[0]) <= 0;
      assert cmp(a[0], c[0]) <= 0;
      if cmp(a[0], c[0]) == 0 {
        assert cmp(b[0], a[0]) <= 0;
        LexChains(cmp, a[1..], b[1..], c[1..]);
      }
    }
  }

  /** The first difference decides. */
  ghost predicate LexLess<T(!new)>(cmp: (T, T) -> int, a: seq<T>, b: seq<T>) {
    a < b || exists i :: 0 <= i < |a| && i < |b| && a[..i] == b[..i] && cmp(a[i], b[i]) < 0
  }

  lemma {:induction false} LexIsFirstDifference<T(!new)>(cmp: (T, T) -> int, a: seq<T>, b: seq<T>)
    requires Lawful(cmp)
    ensures Lex(cmp, a, b) < 0 <==> LexLess(cmp, a, b)
  {
    if a != [] && b != [] {
      if cmp(a[0], b[0]) == 0 {
        LexIsFirstDifference(cmp, a[1..], b[1..]);
        LexLessTail(cmp, a, b);
      } else {
        LexLessHead(cmp, a, b);
      }
    }
  }

  lemma LexLessHead<T(!new)>(cmp: (T, T) -> int, a: seq<T>, b: seq<T>)
    requires Lawful(cmp) && a != [] && b != [] && a[0] != b[0]
    ensures LexLess(cmp, a, b) <==> cmp(a[0], b[0]) < 0
  {
    if cmp(a[0], b[0]) < 0 {
      assert a[..0] == b[..0];
    }
    if LexLess(cmp, a, b) && !(a < b) {
      var i :| 0 <= i < |a| && i < |b| && a[..i] == b[..i] && cmp(a[i], b[i]) < 0;
      assert i > 0 ==> a[..i][0] == b[..i][0];
    }
  }

  lemma LexLessTail<T(!new)>(cmp: (T, T) -> int, a: seq<T>, b: seq<T>)
    requires Lawful(cmp) && a != [] && b != [] && a[0] == b[0]
    ensures LexLess(cmp, a, b) <==> LexLess(cmp, a[1..], b[1..])
  {
    assert cmp(a[0], b[0]) == 0;
    if a[1..] < b[1..] {
      assert a == [a[0]] + a[1..] && b == [b[0]] + b[1..];
    } else if LexLess(cmp, a[1..], b[1..]) {
      var i :| 0 <= i < |a| - 1 && i < |b| - 1 && a[1..][..i] == b[1..][..i] && cmp(a[1..][i], b[1..][i]) < 0;
      assert a[..i + 1] == [a[0]] + a[1..][..i] && b[..i + 1] == [b[0]] + b[1..][..i];
      assert cmp(a[i + 1], b[i + 1]) < 0;
    }
    if !(a < b) && LexLess(cmp, a, b) {
      var i :| 0 <= i < |a| && i < |b| && a[..i] == b[..i] && cmp(a[i], b[i]) < 0;
      assert i > 0;
      assert a[1..][..i - 1] == a[..i][1..] && b[1..][..i - 1] == b[..i][1..];
      assert cmp(a[1..][i - 1], b[1..][i - 1]) < 0;
    }
  }

  // ---------------------------------------------------------------- pre-releases

  datatype Identifier = Number(n: Uint64) | Text(text: string)

  function CompareText(a: string, b: string): int {
    Lex(CompareChar, a, b)
  }

  function CompareIdentifier(a: Identifier, b: Identifier): int {
    match (a, b)
    case (Number(_), Text(_)) => -1
    case (Text(_), Number(_)) => 1
    case (Number(m), Number(n)) => CompareNumber(m, n)
    case (Text(s), Text(t)) => CompareText(s, t)
  }

  function ComparePre(a: seq<Identifier>, b: seq<Identifier>): int {
    if a == [] && b == [] then 0
    else if a == [] then 1
    else if b == [] then -1
    else Lex(CompareIdentifier, a, b)
  }

  lemma CharsAreLawful()
    ensures Lawful(CompareChar)
  {
  }

  lemma IdentifiersAreLawful()
    ensures Lawful(CompareIdentifier)
  {
    CharsAreLawful();
    hide Lex;
    forall x: Identifier, y: Identifier
      ensures CompareIdentifier(x, y) == 0 <==> x == y
      ensures CompareIdentifier(x, y) == -CompareIdentifier(y, x)
    {
      if x.Text? && y.Text? {
        LexZero(CompareChar, x.text, y.text);
        LexFlips(CompareChar, x.text, y.text);
      }
    }
    forall x: Identifier, y: Identifier, z: Identifier | CompareIdentifier(x, y) <= 0 && CompareIdentifier(y, z) <= 0
      ensures CompareIdentifier(x, z) <= 0
    {
      if x.Text? && y.Text? && z.Text? {
        LexChains(CompareChar, x.text, y.text, z.text);
      }
    }
  }

  /** Section 11.4 of Semantic Versioning 2.0.0 for two identifiers. */
  ghost predicate IdentifierPrecedes(a: Identifier, b: Identifier) {
    || (a.Number? && b.Number? && a.n < b.n)
    || (a.Number? && b.Text?)
    || (a.Text? && b.Text? && TextPrecedes(a.text, b.text))
  }

  /** Text is ordered by character codes. */
  ghost predicate TextPrecedes(a: string, b: string) {
    a < b || exists i :: 0 <= i < |a| && i < |b| && a[..i] == b[..i] && a[i] < b[i]
  }

  /** Section 11.3 and 11.4: a release follows its pre-releases; otherwise the first difference, or the shorter list. */
  ghost predicate PrePrecedes(a: seq<Identifier>, b: seq<Identifier>) {
    || (a != [] && b == [])
    || (a != [] && a < b)
    || (exists i :: 0 <= i < |a| && i < |b| && a[..i] == b[..i] && IdentifierPrecedes(a[i], b[i]))
  }

  lemma IdentifierOrderIsStandard(a: Identifier, b: Identifier)
    ensures CompareIdentifier(a, b) < 0 <==> IdentifierPrecedes(a, b)
  {
    CharsAreLawful();
    if a.Text? && b.Text? {
      LexIsFirstDifference(CompareChar, a.text, b.text);
      TextOrder(a.text, b.text);
    }
  }

  lemma TextOrder(a: string, b: string)
    ensures LexLess(CompareChar, a, b) <==> TextPrecedes(a, b)
  {
    if LexLess(CompareChar, a, b) && !(a < b) {
      var i :| 0 <= i < |a| && i < |b| && a[..i] == b[..i] && CompareChar(a[i], b[i]) < 0;
      assert a[i] < b[i];
    }
    if TextPrecedes(a, b) && !(a < b) {
      var i :| 0 <= i < |a| && i < |b| && a[..i] == b[..i] && a[i] < b[i];
      assert CompareChar(a[i], b[i]) < 0;
    }
  }

  lemma PreOrderIsStandard(a: seq<Identifier>, b: seq<Identifier>)
    ensures ComparePre(a, b) < 0 <==> PrePrecedes(a, b)
  {
    hide IdentifierPrecedes, CompareIdentifier, Lawful;
    IdentifiersAreLawful();
    forall x, y ensures CompareIdentifier(x, y) < 0 <==> IdentifierPrecedes(x, y) {
      IdentifierOrderIsStandard(x, y);
    }
    if a != [] && b != [] {
      LexIsFirstDifference(CompareIdentifier, a, b);
    }
  }

  lemma PresAreLawful()
    ensures Lawful(ComparePre)
  {
    hide Lex;
    IdentifiersAreLawful();
    forall a, b ensures (ComparePre(a, b) == 0 <==> a == b) && ComparePre(a, b) == -ComparePre(b, a) {
      LexZero(CompareIdentifier, a, b);
      LexFlips(CompareIdentifier, a, b);
    }
    forall a, b, c | ComparePre(a, b) <= 0 && ComparePre(b, c) <= 0 ensures ComparePre(a, c) <= 0 {
      if a != [] && b != [] && c != [] {
        LexChains(CompareIdentifier, a, b, c);
      }
    }
  }

  // ---------------------------------------------------------------- versions

  datatype Base = Base(major: Uint64, minor: Uint64, patch: Uint64, pre: seq<Identifier>, build: seq<string>)

  /** A parsed tag; `revision` is the fourth part, zero when the tag has three. */
  datatype Version = Version(base: Base, revision: Uint64, fourPart: bool)

  predicate Parsed(v: Version) {
    !v.fourPart ==> v.revision == 0
  }

  predicate Legacy(v: Version) {
    !v.fourPart && v.base.major == 2 && v.base.minor == 1 && 61 <= v.base.patch <= 99
  }

  function PatchOrder(v: Version): (r: (Uint64, Uint64)) {
    if Legacy(v) then (v.base.patch / 10, v.base.patch % 10) else (v.base.patch, v.revision)
  }

  function Compare(left: Version, right: Version): int {
    var (leftPatch, leftRevision) := PatchOrder(left);
    var (rightPatch, rightRevision) := PatchOrder(right);
    if left.base.major != right.base.major then (if left.base.major < right.base.major then -1 else 1)
    else if left.base.minor != right.base.minor then (if left.base.minor < right.base.minor then -1 else 1)
    else if leftPatch != rightPatch then (if leftPatch < rightPatch then -1 else 1)
    else if leftRevision < rightRevision then -1
    else if leftRevision > rightRevision then 1
    else ComparePre(left.base.pre, right.base.pre)
  }

  /** What the order sees of a version: four numbers and the pre-release. */
  function Numbers(v: Version): seq<int> {
    [v.base.major, v.base.minor, PatchOrder(v).0, PatchOrder(v).1]
  }

  /** An independent reading: the first differing number decides, then the pre-release by section 11. */
  ghost predicate Precedes(a: Version, b: Version) {
    FirstNumberIsLess(Numbers(a), Numbers(b))
    || (Numbers(a) == Numbers(b) && PrePrecedes(a.base.pre, b.base.pre))
  }

  ghost predicate FirstNumberIsLess(x: seq<int>, y: seq<int>) {
    exists i :: 0 <= i < |x| && i < |y| && x[..i] == y[..i] && x[i] < y[i]
  }

  lemma NumberOrder(x: seq<int>, y: seq<int>)
    requires |x| == |y|
    ensures LexLess(CompareNumber, x, y) <==> FirstNumberIsLess(x, y)
  {
    if LexLess(CompareNumber, x, y) {
      var i :| 0 <= i < |x| && i < |y| && x[..i] == y[..i] && CompareNumber(x[i], y[i]) < 0;
      assert x[i] < y[i];
    }
    if FirstNumberIsLess(x, y) {
      var i :| 0 <= i < |x| && i < |y| && x[..i] == y[..i] && x[i] < y[i];
      assert CompareNumber(x[i], y[i]) < 0;
    }
  }

  lemma NumbersAreLawful()
    ensures Lawful(CompareNumber)
  {
  }

  lemma CompareIsLex(a: Version, b: Version)
    ensures Compare(a, b) ==
            if Numbers(a) == Numbers(b) then ComparePre(a.base.pre, b.base.pre)
            else Lex(CompareNumber, Numbers(a), Numbers(b))
  {
    hide ComparePre;
    var x, y := Numbers(a), Numbers(b);
    assert x[1..][1..] == x[2..] && y[1..][1..] == y[2..] && x[2..][1..] == x[3..] && y[2..][1..] == y[3..];
    assert Lex(CompareNumber, x[3..], y[3..]) == CompareNumber(x[3], y[3]) by {
      assert x[3..][1..] == [] == y[3..][1..];
    }
    assert Lex(CompareNumber, x[2..], y[2..])
        == if x[2] != y[2] then CompareNumber(x[2], y[2]) else Lex(CompareNumber, x[3..], y[3..]);
    assert Lex(CompareNumber, x[1..], y[1..])
        == if x[1] != y[1] then CompareNumber(x[1], y[1]) else Lex(CompareNumber, x[2..], y[2..]);
  }

  /**
   * The order of tags is the reference order, and ties are the versions that differ in build metadata or spelling
   * only.
   */
  lemma CompareIsReference(a: Version, b: Version)
    ensures Compare(a, b) < 0 <==> Precedes(a, b)
    ensures Compare(a, b) == 0 <==> Numbers(a) == Numbers(b) && a.base.pre == b.base.pre
    ensures Compare(a, b) == -Compare(b, a)
  {
    hide Lex, ComparePre, Compare, LexLess, FirstNumberIsLess, PrePrecedes;
    NumberOrder(Numbers(a), Numbers(b));
    CompareIsLex(a, b);
    CompareIsLex(b, a);
    NumbersAreLawful();
    LexZero(CompareNumber, Numbers(a), Numbers(b));
    LexFlips(CompareNumber, Numbers(a), Numbers(b));
    LexIsFirstDifference(CompareNumber, Numbers(a), Numbers(b));
    PresAreLawful();
    PreOrderIsStandard(a.base.pre, b.base.pre);
  }

  /** A total preorder: with the sign law above, any two versions compare and comparing chains. */
  lemma CompareChains(a: Version, b: Version, c: Version)
    requires Compare(a, b) <= 0 && Compare(b, c) <= 0
    ensures Compare(a, c) <= 0
    ensures Compare(a, b) < 0 || Compare(b, c) < 0 ==> Compare(a, c) < 0
  {
    hide Lex, ComparePre, Compare, Numbers;
    CompareIsLex(a, b);
    CompareIsLex(b, c);
    CompareIsLex(a, c);
    NumbersAreLawful();
    PresAreLawful();
    var x, y, z := Numbers(a), Numbers(b), Numbers(c);
    LexZero(CompareNumber, x, y);
    LexZero(CompareNumber, y, z);
    LexZero(CompareNumber, x, z);
    LexChains(CompareNumber, x, y, z);
    if x == z {
      LexFlips(CompareNumber, y, z);
      assert x == y;
    }
  }

  // ---------------------------------------------------------------- the legacy tags

  /** A legacy three-part tag is the same release as the four-part tag that splits its patch: 2.1.62 is 2.1.6.2. */
  lemma LegacyIsFourPart(v: Version)
    requires !v.fourPart && v.base.major == 2 && v.base.minor == 1 && 61 <= v.base.patch <= 99
    ensures Compare(v, Version(v.base.(patch := v.base.patch / 10), v.base.patch % 10, true)) == 0
  {
    CompareIsReference(v, Version(v.base.(patch := v.base.patch / 10), v.base.patch % 10, true));
  }

  /**
   * Every other tag stands for the four numbers it spells, the last being zero when it has three. So 2.1.60 and
   * 2.1.100 are ordinary patches, and so is every patch of another release line.
   */
  lemma OtherTagsByNumbers(a: Version, b: Version)
    requires Parsed(a) && Parsed(b)
    requires forall v | v == a || v == b ::
      v.fourPart || v.base.major != 2 || v.base.minor != 1 || v.base.patch <= 60 || 100 <= v.base.patch
    ensures var (x, y) := (a.base, b.base);
      Compare(a, b) < 0 <==>
        || x.major < y.major
        || (x.major == y.major && x.minor < y.minor)
        || (x.major == y.major && x.minor == y.minor && x.patch < y.patch)
        || (x.major == y.major && x.minor == y.minor && x.patch == y.patch && a.revision < b.revision)
        || (x.major == y.major && x.minor == y.minor && x.patch == y.patch && a.revision == b.revision
            && PrePrecedes(x.pre, y.pre))
  {
    hide ComparePre, PrePrecedes;
    PreOrderIsStandard(a.base.pre, b.base.pre);
  }

  /** Plain semantic versioning on the three-part core, then the pre-release. */
  function SemVer(a: Base, b: Base): int {
    if a.major != b.major then CompareNumber(a.major, b.major)
    else if a.minor != b.minor then CompareNumber(a.minor, b.minor)
    else if a.patch != b.patch then CompareNumber(a.patch, b.patch)
    else ComparePre(a.pre, b.pre)
  }

  /**
   * A legacy tag that does not come after a plain 2.1 patch numerically below it: the patch is the next
   * feature release or later, or it is the very release that the legacy tag spells, and no earlier pre-release of it.
   */
  predicate Displaced(legacy: Version, plain: Version) {
    && !legacy.fourPart && legacy.base.major == 2 && legacy.base.minor == 1 && 61 <= legacy.base.patch <= 99
    && plain.base.major == 2 && plain.base.minor == 1 && plain.base.patch < 61
    && var patch, refresh := legacy.base.patch / 10, legacy.base.patch % 10;
       plain.base.patch > patch
       || (plain.base.patch == patch && refresh == 0 && ComparePre(legacy.base.pre, plain.base.pre) != 1)
  }

  /** Three-part tags compare as semantic versions, except exactly when one is displaced: 2.1.62 comes before 2.1.7. */
  lemma ThreePartIsSemVerExactly(a: Version, b: Version)
    requires Parsed(a) && Parsed(b) && !a.fourPart && !b.fourPart
    ensures Compare(a, b) == SemVer(a.base, b.base) <==> !Displaced(a, b) && !Displaced(b, a)
  {
    hide ComparePre;
    PresAreLawful();
    assert ComparePre(a.base.pre, b.base.pre) == -ComparePre(b.base.pre, a.base.pre);
  }

  // ---------------------------------------------------------------- updates

  predicate NeedUpdate(current: Version, latest: Version) {
    Compare(latest, current) > 0
  }

  /** Updating step by step only climbs: every later version of a chain is newer than every earlier one. */
  lemma {:induction false} UpdatesClimb(chain: seq<Version>, i: nat, j: nat)
    requires forall k :: 0 <= k < |chain| - 1 ==> NeedUpdate(chain[k], chain[k + 1])
    requires i < j < |chain|
    ensures NeedUpdate(chain[i], chain[j]) && !NeedUpdate(chain[j], chain[i])
    decreases j
  {
    hide Compare;
    assert NeedUpdate(chain[j - 1], chain[j - 1 + 1]);
    CompareIsReference(chain[j], chain[j - 1]);
    if i < j - 1 {
      UpdatesClimb(chain, i, j - 1);
      CompareIsReference(chain[j - 1], chain[i]);
      CompareChains(chain[i], chain[j - 1], chain[j]);
    }
    CompareIsReference(chain[i], chain[j]);
  }

  datatype Asset = Asset(name: string, url: string)

  /** `version` is what the tag parses to. */
  datatype Release = Release(draft: bool, prerelease: bool, tag: string, version: Option<Version>, assets: seq<Asset>)

  datatype Candidate = Candidate(version: Version, tag: string, asset: Option<Asset>)

  predicate Eligible(r: Release) {
    !r.draft && !r.prerelease && r.version.Some?
  }

  /** The asset of the first wanted name that the release has. */
  ghost predicate IsAsset(assets: seq<Asset>, names: seq<string>, found: Option<Asset>) {
    match found
    case None => forall a :: a in assets ==> a.name !in names
    case Some(a) => (
      && a in assets
      && exists i :: 0 <= i < |names| && names[i] == a.name && forall b :: b in assets ==> b.name !in names[..i])
  }

  method FindAsset(assets: seq<Asset>, names: seq<string>) returns (found: Option<Asset>)
    ensures IsAsset(assets, names, found)
  {
    for i := 0 to |names|
      invariant forall a :: a in assets ==> a.name !in names[..i]
    {
      for j := 0 to |assets|
        invariant forall k :: 0 <= k < j ==> assets[k].name != names[i]
      {
        if assets[j].name == names[i] {
          return Some(assets[j]);
        }
      }
    }
    return None;
  }

  /** The chosen index: eligible, not below any eligible release, and above every earlier one. */
  ghost predicate IsLatest(releases: seq<Release>, i: nat) {
    && i < |releases| && Eligible(releases[i])
    && (forall j :: 0 <= j < |releases| && Eligible(releases[j]) ==>
          var c := Compare(releases[j].version.value, releases[i].version.value); c <= 0 && (j < i ==> c < 0))
  }

  method SelectLatestStable(releases: seq<Release>, names: seq<string>)
    returns (found: Option<Candidate>, ghost at: nat)
    ensures found.None? <==> forall r :: r in releases ==> r.draft || r.prerelease || r.version.None?
    ensures found.Some? ==>
      && IsLatest(releases, at) && !releases[at].draft && !releases[at].prerelease
      && releases[at].version == Some(found.value.version) && found.value.tag == releases[at].tag
      && IsAsset(releases[at].assets, names, found.value.asset)
    ensures found.Some? ==> forall r | r in releases && !r.draft && !r.prerelease && r.version.Some? ::
      !Precedes(found.value.version, r.version.value)
  {
    hide Compare, IsAsset, Precedes;
    found, at := None, 0;
    for i := 0 to |releases|
      invariant found.None? ==> forall j :: 0 <= j < i ==> !Eligible(releases[j])
      invariant found.Some? ==> at < i && IsLatest(releases[..i], at)
      invariant found.Some? ==> found.value.version == releases[at].version.value && found.value.tag == releases[at].tag
      invariant found.Some? ==> IsAsset(releases[at].assets, names, found.value.asset)
    {
      var release := releases[i];
      if release.draft || release.prerelease || release.version.None? {
        continue;
      }
      var version := release.version.value;
      if found.Some? && Compare(version, found.value.version) <= 0 {
        continue;
      }
      if found.Some? {
        NewLatest(releases, at, i);
      }
      CompareIsReference(version, version);
      var asset := FindAsset(release.assets, names);
      found, at := Some(Candidate(version, release.tag, asset)), i;
    }
    assert releases[..|releases|] == releases;
    if found.Some? {
      NoneIsAbove(releases, at);
    }
  }

  lemma NoneIsAbove(releases: seq<Release>, at: nat)
    requires IsLatest(releases, at)
    ensures forall r | r in releases && !r.draft && !r.prerelease && r.version.Some? ::
      !Precedes(releases[at].version.value, r.version.value)
  {
    hide Compare, Precedes;
    forall r | r in releases && !r.draft && !r.prerelease && r.version.Some?
      ensures !Precedes(releases[at].version.value, r.version.value)
    {
      CompareIsReference(r.version.value, releases[at].version.value);
      CompareIsReference(releases[at].version.value, r.version.value);
    }
  }

  lemma NewLatest(releases: seq<Release>, at: nat, i: nat)
    requires i < |releases| && IsLatest(releases[..i], at) && Eligible(releases[i])
    requires Compare(releases[i].version.value, releases[at].version.value) > 0
    ensures forall j :: 0 <= j < i && Eligible(releases[j]) ==>
                  Compare(releases[j].version.value, releases[i].version.value) < 0
  {
    hide Compare;
    var best, version := releases[at].version.value, releases[i].version.value;
    CompareIsReference(version, best);
    forall j | 0 <= j < i && Eligible(releases[j]) ensures Compare(releases[j].version.value, version) < 0 {
      assert Eligible(releases[..i][j]);
      CompareChains(releases[j].version.value, best, version);
    }
  }

  /** An update is offered exactly when some stable release comes after the running version. */
  lemma UpdateOfferedExactly(releases: seq<Release>, at: nat, current: Version)
    requires IsLatest(releases, at)
    ensures NeedUpdate(current, releases[at].version.value)
            <==> exists r :: r in releases && !r.draft && !r.prerelease && r.version.Some?
                             && Precedes(current, r.version.value)
  {
    hide Compare, Precedes;
    CompareIsReference(current, releases[at].version.value);
    CompareIsReference(releases[at].version.value, current);
    var best := releases[at].version.value;
    if r :| r in releases && Eligible(r) && Precedes(current, r.version.value) {
      CompareIsReference(r.version.value, current);
      CompareIsReference(current, r.version.value);
      CompareChains(current, r.version.value, best);
      CompareIsReference(current, best);
    }
  }
}
