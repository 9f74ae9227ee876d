/**
 Version precedence and update acceptance, apps/app/desktop/src/update-policy.ts.
 Precedence is that of section 11 of Semantic Versioning 2.0.0; numbers are unbounded.
 */
module UpdatePolicy {
  import opened Options
  import opened Strings

  datatype Ident = Num(n: nat) | Str(s: string)

  datatype Version = Version(core: seq<int>, prerelease: seq<Ident>)

  // ----- Parsing

  predicate IsSpace(c: char) {
    c in {' ', '\t', '\n', '\r', '\U{000B}', '\U{000C}', '\U{00A0}', '\U{1680}', '\U{2028}', '\U{2029}',
          '\U{202F}', '\U{205F}', '\U{3000}', '\U{FEFF}'} || '\U{2000}' <= c <= '\U{200A}'
  }

  function TrimStart(s: string): string {
    if s != "" && IsSpace(s[0]) then TrimStart(s[1..]) else s
  }

  function TrimEnd(s: string): string {
    if s != "" && IsSpace(s[|s| - 1]) then TrimEnd(s[..|s| - 1]) else s
  }

  predicate IdentChar(c: char) {
    IsDigit(c) || 'A' <= c <= 'Z' || 'a' <= c <= 'z' || c == '-'
  }

  predicate IsIdent(s: string) {
    s != "" && forall i :: 0 <= i < |s| ==> IdentChar(s[i])
  }

  predicate AllIdents(parts: seq<string>) {
    forall i :: 0 <= i < |parts| ==> IsIdent(parts[i])
  }

  function ParseIdentifier(s: string): Ident {
    if Canonical(s) then Num(Value(s)) else Str(s)
  }

  function ParseIdentifiers(parts: seq<string>): (ids: seq<Ident>)
    ensures |ids| == |parts| && forall i :: 0 <= i < |ids| ==> ids[i] == ParseIdentifier(parts[i])
  {
    seq(|parts|, i requires 0 <= i < |parts| => ParseIdentifier(parts[i]))
  }

  function ParseVersion(value: string): Option<Version> {
    var (main, build) := Cut(TrimEnd(TrimStart(value)), '+');
    if build.Some? && !AllIdents(Split(build.value, '.')) then None else ParseMain(main)
  }

  /** The text in front of any build metadata. */
  function ParseMain(main: string): Option<Version> {
    var (core, pre) := Cut(main, '-');
    var numbers := Split(core, '.');
    if pre.Some? && !AllIdents(Split(pre.value, '.')) then None
    else if |numbers| != 3 || !Canonical(numbers[0]) || !Canonical(numbers[1]) || !Canonical(numbers[2]) then None
    else Some(Version([Value(numbers[0]), Value(numbers[1]), Value(numbers[2])],
                      if pre.Some? then ParseIdentifiers(Split(pre.value, '.')) else []))
  }

  // ----- Comparing

  function CompareInts(a: int, b: int): int {
    if a < b then -1 else if a > b then 1 else 0
  }

  function CompareChars(a: char, b: char): int {
    CompareInts(a as int, b as int)
  }

  /** Lexicographic comparison; a proper prefix comes first. */
  function Lex<T>(a: seq<T>, b: seq<T>, cmp: (T, T) -> int): int {
    if a == [] || b == [] then CompareInts(|a|, |b|)
    else if cmp(a[0], b[0]) != 0 then cmp(a[0], b[0])
    else Lex(a[1..], b[1..], cmp)
  }

  function CompareIdentifiers(left: Ident, right: Ident): int {
    if left == right then 0
    else match (left, right)
      case (Num(a), Num(b)) => if a < b then -1 else 1
      case (Num(_), _) => -1
      case (_, Num(_)) => 1
      case (Str(a), Str(b)) => if Lex(a, b, CompareChars) < 0 then -1 else 1
  }

  function Compare(left: Version, right: Version): int {
    if left.core != right.core then Lex(left.core, right.core, CompareInts)
    else if left.prerelease == [] && right.prerelease == [] then 0
    else if left.prerelease == [] then 1
    else if right.prerelease == [] then -1
    else Lex(left.prerelease, right.prerelease, CompareIdentifiers)
  }

  method CompareParsed(left: Version, right: Version) returns (sign: int)
    requires |left.core| == 3 && |right.core| == 3
    ensures sign == Compare(left, right)
  {
    for index := 0 to 3
      invariant left.core[..index] == right.core[..index]
    {
      if left.core[index] != right.core[index] {
        SkipEqual(left.core, right.core, index, CompareInts);
        return if left.core[index] < right.core[index] then -1 else 1;
      }
    }
    assert left.core == right.core by { assert left.core[..3] == left.core && right.core[..3] == right.core; }
    var l, r := left.prerelease, right.prerelease;
    if |l| == 0 && |r| == 0 { return 0; }
    if |l| == 0 { return 1; }
    if |r| == 0 { return -1; }
    var count := if |l| >= |r| then |l| else |r|;
    for index := 0 to count
      invariant index <= |l| && index <= |r| && l[..index] == r[..index]
    {
      SkipEqual(l, r, index, CompareIdentifiers);
      if index >= |l| { return -1; }
      if index >= |r| { return 1; }
      var compared := CompareIdentifiers(l[index], r[index]);
      if compared != 0 { return compared; }
      assert l[..index + 1] == l[..index] + [l[index]] && r[..index + 1] == r[..index] + [r[index]];
    }
    SkipEqual(l, r, count, CompareIdentifiers);
    return 0;
  }

  lemma {:induction false} SkipEqual<T>(a: seq<T>, b: seq<T>, k: nat, cmp: (T, T) -> int)
    requires k <= |a| && k <= |b| && a[..k] == b[..k]
    requires forall i :: 0 <= i < k ==> cmp(a[i], a[i]) == 0
    ensures Lex(a, b, cmp) == Lex(a[k..], b[k..], cmp)
  {
    if k > 0 {
      assert a[0] == a[..k][0] == b[0];
      assert a[1..][..k - 1] == a[..k][1..] && b[1..][..k - 1] == b[..k][1..];
      SkipEqual(a[1..], b[1..], k - 1, cmp);
      assert a[1..][k - 1..] == a[k..] && b[1..][k - 1..] == b[k..];
    } else {
      assert a[0..] == a && b[0..] == b;
    }
  }

  // ----- A total order

  ghost predicate TotalOrder<T(!new)>(cmp: (T, T) -> int) {
    && (forall x, y :: cmp(x, y) == 0 <==> x == y)
    && (forall x, y :: cmp(y, x) == -cmp(x, y))
    && (forall x, y, z :: cmp(x, y) < 0 && cmp(y, z) < 0 ==> cmp(x, z) < 0)
  }

  lemma {:induction false} LexSign<T(!new)>(a: seq<T>, b: seq<T>, cmp: (T, T) -> int)
    requires TotalOrder(cmp)
    ensures Lex(a, b, cmp) == 0 <==> a == b
    ensures Lex(b, a, cmp) == -Lex(a, b, cmp)
  {
    if a != [] && b != [] {
      LexSign(a[1..], b[1..], cmp);
      assert a == [a[0]] + a[1..] && b == [b[0]] + b[1..];
      assert cmp(b[0], a[0]) == -cmp(a[0], b[0]);
    }
  }

  lemma {:induction false} LexTransitive<T(!new)>(a: seq<T>, b: seq<T>, c: seq<T>, cmp: (T, T) -> int)
    requires TotalOrder(cmp) && Lex(a, b, cmp) < 0 && Lex(b, c, cmp) < 0
    ensures Lex(a, c, cmp) < 0
  {
    if a != [] && b != [] && c != [] {
      if cmp(a[0], b[0]) == 0 && cmp(b[0], c[0]) == 0 {
        LexTransitive(a[1..], b[1..], c[1..], cmp);
      }
    }
  }

  lemma IdentifiersTotal()
    ensures TotalOrder(CompareIdentifiers)
  {
    assert TotalOrder(CompareChars);
    forall x, y ensures CompareIdentifiers(x, y) == 0 <==> x == y {
    }
    forall x, y ensures CompareIdentifiers(y, x) == -CompareIdentifiers(x, y) {
      if x.Str? && y.Str? { LexSign(x.s, y.s, CompareChars); }
    }
    forall x, y, z | CompareIdentifiers(x, y) < 0 && CompareIdentifiers(y, z) < 0
      ensures CompareIdentifiers(x, z) < 0
    {
      if x.Str? && y.Str? && z.Str? {
        LexTransitive(x.s, y.s, z.s, CompareChars);
        LexSign(x.s, z.s, CompareChars);
      }
    }
  }

  /** Sign-antisymmetric, and zero only on equal versions. */
  lemma CompareSign(a: Version, b: Version)
    ensures Compare(a, b) == 0 <==> a == b
    ensures Compare(b, a) == -Compare(a, b)
  {
    IdentifiersTotal();
    assert TotalOrder(CompareInts);
    LexSign(a.core, b.core, CompareInts);
    LexSign(a.prerelease, b.prerelease, CompareIdentifiers);
  }

  lemma CompareTransitive(a: Version, b: Version, c: Version)
    requires Compare(a, b) < 0 && Compare(b, c) < 0
    ensures Compare(a, c) < 0
  {
    IdentifiersTotal();
    assert TotalOrder(CompareInts);
    LexSign(a.core, c.core, CompareInts);
    if a.core != b.core && b.core != c.core {
      LexTransitive(a.core, b.core, c.core, CompareInts);
    } else if a.core == b.core == c.core && a.prerelease != [] && b.prerelease != [] && c.prerelease != [] {
      LexTransitive(a.prerelease, b.prerelease, c.prerelease, CompareIdentifiers);
    }
  }

  // ----- The same order, as section 11 words it

  /** Some first difference decides, or the shorter list ends first. */
  ghost predicate FirstDifference<T(!new)>(a: seq<T>, b: seq<T>, less: (T, T) -> bool) {
    exists k :: DiffersAt(a, b, k, less)
  }

  ghost predicate DiffersAt<T(!new)>(a: seq<T>, b: seq<T>, k: int, less: (T, T) -> bool) {
    && 0 <= k <= |a| && k <= |b| && a[..k] == b[..k]
    && if k < |a| && k < |b| then less(a[k], b[k]) else k == |a| < |b|
  }

  predicate CharBefore(a: char, b: char) { a < b }

  predicate IntBefore(a: int, b: int) { a < b }

  /** 11.4.1 to 11.4.3: numbers numerically, text in ASCII order, numbers below text. */
  ghost predicate IdentBefore(a: Ident, b: Ident) {
    match (a, b)
    case (Num(x), Num(y)) => x < y
    case (Num(_), Str(_)) => true
    case (Str(_), Num(_)) => false
    case (Str(x), Str(y)) => FirstDifference(x, y, CharBefore)
  }

  ghost function IdentOrder(): (Ident, Ident) -> bool {
    (a, b) => IdentBefore(a, b)
  }

  /** 11.2 to 11.4: core first, then a pre-release below its release, then field by field. */
  ghost predicate LowerPrecedence(a: Version, b: Version) {
    if a.core != b.core then FirstDifference(a.core, b.core, IntBefore)
    else if b.prerelease == [] then a.prerelease != []
    else a.prerelease != [] && FirstDifference(a.prerelease, b.prerelease, IdentOrder())
  }

  lemma {:induction false} LexIsFirstDifference<T(!new)>(a: seq<T>, b: seq<T>, cmp: (T, T) -> int, less: (T, T) -> bool)
    requires TotalOrder(cmp) && forall x, y :: less(x, y) <==> cmp(x, y) < 0
    ensures Lex(a, b, cmp) < 0 <==> FirstDifference(a, b, less)
  {
    if a == [] || b == [] {
      if a == [] && b != [] { assert DiffersAt(a, b, 0, less); }
    } else if a[0] == b[0] {
      LexIsFirstDifference(a[1..], b[1..], cmp, less);
      ShiftDifference(a, b, less);
    } else {
      DiffersAtOnce(a, b, less);
    }
  }

  lemma DiffersAtOnce<T(!new)>(a: seq<T>, b: seq<T>, less: (T, T) -> bool)
    requires a != [] && b != [] && a[0] != b[0]
    ensures FirstDifference(a, b, less) <==> less(a[0], b[0])
  {
    assert a[..0] == b[..0];
    if less(a[0], b[0]) { assert DiffersAt(a, b, 0, less); }
    forall k | 0 < k <= |a| && k <= |b| ensures !DiffersAt(a, b, k, less) {
      assert a[..k][0] == a[0] && b[..k][0] == b[0];
    }
  }

  lemma DiffersEarlier<T(!new)>(a: seq<T>, b: seq<T>, k: nat, less: (T, T) -> bool)
    requires a != [] && b != [] && a[0] == b[0]
    ensures DiffersAt(a, b, k + 1, less) <==> DiffersAt(a[1..], b[1..], k, less)
  {
    var x, y := a[1..], b[1..];
    if k < |a| && k < |b| {
      assert a[..k + 1] == [a[0]] + x[..k] && b[..k + 1] == [b[0]] + y[..k];
      assert x[..k] == a[..k + 1][1..] && y[..k] == b[..k + 1][1..];
    }
  }

  lemma ShiftDifference<T(!new)>(a: seq<T>, b: seq<T>, less: (T, T) -> bool)
    requires a != [] && b != [] && a[0] == b[0] && !less(a[0], a[0])
    ensures FirstDifference(a, b, less) <==> FirstDifference(a[1..], b[1..], less)
  {
    if FirstDifference(a, b, less) {
      var k :| DiffersAt(a, b, k, less);
      DiffersEarlier(a, b, k - 1, less);
    }
    if FirstDifference(a[1..], b[1..], less) {
      var k :| DiffersAt(a[1..], b[1..], k, less);
      DiffersEarlier(a, b, k, less);
    }
  }

  /** The comparison ranks a version lower exactly when section 11 does. */
  lemma CompareFollowsSemVer(a: Version, b: Version)
    ensures Compare(a, b) < 0 <==> LowerPrecedence(a, b)
  {
    IdentifiersTotal();
    forall x, y ensures IdentOrder()(x, y) <==> CompareIdentifiers(x, y) < 0 {
      if x.Str? && y.Str? {
        LexIsFirstDifference(x.s, y.s, CompareChars, CharBefore);
        LexSign(x.s, y.s, CompareChars);
      }
    }
    LexIsFirstDifference(a.core, b.core, CompareInts, IntBefore);
    LexIsFirstDifference(a.prerelease, b.prerelease, CompareIdentifiers, IdentOrder());
  }

  // ----- Accepting updates

  predicate IsBeta(v: Version) {
    |v.prerelease| == 2 && v.prerelease[0] == Str("beta") && v.prerelease[1].Num?
  }

  predicate IsStable(v: Version) {
    v.prerelease == []
  }

  predicate Accepts(current: Version, candidate: Version) {
    && !(Compare(candidate, current) <= 0)
    && if !IsBeta(current) then IsStable(candidate) else IsStable(candidate) || IsBeta(candidate)
  }

  predicate ShouldAcceptUpdate(currentVersion: string, candidateVersion: string) {
    var current, candidate := ParseVersion(currentVersion), ParseVersion(candidateVersion);
    current.Some? && candidate.Some? && Accepts(current.value, candidate.value)
  }

  /** A history of installed versions, each update accepted by its predecessor. */
  predicate Chain(versions: seq<string>) {
    forall i :: 0 <= i < |versions| - 1 ==> ShouldAcceptUpdate(versions[i], versions[i + 1])
  }

  function Parsed(version: string): Version {
    var p := ParseVersion(version);
    if p.Some? then p.value else Version([], [])
  }

  function ParsedAll(versions: seq<string>): (r: seq<Version>)
    ensures |r| == |versions| && forall i :: 0 <= i < |r| ==> r[i] == Parsed(versions[i])
  {
    seq(|versions|, i requires 0 <= i < |versions| => Parsed(versions[i]))
  }

  predicate AcceptedRun(vs: seq<Version>) {
    forall i :: 0 <= i < |vs| - 1 ==> Accepts(vs[i], vs[i + 1])
  }

  /** Every chain strictly ascends: no version ever returns. */
  lemma ChainAscends(versions: seq<string>, i: nat, j: nat)
    requires Chain(versions) && i < j < |versions|
    ensures Compare(Parsed(versions[i]), Parsed(versions[j])) < 0
    ensures versions[i] != versions[j]
  {
    RunAscends(ParsedAll(versions), i, j);
    CompareSign(Parsed(versions[i]), Parsed(versions[i]));
  }

  /**
   The channel never widens: whatever is installed later is stable, or a numbered beta
   reached through numbered betas only.
   */
  lemma ChainKeepsChannel(versions: seq<string>, i: nat, j: nat)
    requires Chain(versions) && i < j < |versions|
    ensures IsStable(Parsed(versions[i])) ==> IsStable(Parsed(versions[j]))
    ensures IsStable(Parsed(versions[j])) || (IsBeta(Parsed(versions[j])) && IsBeta(Parsed(versions[i])))
  {
    RunKeepsChannel(ParsedAll(versions), i, j);
  }

  lemma {:induction false} RunAscends(vs: seq<Version>, i: nat, j: nat)
    requires AcceptedRun(vs) && i < j < |vs|
    ensures Compare(vs[i], vs[j]) < 0
  {
    var k := j - 1;
    assert Accepts(vs[k], vs[k + 1]);
    CompareSign(vs[k], vs[j]);
    if i < k {
      RunAscends(vs, i, k);
      CompareTransitive(vs[i], vs[k], vs[j]);
    }
  }

  lemma {:induction false} RunKeepsChannel(vs: seq<Version>, i: nat, j: nat)
    requires AcceptedRun(vs) && i < j < |vs|
    ensures IsStable(vs[i]) ==> IsStable(vs[j])
    ensures IsStable(vs[j]) || (IsBeta(vs[j]) && IsBeta(vs[i]))
  {
    var k := j - 1;
    assert Accepts(vs[k], vs[k + 1]);
    if i < k { RunKeepsChannel(vs, i, k); }
  }

  // ----- Channel policy

  datatype Policy = Policy(channel: string, allowPrerelease: bool, allowDowngrade: bool,
                           automaticCheck: bool, installOnQuit: bool)

  function UpdatePolicyForVersion(version: string): Option<Policy> {
    match ParseVersion(version)
    case None => None
    case Some(v) =>
      var beta := IsBeta(v);
      Some(Policy(if beta then "beta" else "latest", beta, false, !beta, !beta))
  }

  /** Electron's updater: assigning the channel turns downgrades on. */
  class Updater {
    var channel: string
    var allowPrerelease: bool
    var allowDowngrade: bool

    constructor () { channel, allowPrerelease, allowDowngrade := "", false, true; }

    method SetChannel(name: string)
      modifies this
      ensures channel == name && allowDowngrade && allowPrerelease == old(allowPrerelease)
    {
      channel := name;
      allowDowngrade := true;
    }

    /** An invalid version leaves the updater alone; otherwise downgrades end up off. */
    method ConfigureAutoUpdater(installedVersion: string) returns (policy: Option<Policy>)
      modifies this
      ensures policy == UpdatePolicyForVersion(installedVersion)
      ensures policy.None? ==> unchanged(this)
      ensures policy.Some? ==> !allowDowngrade && channel == policy.value.channel
      ensures policy.Some? ==> (allowPrerelease <==> channel == "beta")
    {
      policy := UpdatePolicyForVersion(installedVersion);
      if policy.Some? {
        SetChannel(policy.value.channel);
        allowPrerelease := policy.value.allowPrerelease;
        allowDowngrade := false;
      }
    }
  }

  // ----- Printing and parsing again

  function PrintIdent(i: Ident): string {
    match i case Num(n) => Decimal(n) case Str(s) => s
  }

  function PrintIdents(ids: seq<Ident>): (parts: seq<string>)
    ensures |parts| == |ids| && forall i :: 0 <= i < |ids| ==> parts[i] == PrintIdent(ids[i])
  {
    seq(|ids|, i requires 0 <= i < |ids| => PrintIdent(ids[i]))
  }

  predicate ThreeNumbers(v: Version) {
    |v.core| == 3 && v.core[0] >= 0 && v.core[1] >= 0 && v.core[2] >= 0
  }

  function PrintCore(v: Version): string
    requires ThreeNumbers(v)
  {
    Join([Decimal(v.core[0]), Decimal(v.core[1]), Decimal(v.core[2])], '.')
  }

  function Print(v: Version): string
    requires ThreeNumbers(v)
  {
    if v.prerelease == [] then PrintCore(v)
    else PrintCore(v) + ['-'] + Join(PrintIdents(v.prerelease), '.')
  }

  /** What the grammar can express: three numbers, textual identifiers that are not numerals. */
  predicate WellFormed(v: Version) {
    && ThreeNumbers(v)
    && forall i :: 0 <= i < |v.prerelease| ==>
         v.prerelease[i].Str? ==> IsIdent(v.prerelease[i].s) && !Canonical(v.prerelease[i].s)
  }

  /** Parsing inverts printing. */
  lemma ParsePrint(v: Version)
    requires WellFormed(v)
    ensures ParseVersion(Print(v)) == Some(v)
  {
    PrintedChars(v);
    PlainText(Print(v));
    ParseMainPrint(v);
  }

  lemma ParseMainPrint(v: Version)
    requires WellFormed(v)
    ensures ParseMain(Print(v)) == Some(v)
  {
    var text := Print(v);
    CoreText(v);
    assert v.core == [v.core[0], v.core[1], v.core[2]];
    if v.prerelease == [] {
      CutUnbroken(text, '-');
    } else {
      PrereleaseText(v);
    }
  }

  lemma PrereleaseText(v: Version)
    requires WellFormed(v) && v.prerelease != []
    ensures TrimEnd(TrimStart(Print(v))) == Print(v) && Cut(Print(v), '+') == (Print(v), None)
    ensures Cut(Print(v), '-') == (PrintCore(v), Some(Join(PrintIdents(v.prerelease), '.')))
    ensures Split(Join(PrintIdents(v.prerelease), '.'), '.') == PrintIdents(v.prerelease)
    ensures AllIdents(PrintIdents(v.prerelease)) && ParseIdentifiers(PrintIdents(v.prerelease)) == v.prerelease
  {
    var parts := PrintIdents(v.prerelease);
    CoreText(v);
    PrintedIdents(v.prerelease);
    JoinChars(parts);
    PlainText(Print(v));
    CutFirst(PrintCore(v), '-', Join(parts, '.'));
    SplitJoin(parts, '.');
  }

  predicate PlainChar(c: char) { IdentChar(c) || c == '.' }

  lemma PlainNotBlank(c: char)
    requires PlainChar(c)
    ensures !IsSpace(c) && c != '+'
  {
  }

  /** Printed versions contain neither blanks nor a plus sign. */
  lemma PlainText(s: string)
    requires forall i :: 0 <= i < |s| ==> PlainChar(s[i])
    ensures TrimEnd(TrimStart(s)) == s && Cut(s, '+') == (s, None)
  {
    forall i | 0 <= i < |s| ensures !IsSpace(s[i]) && s[i] != '+' { PlainNotBlank(s[i]); }
    hide IsSpace, PlainChar;
    CutUnbroken(s, '+');
    assert TrimStart(s) == s;
  }

  lemma CoreText(v: Version)
    requires ThreeNumbers(v)
    ensures Split(PrintCore(v), '.') == [Decimal(v.core[0]), Decimal(v.core[1]), Decimal(v.core[2])]
    ensures forall i :: 0 <= i < |PrintCore(v)| ==> IsDigit(PrintCore(v)[i]) || PrintCore(v)[i] == '.'
    ensures Canonical(Decimal(v.core[0])) && Value(Decimal(v.core[0])) == v.core[0]
    ensures Canonical(Decimal(v.core[1])) && Value(Decimal(v.core[1])) == v.core[1]
    ensures Canonical(Decimal(v.core[2])) && Value(Decimal(v.core[2])) == v.core[2]
  {
    var a, b, c := Decimal(v.core[0]), Decimal(v.core[1]), Decimal(v.core[2]);
    JoinThree(a, b, c, '.');
    SplitJoin([a, b, c], '.');
    DecimalIsCanonical(v.core[0]);
    DecimalIsCanonical(v.core[1]);
    DecimalIsCanonical(v.core[2]);
  }

  lemma JoinThree(a: string, b: string, c: string, sep: char)
    ensures Join([a, b, c], sep) == a + [sep] + (b + [sep] + c)
  {
    assert [a, b, c][1..] == [b, c] && [b, c][1..] == [c];
    assert Join([c], sep) == c;
    assert Join([b, c], sep) == b + [sep] + Join([c], sep);
  }

  lemma PrintedIdents(ids: seq<Ident>)
    requires forall i :: 0 <= i < |ids| ==> ids[i].Str? ==> IsIdent(ids[i].s) && !Canonical(ids[i].s)
    ensures AllIdents(PrintIdents(ids))
    ensures forall i :: 0 <= i < |ids| ==> ParseIdentifier(PrintIdent(ids[i])) == ids[i]
  {
    forall i | 0 <= i < |ids|
      ensures IsIdent(PrintIdent(ids[i])) && ParseIdentifier(PrintIdent(ids[i])) == ids[i]
    {
      if ids[i].Num? { DecimalIsCanonical(ids[i].n); }
    }
  }

  lemma {:induction false} JoinChars(parts: seq<string>)
    requires parts != [] && AllIdents(parts)
    ensures forall i :: 0 <= i < |Join(parts, '.')| ==> PlainChar(Join(parts, '.')[i])
  {
    if |parts| > 1 { JoinChars(parts[1..]); }
  }

  /** The text apart from surrounding blanks and build metadata. */
  function Essential(value: string): string {
    Cut(TrimEnd(TrimStart(value)), '+').0
  }

  lemma PrintsBack(part: string)
    requires IsIdent(part)
    ensures PrintIdent(ParseIdentifier(part)) == part
  {
    if Canonical(part) { CanonicalDecimal(part); }
  }

  lemma CorePrintsBack(numbers: seq<string>, v: Version)
    requires |numbers| == 3 && Canonical(numbers[0]) && Canonical(numbers[1]) && Canonical(numbers[2])
    requires v.core == [Value(numbers[0]), Value(numbers[1]), Value(numbers[2])]
    ensures PrintCore(v) == Join(numbers, '.')
  {
    CanonicalDecimal(numbers[0]);
    CanonicalDecimal(numbers[1]);
    CanonicalDecimal(numbers[2]);
    assert numbers == [numbers[0], numbers[1], numbers[2]];
  }

  /** Printing inverts parsing on every text the grammar accepts, and what is parsed is well-formed. */
  lemma PrintParse(value: string)
    requires ParseVersion(value).Some?
    ensures WellFormed(ParseVersion(value).value) && Print(ParseVersion(value).value) == Essential(value)
  {
    hide TrimStart, TrimEnd, ParseMain, Cut, WellFormed, Print;
    MainPrintsBack(Essential(value));
  }

  lemma {:induction false} MainPrintsBack(main: string)
    requires ParseMain(main).Some?
    ensures WellFormed(ParseMain(main).value) && Print(ParseMain(main).value) == main
  {
    hide IsIdent, Canonical, Cut, Split, Join;
    var v, core, pre := ParseMain(main).value, Cut(main, '-').0, Cut(main, '-').1;
    CutRejoins(main, '-');
    JoinSplit(core, '.');
    CorePrintsBack(Split(core, '.'), v);
    if pre.Some? {
      JoinSplit(pre.value, '.');
      IdentsPrintBack(Split(pre.value, '.'));
    }
  }

  lemma {:induction false} IdentsPrintBack(parts: seq<string>)
    requires AllIdents(parts)
    ensures PrintIdents(ParseIdentifiers(parts)) == parts
    ensures forall i :: 0 <= i < |parts| ==> ParseIdentifiers(parts)[i].Str? ==>
      IsIdent(ParseIdentifiers(parts)[i].s) && !Canonical(ParseIdentifiers(parts)[i].s)
  {
    hide IsIdent, Canonical;
    forall i | 0 <= i < |parts| ensures PrintIdents(ParseIdentifiers(parts))[i] == parts[i] { PrintsBack(parts[i]); }
  }

  /** Two accepted texts are the same version exactly when they agree apart from blanks and build metadata. */
  lemma SameVersionIff(a: string, b: string)
    requires ParseVersion(a).Some? && ParseVersion(b).Some?
    ensures Compare(ParseVersion(a).value, ParseVersion(b).value) == 0 <==> Essential(a) == Essential(b)
  {
    PrintParse(a);
    PrintParse(b);
    CompareSign(ParseVersion(a).value, ParseVersion(b).value);
    ParsePrint(ParseVersion(a).value);
    ParsePrint(ParseVersion(b).value);
  }

  // ----- The accepted texts, by their grammar

  /** Nothing, or a plus sign and identifiers between dots. */
  ghost predicate IsBuild(build: string) {
    build == "" || exists parts :: parts != [] && AllIdents(parts) && build == ['+'] + Join(parts, '.')
  }

  predicate Blank(w: string) {
    forall i :: 0 <= i < |w| ==> IsSpace(w[i])
  }

  /** The text is a version with its build metadata, between blanks. */
  ghost predicate Spells(value: string, w: string, v: Version, build: string, w': string) {
    Blank(w) && Blank(w') && WellFormed(v) && IsBuild(build) && value == w + (Print(v) + build) + w'
  }

  lemma {:induction false} TrimStartOf(w: string, t: string)
    requires Blank(w) && (t == "" || !IsSpace(t[0]))
    ensures TrimStart(w + t) == t
  {
    hide IsSpace;
    if w == "" {
      assert w + t == t;
    } else {
      assert (w + t)[1..] == w[1..] + t;
      TrimStartOf(w[1..], t);
    }
  }

  lemma {:induction false} TrimEndOf(t: string, w: string)
    requires Blank(w) && (t == "" || !IsSpace(t[|t| - 1]))
    ensures TrimEnd(t + w) == t
  {
    hide IsSpace;
    if w == "" {
      assert t + w == t;
    } else {
      assert (t + w)[..|t + w| - 1] == t + w[..|w| - 1];
      TrimEndOf(t, w[..|w| - 1]);
    }
  }

  lemma {:induction false} StartTrimmed(s: string) returns (w: string)
    ensures Blank(w) && s == w + TrimStart(s)
  {
    hide IsSpace;
    if s != "" && IsSpace(s[0]) {
      var rest := StartTrimmed(s[1..]);
      w := [s[0]] + rest;
      assert s == [s[0]] + s[1..];
    } else {
      w := "";
    }
  }

  lemma {:induction false} EndTrimmed(s: string) returns (w: string)
    ensures Blank(w) && s == TrimEnd(s) + w
  {
    hide IsSpace;
    if s != "" && IsSpace(s[|s| - 1]) {
      var rest := EndTrimmed(s[..|s| - 1]);
      w := rest + [s[|s| - 1]];
      assert s == s[..|s| - 1] + [s[|s| - 1]];
    } else {
      w := "";
    }
  }

  /** Printed versions and build metadata consist of plain characters and the plus sign. */
  lemma SpelledChars(v: Version, build: string)
    requires WellFormed(v) && IsBuild(build)
    ensures Print(v) != "" && '+' !in Print(v)
    ensures forall i :: 0 <= i < |Print(v) + build| ==> !IsSpace((Print(v) + build)[i])
  {
    var text := Print(v) + build;
    PrintedChars(v);
    if build != "" {
      var parts :| parts != [] && AllIdents(parts) && build == ['+'] + Join(parts, '.');
      JoinChars(parts);
    }
    forall i | 0 <= i < |text| ensures !IsSpace(text[i]) {
      if text[i] != '+' { PlainNotBlank(text[i]); }
    }
    forall i | 0 <= i < |Print(v)| ensures Print(v)[i] != '+' { PlainNotBlank(Print(v)[i]); }
  }

  lemma PrintedChars(v: Version)
    requires WellFormed(v)
    ensures Print(v) != "" && forall i :: 0 <= i < |Print(v)| ==> PlainChar(Print(v)[i])
  {
    CoreText(v);
    JoinThree(Decimal(v.core[0]), Decimal(v.core[1]), Decimal(v.core[2]), '.');
    if v.prerelease != [] {
      PrintedIdents(v.prerelease);
      JoinChars(PrintIdents(v.prerelease));
    }
  }

  lemma {:induction false} TrimmedIs(w: string, t: string, w': string)
    requires Blank(w) && Blank(w') && t != "" && forall i :: 0 <= i < |t| ==> !IsSpace(t[i])
    ensures TrimEnd(TrimStart(w + t + w')) == t
  {
    hide IsSpace;
    assert w + t + w' == w + (t + w');
    TrimStartOf(w, t + w');
    TrimEndOf(t, w');
  }

  lemma SpelledIsParsed(value: string, w: string, v: Version, build: string, w': string)
    requires Spells(value, w, v, build, w')
    ensures ParseVersion(value) == Some(v)
  {
    var main := Print(v);
    SpelledChars(v, build);
    TrimmedIs(w, main + build, w');
    ParseMainPrint(v);
    hide TrimStart, TrimEnd, IsSpace, ParseMain, WellFormed;
    if build == "" {
      assert main + build == main;
      CutUnbroken(main, '+');
    } else {
      var parts :| parts != [] && AllIdents(parts) && build == ['+'] + Join(parts, '.');
      assert main + build == main + ['+'] + Join(parts, '.');
      CutFirst(main, '+', Join(parts, '.'));
      IdentsHaveNoDot(parts);
      SplitJoin(parts, '.');
    }
  }

  lemma IdentsHaveNoDot(parts: seq<string>)
    requires AllIdents(parts)
    ensures forall i :: 0 <= i < |parts| ==> '.' !in parts[i]
  {
    forall i | 0 <= i < |parts| ensures '.' !in parts[i] {
      assert IsIdent(parts[i]);
    }
  }

  /** A text is accepted, as version v, exactly when it spells v, with or without build metadata, between blanks. */
  lemma ParsedIff(value: string, v: Version)
    ensures ParseVersion(value) == Some(v) <==> exists w, build, w' :: Spells(value, w, v, build, w')
  {
    if w, build, w' :| Spells(value, w, v, build, w') { SpelledIsParsed(value, w, v, build, w'); }
    if ParseVersion(value) == Some(v) {
      var w, build, w' := ParsedIsSpelled(value, v);
    }
  }

  lemma ParsedIsSpelled(value: string, v: Version) returns (w: string, build: string, w': string)
    requires ParseVersion(value) == Some(v)
    ensures Spells(value, w, v, build, w')
  {
    PrintParse(value);
    hide TrimStart, TrimEnd, ParseMain, WellFormed, Print, IsSpace, Cut, Split, AllIdents, Blank;
    w := StartTrimmed(value);
    w' := EndTrimmed(TrimStart(value));
    var text := TrimEnd(TrimStart(value));
    build := BuildOf(text);
    hide IsBuild;
    assert w + (text + w') == w + text + w';
  }

  lemma BuildOf(text: string) returns (build: string)
    requires Cut(text, '+').1.Some? ==> AllIdents(Split(Cut(text, '+').1.value, '.'))
    ensures IsBuild(build) && text == Cut(text, '+').0 + build
  {
    hide AllIdents;
    CutRejoins(text, '+');
    var rest := Cut(text, '+').1;
    hide Cut;
    build := "";
    if rest.Some? {
      JoinSplit(rest.value, '.');
      build := ['+'] + rest.value;
      assert Cut(text, '+').0 + ['+'] + rest.value == Cut(text, '+').0 + build;
    } else {
      assert Cut(text, '+').0 + "" == Cut(text, '+').0;
    }
  }

  /** A numbered beta: the pre-release is `beta` and a number. */
  ghost predicate BetaNumber(v: Version) {
    exists n :: v.prerelease == [Str("beta"), Num(n)]
  }

  lemma BetaIff(v: Version)
    ensures IsBeta(v) <==> BetaNumber(v)
  {
    if IsBeta(v) {
      var n := v.prerelease[1].n;
      assert v.prerelease == [Str("beta"), Num(n)];
    }
  }

  /**
   An update is accepted exactly when both texts are versions, the candidate has higher
   precedence, and it is stable, or a numbered beta on top of a numbered beta.
   */
  lemma AcceptedIff(currentVersion: string, candidateVersion: string)
    ensures ShouldAcceptUpdate(currentVersion, candidateVersion) <==>
            && ParseVersion(currentVersion).Some? && ParseVersion(candidateVersion).Some?
            && var current, candidate := ParseVersion(currentVersion).value, ParseVersion(candidateVersion).value;
               LowerPrecedence(current, candidate)
               && (candidate.prerelease == [] || (BetaNumber(current) && BetaNumber(candidate)))
  {
    if ParseVersion(currentVersion).Some? && ParseVersion(candidateVersion).Some? {
      var current, candidate := ParseVersion(currentVersion).value, ParseVersion(candidateVersion).value;
      CompareFollowsSemVer(current, candidate);
      CompareSign(current, candidate);
      BetaIff(current);
      BetaIff(candidate);
    }
  }

  /** Numbered betas follow the beta channel by hand; every other version follows the stable one automatically. */
  lemma PolicyIff(version: string)
    ensures UpdatePolicyForVersion(version).None? <==> ParseVersion(version).None?
    ensures ParseVersion(version).Some? ==>
              var beta, policy := BetaNumber(ParseVersion(version).value), UpdatePolicyForVersion(version).value;
              && policy.channel == (if beta then "beta" else "latest") && !policy.allowDowngrade
              && (policy.allowPrerelease <==> beta) && (policy.automaticCheck <==> !beta)
              && (policy.installOnQuit <==> !beta)
  {
    if ParseVersion(version).Some? { BetaIff(ParseVersion(version).value); }
  }

  /** Identifiers are made of the ten digits, the 26 letters in both cases, and the hyphen, in ASCII. */
  lemma IdentCharIff(c: char)
    ensures var n := c as int;
            IdentChar(c) <==> n == 45 || 0 <= n - 48 < 10 || 0 <= n - 65 < 26 || 0 <= n - 97 < 26
  {
  }
}
