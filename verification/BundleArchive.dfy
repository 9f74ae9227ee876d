/**
 Release bundles of the host tools: the manifest that
 packages/host-tools/scripts/build_standalone.py writes, the checks package_bundle.py makes
 before archiving, and the verification and extraction of verify_bundle_archive.py.
 SHA-256 and the JSON codec are parameters; file modes are not modelled.
 */
module BundleArchive {
  import opened Options
  import opened Strings

  type Bytes = seq<bv8>

  /** A path by its components. */
  type Path = seq<string>

  /** A bundle directory: its platform name and the name of its manifest. */
  datatype Bundle = Bundle(platform: string, manifest: string)

  const BUNDLE_MANIFEST := "bundle-manifest.json"

  // ----- Safe relative paths

  function Meaningful(parts: seq<string>): seq<string> {
    if parts == [] then []
    else Meaningful(parts[..|parts| - 1]) + if parts[|parts| - 1] in {"", "."} then [] else [parts[|parts| - 1]]
  }

  /** `PurePosixPath(value).as_posix()`: blank and '.' components vanish. */
  function AsPosix(value: string): string {
    var parts := Meaningful(Split(value, '/'));
    var root := if value != "" && value[0] == '/' then "/" else "";
    if parts == [] then (if root == "" then "." else root) else root + Join(parts, '/')
  }

  /** `_safe_relative`, with the path's components as result. */
  function SafeRelative(value: string): Option<Path> {
    var parts := Meaningful(Split(value, '/'));
    if value == "" || '\\' in value || value[0] == '/' || value != AsPosix(value) || ".." in parts then None
    else Some(parts)
  }

  predicate PlainPart(part: string) {
    part !in {"", ".", ".."} && '/' !in part && '\\' !in part
  }

  lemma SourceManifestIsPlain()
    ensures PlainPart(BUNDLE_MANIFEST)
  {
  }

  predicate PlainPath(p: Path) {
    p != [] && forall i :: 0 <= i < |p| ==> PlainPart(p[i])
  }

  /**
   The accepted texts are the printed forms of plain component lists, and "." besides,
   which passes every test of `_safe_relative` and has no components at all.
   */
  lemma SafeRelativeIff(value: string)
    ensures SafeRelative(value).Some? <==> value == "." || PlainPath(Split(value, '/'))
    ensures SafeRelative(value).Some? ==> SafeRelative(value).value == if value == "." then [] else Split(value, '/')
  {
    if value == "." {
      SplitUnbroken(value, '/');
      assert Meaningful(["."]) == [] by { assert ["."][..0] == []; }
    } else {
      JoinSplit(value, '/');
      if PlainPath(Split(value, '/')) { PlainIsSafe(value); }
      if SafeRelative(value).Some? { SafeIsPlain(value); }
    }
  }

  lemma PlainIsSafe(value: string)
    requires PlainPath(Split(value, '/'))
    ensures SafeRelative(value) == Some(Split(value, '/'))
  {
    var parts := Split(value, '/');
    JoinSplit(value, '/');
    MeaningfulAll(parts);
    BackslashParts(parts);
    FirstChar(parts);
  }

  lemma SafeIsPlain(value: string)
    requires value != "." && SafeRelative(value).Some?
    ensures PlainPath(Split(value, '/')) && SafeRelative(value).value == Split(value, '/')
  {
    var parts, kept := Split(value, '/'), Meaningful(Split(value, '/'));
    JoinSplit(value, '/');
    MeaningfulParts(parts);
    assert value == Join(kept, '/');
    SplitJoin(kept, '/');
    BackslashParts(kept);
  }

  lemma {:induction false} MeaningfulParts(parts: seq<string>)
    ensures forall i :: 0 <= i < |Meaningful(parts)| ==>
      Meaningful(parts)[i] in parts && Meaningful(parts)[i] !in {"", "."}
  {
    if parts != [] { MeaningfulParts(parts[..|parts| - 1]); }
  }

  lemma {:induction false} MeaningfulAll(parts: seq<string>)
    requires forall i :: 0 <= i < |parts| ==> parts[i] !in {"", "."}
    ensures Meaningful(parts) == parts
  {
    if parts != [] { MeaningfulAll(parts[..|parts| - 1]); }
  }

  lemma {:induction false} BackslashParts(parts: seq<string>)
    requires parts != []
    ensures '\\' in Join(parts, '/') <==> exists i :: 0 <= i < |parts| && '\\' in parts[i]
  {
    if |parts| > 1 {
      BackslashParts(parts[1..]);
      var tail := parts[1..];
      if '\\' in Join(tail, '/') {
        var i :| 0 <= i < |tail| && '\\' in tail[i];
        assert '\\' in parts[i + 1];
      }
      if i :| 0 <= i < |parts| && '\\' in parts[i] {
        if i > 0 { assert '\\' in tail[i - 1]; }
      }
    }
  }

  lemma FirstChar(parts: seq<string>)
    requires PlainPath(parts)
    ensures Join(parts, '/') != "" && Join(parts, '/')[0] != '/'
  {
    assert PlainPart(parts[0]);
    assert parts[0][0] in parts[0];
    assert Join(parts, '/')[0] == parts[0][0];
  }

  // ----- Archives and manifests

  datatype Kind = File | Directory | Special

  datatype Member = Member(name: string, kind: Kind, content: Bytes)

  /** A field is `None` when it is absent or of the wrong type. */
  datatype Meta = Meta(size: Option<int>, sha256: Option<string>)

  datatype Doc = Doc(manifestVersion: Option<int>, version: Option<string>, platform: Option<string>,
                     files: Option<map<string, Meta>>)

  /** The digest and the JSON decoder. */
  datatype Tools = Tools(sha: Bytes -> string, decode: Bytes -> Option<Doc>)

  predicate IsHexDigest(s: string) {
    |s| == 64 && forall i :: 0 <= i < |s| ==> '0' <= s[i] <= '9' || 'a' <= s[i] <= 'f'
  }

  /** `[0-9a-f]{64}` */
  lemma HexDigestIff(s: string)
    ensures IsHexDigest(s) <==> |s| == 64 && forall i :: 0 <= i < |s| ==> s[i] in "0123456789abcdef"
  {
    forall c: char ensures c in "0123456789abcdef" <==> '0' <= c <= '9' || 'a' <= c <= 'f' { HexChar(c); }
  }

  lemma HexChar(c: char)
    ensures c in "0123456789abcdef" <==> '0' <= c <= '9' || 'a' <= c <= 'f'
  {
    var hex := "0123456789abcdef";
    if '0' <= c <= '9' { assert hex[c as int - '0' as int] == c; }
    if 'a' <= c <= 'f' { assert hex[c as int - 'a' as int + 10] == c; }
  }

  /** `f"{platform}/{relative}"` */
  function Inside(platform: string, relative: string): string {
    platform + ['/'] + relative
  }

  predicate GoodMember(m: Member, b: Bundle) {
    var parts := SafeRelative(m.name);
    parts.Some? && parts.value != [] && parts.value[0] == b.platform && m.kind != Special
  }

  predicate NamedManifest(name: string, b: Bundle) {
    var parts := SafeRelative(name);
    parts.Some? && parts.value != [] && parts.value[|parts.value| - 1] == b.manifest
  }

  function ManifestsOf(members: seq<Member>, b: Bundle): seq<Member> {
    if members == [] then []
    else ManifestsOf(members[..|members| - 1], b)
         + if NamedManifest(members[|members| - 1].name, b) then [members[|members| - 1]] else []
  }

  predicate DistinctNames(members: seq<Member>) {
    forall i, j :: 0 <= i < j < |members| ==> members[i].name != members[j].name
  }

  /** Safe, inside the bundle, without links or duplicates, and with one manifest in its place. */
  predicate WellListed(members: seq<Member>, b: Bundle) {
    && members != []
    && (forall i :: 0 <= i < |members| ==> GoodMember(members[i], b))
    && DistinctNames(members)
    && |ManifestsOf(members, b)| == 1
    && ManifestsOf(members, b)[0].name == Inside(b.platform, b.manifest)
    && ManifestsOf(members, b)[0].kind == File
  }

  predicate Identified(doc: Doc, b: Bundle, version: string) {
    && doc.manifestVersion == Some(1) && doc.version == Some(version) && doc.platform == Some(b.platform)
    && doc.files.Some? && doc.files.value != map[]
  }

  predicate Describes(meta: Meta, content: Bytes, sha: Bytes -> string) {
    meta.size == Some(|content|) && meta.sha256 == Some(sha(content)) && IsHexDigest(sha(content))
  }

  /** The manifest's entry is safe, names a regular member, and describes its bytes. */
  ghost predicate EntryHolds(members: seq<Member>, b: Bundle, rel: string, meta: Meta, sha: Bytes -> string) {
    && SafeRelative(rel).Some? && !NamedManifest(rel, b)
    && exists i :: 0 <= i < |members| && members[i].name == Inside(b.platform, rel) && members[i].kind == File
                && Describes(meta, members[i].content, sha)
  }

  function FileNames(members: seq<Member>): set<string> {
    set m | m in members && m.kind == File :: m.name
  }

  function ExpectedNames(b: Bundle, rels: set<string>): set<string> {
    {Inside(b.platform, b.manifest)} + set rel | rel in rels :: Inside(b.platform, rel)
  }

  /** Everything `_verify_open_archive` demands, with the manifest it returns. */
  ghost predicate Verified(members: seq<Member>, b: Bundle, version: string, tools: Tools, doc: Doc) {
    && WellListed(members, b)
    && tools.decode(ManifestsOf(members, b)[0].content) == Some(doc)
    && Identified(doc, b, version)
    && (forall rel :: rel in doc.files.value ==> EntryHolds(members, b, rel, doc.files.value[rel], tools.sha))
    && FileNames(members) == ExpectedNames(b, doc.files.value.Keys)
  }

  // ----- The verifying loops

  /** What the first loop has learned about the members behind it. */
  ghost predicate Indexed(members: seq<Member>, b: Bundle, byName: map<string, Member>, manifests: seq<Member>) {
    && (forall i :: 0 <= i < |members| ==> GoodMember(members[i], b))
    && Lookup(members, byName)
    && manifests == ManifestsOf(members, b)
  }

  /** Names are unique and the index finds exactly the members. */
  ghost predicate Lookup(members: seq<Member>, byName: map<string, Member>) {
    && DistinctNames(members)
    && (forall i :: 0 <= i < |members| ==> members[i].name in byName && byName[members[i].name] == members[i])
    && (forall name :: name in byName ==> byName[name] in members && byName[name].name == name)
  }

  method IndexMembers(members: seq<Member>, b: Bundle)
    returns (byName: map<string, Member>, manifests: seq<Member>, ok: bool)
    ensures ok ==> Indexed(members, b, byName, manifests)
    ensures !ok ==> (exists i :: 0 <= i < |members| && !GoodMember(members[i], b)) || !DistinctNames(members)
  {
    hide Indexed, SafeRelative, DistinctNames;
    byName, manifests := map[], [];
    NothingIndexed(b);
    for n := 0 to |members|
      invariant Indexed(members[..n], b, byName, manifests)
    {
      var member := members[n];
      var relative := SafeRelative(member.name);
      if relative.None? || relative.value == [] || relative.value[0] != b.platform || member.kind == Special {
        assert !GoodMember(members[n], b);
        return byName, manifests, false;
      }
      if member.name in byName {
        Duplicate(members, n, b, byName, manifests);
        return byName, manifests, false;
      }
      assert GoodMember(member, b);
      IndexedSnoc(members[..n], member, b, byName, manifests);
      assert members[..n + 1] == members[..n] + [member];
      byName := byName[member.name := member];
      manifests := manifests + if relative.value[|relative.value| - 1] == b.manifest then [member] else [];
    }
    assert members[..|members|] == members;
    ok := true;
  }

  lemma NothingIndexed(b: Bundle)
    ensures Indexed([], b, map[], [])
  {
  }

  lemma Duplicate(members: seq<Member>, n: nat, b: Bundle, byName: map<string, Member>, manifests: seq<Member>)
    requires n < |members| && Indexed(members[..n], b, byName, manifests) && members[n].name in byName
    ensures !DistinctNames(members)
  {
    var i :| 0 <= i < n && members[..n][i] == byName[members[n].name];
    assert members[i].name == members[n].name;
  }

  lemma IndexedSnoc(front: seq<Member>, m: Member, b: Bundle, byName: map<string, Member>, manifests: seq<Member>)
    requires Indexed(front, b, byName, manifests) && GoodMember(m, b) && m.name !in byName
    ensures Indexed(front + [m], b, byName[m.name := m], manifests + if NamedManifest(m.name, b) then [m] else [])
  {
    var all := front + [m];
    assert all[..|all| - 1] == front;
    LookupSnoc(front, m, byName);
  }

  lemma LookupSnoc(front: seq<Member>, m: Member, byName: map<string, Member>)
    requires Lookup(front, byName) && m.name !in byName
    ensures Lookup(front + [m], byName[m.name := m])
  {
    var all, index := front + [m], byName[m.name := m];
    forall name | name in index ensures index[name] in all && index[name].name == name {
      if name != m.name { assert byName[name] in front; }
    }
  }

  method VerifyOpenArchive(members: seq<Member>, b: Bundle, version: string, tools: Tools)
    returns (verified: Option<Doc>)
    ensures verified.Some? ==> Verified(members, b, version, tools, verified.value)
    ensures verified.None? ==> forall doc :: !Verified(members, b, version, tools, doc)
  {
    if members == [] { return None; }
    var byName, manifests, ok := IndexMembers(members, b);
    if !ok { return None; }
    if |manifests| != 1 || manifests[0].name != Inside(b.platform, b.manifest) || manifests[0].kind != File {
      return None;
    }
    var manifest := tools.decode(manifests[0].content);
    if manifest.None? || !Identified(manifest.value, b, version) { return None; }
    var good := CheckEntries(members, b, byName, manifest.value.files.value, tools.sha);
    if !good || FileNames(members) != ExpectedNames(b, manifest.value.files.value.Keys) { return None; }
    return manifest;
  }

  /** The loop over the manifest's file map. */
  method CheckEntries(ghost members: seq<Member>, b: Bundle, byName: map<string, Member>,
                      files: map<string, Meta>, sha: Bytes -> string) returns (good: bool)
    requires Lookup(members, byName)
    ensures good <==> forall rel :: rel in files ==> EntryHolds(members, b, rel, files[rel], sha)
  {
    var todo := files.Keys;
    while todo != {}
      invariant todo <= files.Keys
      invariant forall rel :: rel in files && rel !in todo ==> EntryHolds(members, b, rel, files[rel], sha)
      decreases |todo|
    {
      var rel :| rel in todo;
      var name, meta := Inside(b.platform, rel), files[rel];
      EntryInIndex(members, b, byName, rel, meta, sha);
      if SafeRelative(rel).None? || NamedManifest(rel, b) { return false; }
      if name !in byName || byName[name].kind != File { return false; }
      var content := byName[name].content;
      if meta.size.None? || meta.size.value < 0 || meta.sha256.None? || !IsHexDigest(meta.sha256.value) {
        return false;
      }
      if |content| != meta.size.value || sha(content) != meta.sha256.value { return false; }
      todo := todo - {rel};
    }
    good := true;
  }

  /** Looking a member up by name decides an entry. */
  lemma EntryInIndex(members: seq<Member>, b: Bundle, byName: map<string, Member>, rel: string, meta: Meta,
                     sha: Bytes -> string)
    requires Lookup(members, byName)
    ensures EntryHolds(members, b, rel, meta, sha) <==>
            && SafeRelative(rel).Some? && !NamedManifest(rel, b)
            && Inside(b.platform, rel) in byName && byName[Inside(b.platform, rel)].kind == File
            && Describes(meta, byName[Inside(b.platform, rel)].content, sha)
  {
    var name := Inside(b.platform, rel);
    if name in byName {
      var i :| 0 <= i < |members| && members[i] == byName[name];
      assert members[i].name == name;
    }
  }

  // ----- Extraction

  /** Files and directories below the destination, by components. */
  datatype Tree = Tree(files: map<Path, Bytes>, dirs: set<Path>)

  function Ancestors(path: Path): set<Path> {
    set k | 0 < k <= |path| :: path[..k]
  }

  /** Creates parents, then the directory or the file; `None` when the file system refuses. */
  function ExtractOne(t: Tree, m: Member): Option<Tree> {
    var path := Split(m.name, '/');
    var parents := Ancestors(if m.kind == Directory then path else path[..|path| - 1]);
    if parents * t.files.Keys != {} then None
    else if m.kind == Directory then Some(Tree(t.files, t.dirs + parents))
    else if path in t.dirs then None
    else Some(Tree(t.files[path := m.content], t.dirs + parents))
  }

  function Extract(members: seq<Member>): Option<Tree> {
    if members == [] then Some(Tree(map[], {}))
    else
      var before := Extract(members[..|members| - 1]);
      if before.None? then None else ExtractOne(before.value, members[|members| - 1])
  }

  /** The relative names found below the bundle, apart from its manifest. */
  function FoundFiles(t: Tree, b: Bundle): set<string> {
    set p | p in t.files && |p| >= 2 && p[0] == b.platform && p != [b.platform, b.manifest] :: Join(p[1..], '/')
  }

  /** The comparison of the extracted files with the manifest's entries. */
  ghost predicate Rechecked(t: Tree, b: Bundle, entries: map<string, Meta>, sha: Bytes -> string) {
    && FoundFiles(t, b) == entries.Keys
    && forall rel :: rel in entries ==> EntryExtracted(t, b, rel, entries[rel], sha)
  }

  predicate EntryExtracted(t: Tree, b: Bundle, rel: string, meta: Meta, sha: Bytes -> string) {
    var path := At(b.platform, rel);
    path in t.files && meta.size == Some(|t.files[path]|) && meta.sha256 == Some(sha(t.files[path]))
  }

  method ExtractMembers(members: seq<Member>) returns (tree: Option<Tree>)
    ensures tree == Extract(members)
  {
    tree := Some(Tree(map[], {}));
    for n := 0 to |members|
      invariant tree.Some? && tree == Extract(members[..n])
    {
      assert members[..n + 1][..n] == members[..n];
      tree := ExtractOne(tree.value, members[n]);
      if tree.None? {
        ExtractStuck(members, n + 1);
        return;
      }
    }
    assert members[..|members|] == members;
  }

  lemma {:induction false} ExtractStuck(members: seq<Member>, n: nat)
    requires n <= |members| && Extract(members[..n]).None?
    ensures Extract(members).None?
    decreases |members|
  {
    if n == |members| {
      assert members[..n] == members;
    } else {
      assert members[..|members| - 1][..n] == members[..n];
      ExtractStuck(members[..|members| - 1], n);
    }
  }

  /** What extraction leaves behind: the regular members' bytes at their paths and no other file. */
  lemma {:induction false} ExtractedFiles(members: seq<Member>)
    requires Extract(members).Some? && DistinctNames(members)
    ensures var t := Extract(members).value;
            && (forall i :: 0 <= i < |members| && members[i].kind != Directory ==>
                  Split(members[i].name, '/') in t.files && t.files[Split(members[i].name, '/')] == members[i].content)
            && (forall p :: p in t.files ==> FromMember(members, p))
  {
    if members != [] {
      var n := |members| - 1;
      ExtractedFiles(members[..n]);
      var t, t', last := Extract(members[..n]).value, Extract(members).value, members[n];
      forall i | 0 <= i < |members| && members[i].kind != Directory
        ensures Split(members[i].name, '/') in t'.files && t'.files[Split(members[i].name, '/')] == members[i].content
      {
        if i < n {
          assert members[..n][i] == members[i];
          SplitInjective(members[i].name, last.name);
        }
      }
      forall p | p in t'.files ensures FromMember(members, p) {
        if p in t.files {
          var i :| 0 <= i < n && members[..n][i].kind != Directory && Split(members[..n][i].name, '/') == p;
          assert members[i] == members[..n][i];
        } else {
          assert members[n].kind != Directory && Split(members[n].name, '/') == p;
        }
      }
    }
  }

  ghost predicate FromMember(members: seq<Member>, p: Path) {
    exists i :: 0 <= i < |members| && members[i].kind != Directory && Split(members[i].name, '/') == p
  }

  ghost predicate LeadsToMember(members: seq<Member>, d: Path) {
    exists i :: 0 <= i < |members| && d != [] && d <= Split(members[i].name, '/')
  }

  /** Every directory created lies on the way to some member. */
  lemma {:induction false} ExtractedDirs(members: seq<Member>)
    requires Extract(members).Some?
    ensures forall d :: d in Extract(members).value.dirs ==> LeadsToMember(members, d)
  {
    if members != [] {
      var n := |members| - 1;
      ExtractedDirs(members[..n]);
      var t, t' := Extract(members[..n]).value, Extract(members).value;
      forall d | d in t'.dirs ensures LeadsToMember(members, d) {
        if d in t.dirs {
          var i :| 0 <= i < n && d != [] && d <= Split(members[..n][i].name, '/');
          assert members[i] == members[..n][i];
        } else {
          assert d != [] && d <= Split(members[n].name, '/');
        }
      }
    }
  }

  lemma SplitInjective(a: string, b: string)
    ensures Split(a, '/') == Split(b, '/') ==> a == b
  {
    JoinSplit(a, '/');
    JoinSplit(b, '/');
  }

  /** No regular member's path leads to, or through, another member's path. */
  ghost predicate NoConflicts(members: seq<Member>) {
    forall i, j :: 0 <= i < |members| && 0 <= j < |members| && i != j && members[i].kind != Directory ==>
      !(Split(members[i].name, '/') <= Split(members[j].name, '/'))
  }

  /** The directories that must exist once the member is extracted. */
  function Reach(m: Member): set<Path> {
    var path := Split(m.name, '/');
    Ancestors(if m.kind == Directory then path else path[..|path| - 1])
  }

  lemma {:induction false} ExtractSucceeds(members: seq<Member>)
    requires NoConflicts(members) && DistinctNames(members)
    ensures Extract(members).Some?
  {
    if members != [] {
      var n := |members| - 1;
      var front, last := members[..n], members[n];
      assert forall i :: 0 <= i < n ==> front[i] == members[i];
      ExtractSucceeds(front);
      LastIsFree(members);
      LastFits(Extract(front).value, last);
    }
  }

  /** The last member's way leads through no extracted file, and no directory is in its place. */
  lemma {:induction false} LastIsFree(members: seq<Member>)
    requires members != [] && NoConflicts(members)
    requires var front := members[..|members| - 1]; Extract(front).Some? && DistinctNames(front)
    ensures var t, last := Extract(members[..|members| - 1]).value, members[|members| - 1];
            && (forall p :: p in Reach(last) ==> p !in t.files)
            && (last.kind != Directory ==> Split(last.name, '/') !in t.dirs)
  {
    var n := |members| - 1;
    var front, last := members[..n], members[n];
    var t := Extract(front).value;
    assert forall i :: 0 <= i < n ==> front[i] == members[i];
    ExtractedFiles(front);
    ExtractedDirs(front);
    hide Extract;
    forall p | p in Reach(last) ensures p !in t.files {
      assert p <= Split(last.name, '/');
    }
  }

  lemma LastFits(t: Tree, last: Member)
    requires forall p :: p in Reach(last) ==> p !in t.files
    requires last.kind != Directory ==> Split(last.name, '/') !in t.dirs
    ensures ExtractOne(t, last).Some?
  {
    hide Ancestors;
    assert Reach(last) * t.files.Keys == {};
  }

  lemma PrefixIsReached(p: Path, m: Member)
    ensures p != [] && p <= Split(m.name, '/') && p != Split(m.name, '/') ==> p in Reach(m)
  {
    var path := Split(m.name, '/');
    if p != [] && p <= path && p != path {
      assert p == path[..|p|] && p == path[..|path| - 1][..|p|];
    }
  }

  lemma {:induction false} ReachedIsCreated(members: seq<Member>, i: nat)
    requires Extract(members).Some? && i < |members|
    ensures Reach(members[i]) <= Extract(members).value.dirs
  {
    hide Ancestors;
    var n := |members| - 1;
    if i < n { ReachedIsCreated(members[..n], i); }
  }

  lemma {:induction false} ExtractedHasNoConflicts(members: seq<Member>)
    requires Extract(members).Some? && DistinctNames(members)
    ensures NoConflicts(members)
  {
    if members != [] {
      var n := |members| - 1;
      assert forall i :: 0 <= i < n ==> members[..n][i] == members[i];
      ExtractedHasNoConflicts(members[..n]);
      forall i | 0 <= i < n
        ensures members[i].kind != Directory ==> !(Split(members[i].name, '/') <= Split(members[n].name, '/'))
        ensures members[n].kind != Directory ==> !(Split(members[n].name, '/') <= Split(members[i].name, '/'))
      {
        LastConflictsWithNone(members, i);
      }
    }
  }

  /** The last member was neither blocked by an earlier file nor placed on an earlier directory. */
  lemma LastConflictsWithNone(members: seq<Member>, i: nat)
    requires Extract(members).Some? && DistinctNames(members) && i < |members| - 1
    ensures var n := |members| - 1;
      && (members[i].kind != Directory ==> !(Split(members[i].name, '/') <= Split(members[n].name, '/')))
      && (members[n].kind != Directory ==> !(Split(members[n].name, '/') <= Split(members[i].name, '/')))
  {
    var n := |members| - 1;
    var front, last := members[..n], members[n];
    var t := Extract(front).value;
    assert front[i] == members[i];
    ExtractedFiles(front);
    ReachedIsCreated(front, i);
    Unblocked(t, members[i], last);
  }

  lemma Unblocked(t: Tree, m: Member, last: Member)
    requires ExtractOne(t, last).Some? && m.name != last.name
    requires (m.kind != Directory ==> Split(m.name, '/') in t.files) && Reach(m) <= t.dirs
    ensures m.kind != Directory ==> !(Split(m.name, '/') <= Split(last.name, '/'))
    ensures last.kind != Directory ==> !(Split(last.name, '/') <= Split(m.name, '/'))
  {
    SplitInjective(m.name, last.name);
    PrefixIsReached(Split(m.name, '/'), last);
    PrefixIsReached(Split(last.name, '/'), m);
    assert Reach(last) * t.files.Keys == {};
    assert forall p :: p in Reach(last) && p in t.files ==> p in Reach(last) * t.files.Keys;
    assert last.kind != Directory ==> Split(last.name, '/') !in t.dirs;
  }

  /** Members with distinct names are extracted exactly when no file stands in another's way. */
  lemma ExtractSucceedsIff(members: seq<Member>)
    requires DistinctNames(members)
    ensures Extract(members).Some? <==> NoConflicts(members)
  {
    if NoConflicts(members) { ExtractSucceeds(members); }
    if Extract(members).Some? { ExtractedHasNoConflicts(members); }
  }

  // ----- An extracted archive is what its manifest says

  lemma SplitInside(platform: string, rel: string)
    requires '/' !in platform
    ensures Split(Inside(platform, rel), '/') == [platform] + Split(rel, '/')
  {
    SplitFirst(platform, '/', rel);
  }

  lemma GoodMemberPath(m: Member, b: Bundle)
    requires GoodMember(m, b)
    ensures PlainPath(Split(m.name, '/')) && Split(m.name, '/')[0] == b.platform && PlainPart(b.platform)
  {
    SafeRelativeIff(m.name);
  }

  lemma PlainSplit(name: string)
    requires PlainPart(name)
    ensures Split(name, '/') == [name]
  {
    SplitUnbroken(name, '/');
  }

  /** Both names are single plain components, and they differ. */
  predicate GoodBundle(b: Bundle) {
    PlainPart(b.platform) && PlainPart(b.manifest) && b.platform != b.manifest
  }

  /** What verification says about member paths, in terms of components. */
  ghost predicate Laid(members: seq<Member>, b: Bundle, entries: map<string, Meta>, sha: Bytes -> string) {
    && PlainPart(b.platform) && DistinctNames(members)
    && (forall i :: 0 <= i < |members| ==>
      PlainPath(Split(members[i].name, '/')) && Split(members[i].name, '/')[0] == b.platform)
    && (forall i :: 0 <= i < |members| ==> members[i].kind != Special)
    && (forall rel :: rel in entries ==> rel != b.manifest && EntryAt(members, b, rel, entries[rel], sha))
    && FileNames(members) == ExpectedNames(b, entries.Keys)
  }

  ghost predicate EntryAt(members: seq<Member>, b: Bundle, rel: string, meta: Meta, sha: Bytes -> string) {
    exists i :: 0 <= i < |members| && members[i].name == Inside(b.platform, rel) && members[i].kind == File
             && Describes(meta, members[i].content, sha)
  }

  lemma VerifiedIsLaid(members: seq<Member>, b: Bundle, version: string, tools: Tools, doc: Doc)
    requires PlainPart(b.manifest) && Verified(members, b, version, tools, doc)
    ensures Laid(members, b, doc.files.value, tools.sha)
  {
    forall i | 0 <= i < |members|
      ensures PlainPath(Split(members[i].name, '/')) && Split(members[i].name, '/')[0] == b.platform
      ensures PlainPart(b.platform)
    {
      GoodMemberPath(members[i], b);
    }
    assert members[0].name == members[0].name;
    forall rel | rel in doc.files.value
      ensures rel != b.manifest && EntryAt(members, b, rel, doc.files.value[rel], tools.sha)
    {
      assert EntryHolds(members, b, rel, doc.files.value[rel], tools.sha);
      ManifestNamesItself(b);
    }
  }

  lemma ManifestNamesItself(b: Bundle)
    requires PlainPart(b.manifest)
    ensures NamedManifest(b.manifest, b)
  {
    PlainSplit(b.manifest);
    SafeRelativeIff(b.manifest);
  }

  /** Where a regular member lands: the manifest's place, or the place of an entry. */
  lemma LaidFile(members: seq<Member>, b: Bundle, entries: map<string, Meta>, sha: Bytes -> string, i: nat)
    requires PlainPart(b.manifest) && Laid(members, b, entries, sha) && i < |members| && members[i].kind == File
    ensures Split(members[i].name, '/') == [b.platform, b.manifest]
         || exists rel :: rel in entries && Split(members[i].name, '/') == [b.platform] + Split(rel, '/')
  {
    var name := members[i].name;
    assert name in FileNames(members);
    PlainSplit(b.manifest);
    if name == Inside(b.platform, b.manifest) {
      SplitInside(b.platform, b.manifest);
    } else {
      var rel :| rel in entries && name == Inside(b.platform, rel);
      SplitInside(b.platform, rel);
    }
  }

  /** Each entry's bytes arrive at its path, which is not the manifest's. */
  lemma LaidEntry(members: seq<Member>, b: Bundle, entries: map<string, Meta>, sha: Bytes -> string, rel: string)
    requires PlainPart(b.manifest) && Laid(members, b, entries, sha) && Extract(members).Some? && rel in entries
    ensures At(b.platform, rel) in Extract(members).value.files
    ensures Describes(entries[rel], Extract(members).value.files[At(b.platform, rel)], sha)
    ensures At(b.platform, rel) != [b.platform, b.manifest]
  {
    assert EntryAt(members, b, rel, entries[rel], sha);
    var i :| 0 <= i < |members| && members[i].name == Inside(b.platform, rel) && members[i].kind == File
          && Describes(entries[rel], members[i].content, sha);
    ExtractedFiles(members);
    SplitInside(b.platform, rel);
    PlainSplit(b.manifest);
    SplitInjective(rel, b.manifest);
    assert At(b.platform, rel)[1..] == Split(rel, '/') && [b.platform, b.manifest][1..] == [b.manifest];
  }

  function At(platform: string, rel: string): Path {
    [platform] + Split(rel, '/')
  }

  /**
   An archive that verifies and extracts yields exactly its manifest's files, with the
   sizes and digests listed there, so the checks made after extraction never fail.
   */
  lemma ExtractedIsManifested(members: seq<Member>, b: Bundle, version: string, tools: Tools, doc: Doc)
    requires PlainPart(b.manifest) && Verified(members, b, version, tools, doc) && Extract(members).Some?
    ensures Rechecked(Extract(members).value, b, doc.files.value, tools.sha)
    ensures Contained(Extract(members).value, b)
  {
    VerifiedIsLaid(members, b, version, tools, doc);
    LaidIsRechecked(members, b, doc.files.value, tools.sha);
    LaidIsContained(members, b, doc.files.value, tools.sha);
  }

  /** Every file and directory lies below destination/platform. */
  ghost predicate Contained(t: Tree, b: Bundle) {
    && (forall p :: p in t.files ==> PlainPath(p) && p[0] == b.platform)
    && (forall d :: d in t.dirs ==> PlainPath(d) && d[0] == b.platform)
  }

  lemma LaidIsContained(members: seq<Member>, b: Bundle, entries: map<string, Meta>, sha: Bytes -> string)
    requires PlainPart(b.manifest) && Laid(members, b, entries, sha) && Extract(members).Some?
    ensures Contained(Extract(members).value, b)
  {
    var t := Extract(members).value;
    ExtractedFiles(members);
    ExtractedDirs(members);
    forall p | p in t.files ensures PlainPath(p) && p[0] == b.platform {
      assert FromMember(members, p);
    }
    forall d | d in t.dirs ensures PlainPath(d) && d[0] == b.platform {
      assert LeadsToMember(members, d);
    }
  }

  lemma LaidIsRechecked(members: seq<Member>, b: Bundle, entries: map<string, Meta>, sha: Bytes -> string)
    requires PlainPart(b.manifest) && Laid(members, b, entries, sha) && Extract(members).Some?
    ensures Rechecked(Extract(members).value, b, entries, sha)
  {
    var t := Extract(members).value;
    forall rel | rel in entries
      ensures rel in FoundFiles(t, b) && At(b.platform, rel) in t.files
           && entries[rel].size == Some(|t.files[At(b.platform, rel)]|)
           && entries[rel].sha256 == Some(sha(t.files[At(b.platform, rel)]))
    {
      LaidEntry(members, b, entries, sha, rel);
      FoundByPath(t, b, rel);
    }
    forall rel | rel in FoundFiles(t, b) ensures rel in entries {
      var p :| p in t.files && |p| >= 2 && p[0] == b.platform && p != [b.platform, b.manifest]
            && Join(p[1..], '/') == rel;
      FoundIsListed(members, b, entries, sha, p);
    }
    assert FoundFiles(t, b) == entries.Keys;
  }

  lemma FoundByPath(t: Tree, b: Bundle, rel: string)
    requires At(b.platform, rel) in t.files && At(b.platform, rel) != [b.platform, b.manifest]
    ensures rel in FoundFiles(t, b)
  {
    assert At(b.platform, rel)[1..] == Split(rel, '/');
    JoinSplit(rel, '/');
  }

  lemma FoundIsListed(members: seq<Member>, b: Bundle, entries: map<string, Meta>, sha: Bytes -> string, p: Path)
    requires PlainPart(b.manifest) && Laid(members, b, entries, sha) && Extract(members).Some?
    requires p in Extract(members).value.files && p != [b.platform, b.manifest] && |p| >= 2
    ensures Join(p[1..], '/') in entries
  {
    ExtractedFiles(members);
    assert FromMember(members, p);
    var i :| 0 <= i < |members| && members[i].kind != Directory && Split(members[i].name, '/') == p;
    LaidFile(members, b, entries, sha, i);
    var rel :| rel in entries && p == [b.platform] + Split(rel, '/');
    assert p[1..] == Split(rel, '/');
    JoinSplit(rel, '/');
  }

  /** The manifest that was extracted names the requested version and platform and at least one file. */
  predicate CarriesManifest(t: Tree, b: Bundle, version: string, tools: Tools, doc: Doc) {
    && [b.platform, b.manifest] in t.files && tools.decode(t.files[[b.platform, b.manifest]]) == Some(doc)
    && doc.manifestVersion == Some(1) && doc.version == Some(version) && doc.platform == Some(b.platform)
    && doc.files.Some? && doc.files.value != map[]
  }

  lemma {:induction false} ManifestIsMember(members: seq<Member>, b: Bundle)
    ensures forall m :: m in ManifestsOf(members, b) ==> m in members
  {
    hide NamedManifest;
    if members != [] {
      ManifestIsMember(members[..|members| - 1], b);
      assert members == members[..|members| - 1] + [members[|members| - 1]];
    }
  }

  lemma PlainHasNoSlash(part: string)
    requires PlainPart(part)
    ensures '/' !in part
  {
  }

  lemma ExtractedCarriesManifest(members: seq<Member>, b: Bundle, version: string, tools: Tools, doc: Doc)
    requires PlainPart(b.manifest) && Verified(members, b, version, tools, doc) && Extract(members).Some?
    ensures CarriesManifest(Extract(members).value, b, version, tools, doc)
  {
    hide Extract, ManifestsOf, SafeRelative, EntryHolds, ExpectedNames, FileNames, GoodMember, PlainPart;
    var m := ManifestsOf(members, b)[0];
    ManifestIsMember(members, b);
    assert m in ManifestsOf(members, b);
    var i :| 0 <= i < |members| && members[i] == m;
    GoodMemberPath(m, b);
    ExtractedFiles(members);
    PlainHasNoSlash(b.platform);
    SplitInside(b.platform, b.manifest);
    PlainSplit(b.manifest);
    assert Split(m.name, '/') == [b.platform] + [b.manifest] == [b.platform, b.manifest];
  }

  /** `verify_and_extract` into an empty destination; `None` stands for any failure. */
  method VerifyAndExtract(members: seq<Member>, b: Bundle, version: string, tools: Tools)
    returns (tree: Option<Tree>, doc: Option<Doc>)
    requires PlainPart(b.manifest)
    ensures doc.Some? ==> Verified(members, b, version, tools, doc.value)
    ensures doc.None? ==> forall d :: !Verified(members, b, version, tools, d)
    ensures tree == if doc.Some? then Extract(members) else None
    ensures tree.Some? <==> doc.Some? && NoConflicts(members)
    ensures tree.Some? ==> CarriesManifest(tree.value, b, version, tools, doc.value)
    ensures tree.Some? ==> Rechecked(tree.value, b, doc.value.files.value, tools.sha) && Contained(tree.value, b)
  {
    doc := VerifyOpenArchive(members, b, version, tools);
    if doc.None? { return None, doc; }
    tree := ExtractMembers(members);
    ExtractSucceedsIff(members);
    if tree.None? { return; }
    ExtractedIsManifested(members, b, version, tools, doc.value);
    ExtractedCarriesManifest(members, b, version, tools, doc.value);
    var same := Recheck(tree.value, b, doc.value.files.value, tools.sha);
    if !same { return None, doc; }
  }

  method Recheck(tree: Tree, b: Bundle, entries: map<string, Meta>, sha: Bytes -> string) returns (same: bool)
    ensures same <==> Rechecked(tree, b, entries, sha)
  {
    if FoundFiles(tree, b) != entries.Keys { return false; }
    var todo := entries.Keys;
    while todo != {}
      invariant todo <= entries.Keys
      invariant forall rel :: rel in entries && rel !in todo ==> EntryExtracted(tree, b, rel, entries[rel], sha)
      decreases |todo|
    {
      var rel :| rel in todo;
      if !EntryExtracted(tree, b, rel, entries[rel], sha) { return false; }
      todo := todo - {rel};
    }
    same := true;
  }

  // ----- Building and packaging

  function DescribeFiles(files: map<string, Bytes>, b: Bundle, sha: Bytes -> string): map<string, Meta> {
    map rel | rel in files && rel != b.manifest :: Meta(Some(|files[rel]|), Some(sha(files[rel])))
  }

  function BuildManifest(files: map<string, Bytes>, b: Bundle, version: string, sha: Bytes -> string): Doc {
    Doc(Some(1), Some(version), Some(b.platform), Some(DescribeFiles(files, b, sha)))
  }

  /** `write_bundle_manifest`: the file map is filled in the order of the listing. */
  method WriteBundleManifest(files: map<string, Bytes>, listing: seq<string>, b: Bundle, version: string,
                             sha: Bytes -> string)
    returns (doc: Doc)
    requires forall rel :: rel in files <==> rel in listing
    ensures doc == BuildManifest(files, b, version, sha)
  {
    var entries: map<string, Meta> := map[];
    for n := 0 to |listing|
      invariant entries.Keys == set rel | rel in listing[..n] && rel != b.manifest
      invariant forall rel :: rel in entries ==>
        rel in files && entries[rel] == Meta(Some(|files[rel]|), Some(sha(files[rel])))
    {
      var relative := listing[n];
      assert listing[..n + 1] == listing[..n] + [relative];
      if relative == b.manifest { continue; }
      entries := entries[relative := Meta(Some(|files[relative]|), Some(sha(files[relative])))];
    }
    assert listing[..|listing|] == listing;
    assert entries == DescribeFiles(files, b, sha);
    doc := Doc(Some(1), Some(version), Some(b.platform), Some(entries));
  }

  /** The checks `package_bundle.py` makes on a bundle directory before archiving it. */
  ghost predicate Packageable(files: map<string, Bytes>, b: Bundle, version: string, tools: Tools) {
    && b.manifest in files && tools.decode(files[b.manifest]).Some?
    && var doc := tools.decode(files[b.manifest]).value;
       && Identified(doc, b, version)
       && files.Keys - {b.manifest} == doc.files.value.Keys
       && forall rel :: rel in doc.files.value ==>
            rel in files && doc.files.value[rel] == Meta(Some(|files[rel]|), Some(tools.sha(files[rel])))
  }

  /** The tar members of a bundle directory: itself, its directories, its files. */
  function BundleMembers(files: map<string, Bytes>, dirs: set<string>, b: Bundle): set<Member> {
    {Member(b.platform, Directory, [])}
    + (set d | d in dirs :: Member(Inside(b.platform, d), Directory, []))
    + (set rel | rel in files :: Member(Inside(b.platform, rel), File, files[rel]))
  }

  /** Any archive of the bundle, whatever the order of its members. */
  ghost predicate ArchiveOf(files: map<string, Bytes>, dirs: set<string>, b: Bundle, members: seq<Member>) {
    DistinctNames(members) && (set m | m in members) == BundleMembers(files, dirs, b)
  }

  /** A file or directory path of the tree: plain and free of manifest names. */
  ghost predicate TreePath(rel: string, b: Bundle) {
    var p := Split(rel, '/');
    PlainPath(p) && forall i :: 0 <= i < |p| ==> p[i] != b.manifest
  }

  /** A link-free tree with safe names, at least one file, and no file on the way to another entry. */
  ghost predicate SourceTree(files: map<string, Bytes>, dirs: set<string>, b: Bundle) {
    && files != map[]
    && (forall rel :: rel in files || rel in dirs ==> TreePath(rel, b))
    && (forall f, x :: f in files && (x in files || x in dirs) && Split(f, '/') <= Split(x, '/') ==>
      x == f && x !in dirs)
  }

  /** The files of a bundle once its manifest is written. */
  function WithManifest(files: map<string, Bytes>, b: Bundle, text: Bytes): map<string, Bytes> {
    files[b.manifest := text]
  }

  /**
   Build, package, verify, extract: every such tree passes the packager's checks, every
   archive of it verifies against the manifest just built and extracts, and the extracted
   files are the tree's files and the manifest, byte for byte.
   */
  lemma BundleRoundTrip(files: map<string, Bytes>, dirs: set<string>, b: Bundle, version: string,
                        tools: Tools, encode: Doc -> Bytes, members: seq<Member>, doc: Doc, all: map<string, Bytes>)
    requires SourceTree(files, dirs, b) && GoodBundle(b)
    requires forall d :: tools.decode(encode(d)) == Some(d)
    requires forall b :: IsHexDigest(tools.sha(b))
    requires doc == BuildManifest(files, b, version, tools.sha)
    requires all == WithManifest(files, b, encode(doc))
    requires ArchiveOf(all, dirs, b, members)
    ensures Packageable(all, b, version, tools)
    ensures Verified(members, b, version, tools, doc)
    ensures Extract(members).Some? && Holds(Extract(members).value, b, all)
  {
    BundlePackageable(files, dirs, b, version, tools, encode(doc), doc);
    ArchiveNames(all, dirs, b, members);
    BundleVerified(files, dirs, b, version, tools, encode(doc), doc, members);
    BundleExtracts(files, dirs, b, encode(doc), members);
  }

  lemma NoManifestYet(files: map<string, Bytes>, dirs: set<string>, b: Bundle)
    requires SourceTree(files, dirs, b) && GoodBundle(b)
    ensures b.manifest !in files && b.manifest !in dirs
  {
    ManifestIsNoTreePath(b);
  }

  lemma BundleIdentified(files: map<string, Bytes>, dirs: set<string>, b: Bundle, version: string, sha: Bytes -> string)
    requires SourceTree(files, dirs, b) && GoodBundle(b)
    ensures DescribeFiles(files, b, sha).Keys == files.Keys
    ensures Identified(BuildManifest(files, b, version, sha), b, version)
  {
    NoManifestYet(files, dirs, b);
    assert DescribeFiles(files, b, sha).Keys == files.Keys;
    assert files.Keys != {};
  }

  lemma BundlePackageable(files: map<string, Bytes>, dirs: set<string>, b: Bundle, version: string, tools: Tools,
                          text: Bytes, doc: Doc)
    requires SourceTree(files, dirs, b) && GoodBundle(b)
    requires doc == BuildManifest(files, b, version, tools.sha) && tools.decode(text) == Some(doc)
    ensures Packageable(WithManifest(files, b, text), b, version, tools)
  {
    NoManifestYet(files, dirs, b);
    BundleIdentified(files, dirs, b, version, tools.sha);
  }

  lemma BundleVerified(files: map<string, Bytes>, dirs: set<string>, b: Bundle, version: string, tools: Tools,
                       text: Bytes,
                       doc: Doc, members: seq<Member>)
    requires SourceTree(files, dirs, b) && GoodBundle(b)
    requires doc == BuildManifest(files, b, version, tools.sha) && tools.decode(text) == Some(doc)
    requires forall x :: IsHexDigest(tools.sha(x))
    requires Bundled(files, dirs, b, text, members)
    ensures Verified(members, b, version, tools, doc)
  {
    NoManifestYet(files, dirs, b);
    BundleIdentified(files, dirs, b, version, tools.sha);
    BundleListed(files, dirs, b, text, members);
    BundleEntries(files, dirs, b, text, tools.sha, members);
    BundleFileNames(files, dirs, b, text, members);
  }

  /** The tree holds these files below the platform directory and no others. */
  ghost predicate Holds(t: Tree, b: Bundle, files: map<string, Bytes>) {
    && (forall rel :: rel in files ==> At(b.platform, rel) in t.files && t.files[At(b.platform, rel)] == files[rel])
    && (forall p :: p in t.files ==> exists rel :: rel in files && p == At(b.platform, rel))
  }

  lemma ManifestIsNoTreePath(b: Bundle)
    requires PlainPart(b.manifest)
    ensures !TreePath(b.manifest, b)
  {
    PlainSplit(b.manifest);
    assert Split(b.manifest, '/')[0] == b.manifest;
  }

  /** Every member of the archive is the root, a directory or a file of the tree. */
  ghost predicate MemberOf(m: Member, files: map<string, Bytes>, dirs: set<string>, b: Bundle) {
    || m == Member(b.platform, Directory, [])
    || (exists d :: d in dirs && m == Member(Inside(b.platform, d), Directory, []))
    || (exists rel :: rel in files && m == Member(Inside(b.platform, rel), File, files[rel]))
  }

  lemma ArchiveNames(files: map<string, Bytes>, dirs: set<string>, b: Bundle, members: seq<Member>)
    requires ArchiveOf(files, dirs, b, members)
    ensures forall i :: 0 <= i < |members| ==> MemberOf(members[i], files, dirs, b)
    ensures forall rel :: rel in files ==> Member(Inside(b.platform, rel), File, files[rel]) in members
    ensures members != []
  {
    var present := set m | m in members;
    forall i | 0 <= i < |members| ensures MemberOf(members[i], files, dirs, b) {
      assert members[i] in present;
    }
    forall rel | rel in files ensures Member(Inside(b.platform, rel), File, files[rel]) in members {
      assert Member(Inside(b.platform, rel), File, files[rel]) in present;
    }
    assert Member(b.platform, Directory, []) in present;
  }

  /** The archive's members, and the files among them. */
  ghost predicate Bundled(files: map<string, Bytes>, dirs: set<string>, b: Bundle, text: Bytes, members: seq<Member>) {
    && DistinctNames(members)
    && (forall i :: 0 <= i < |members| ==> MemberOf(members[i], WithManifest(files, b, text), dirs, b))
    && (forall rel :: rel in WithManifest(files, b, text) ==>
      Member(Inside(b.platform, rel), File, WithManifest(files, b, text)[rel]) in members)
  }

  /** Component paths of the bundle's members. */
  lemma MemberPath(files: map<string, Bytes>, dirs: set<string>, b: Bundle, text: Bytes, m: Member)
    requires SourceTree(files, dirs, b) && GoodBundle(b)
    requires MemberOf(m, WithManifest(files, b, text), dirs, b)
    ensures PlainPath(Split(m.name, '/')) && Split(m.name, '/')[0] == b.platform && m.kind != Special
    ensures m.name == b.platform || m.name == Inside(b.platform, b.manifest)
         || exists x :: TreePath(x, b) && m.name == Inside(b.platform, x)
                      && if m.kind == File then x in files else x in dirs
    ensures m.kind == File && m.name != Inside(b.platform, b.manifest) ==>
      exists x :: x in files && m.name == Inside(b.platform, x) && m.content == files[x]
  {
    SplitUnbroken(b.platform, '/');
    PlainSplit(b.manifest);
    if m != Member(b.platform, Directory, []) {
      if d :| d in dirs && m == Member(Inside(b.platform, d), Directory, []) {
        assert TreePath(d, b);
        SplitInside(b.platform, d);
      } else {
        var rel :| rel in WithManifest(files, b, text)
          && m == Member(Inside(b.platform, rel), File, WithManifest(files, b, text)[rel]);
        SplitInside(b.platform, rel);
        assert rel != b.manifest ==> rel in files && TreePath(rel, b);
      }
    }
  }

  /** Among the bundle's members only the top-level manifest is named like one. */
  lemma OnlyManifest(files: map<string, Bytes>, dirs: set<string>, b: Bundle, text: Bytes, m: Member)
    requires SourceTree(files, dirs, b) && GoodBundle(b)
    requires MemberOf(m, WithManifest(files, b, text), dirs, b)
    ensures GoodMember(m, b)
    ensures NamedManifest(m.name, b) <==> m.name == Inside(b.platform, b.manifest)
  {
    var path := Split(m.name, '/');
    MemberPath(files, dirs, b, text, m);
    PlainIsSafe(m.name);
    SplitUnbroken(b.platform, '/');
    if m.name == Inside(b.platform, b.manifest) {
      SplitInside(b.platform, b.manifest);
      PlainSplit(b.manifest);
    } else if m.name != b.platform {
      var x :| TreePath(x, b) && m.name == Inside(b.platform, x);
      SplitInside(b.platform, x);
    }
  }

  lemma {:induction false} ManifestsUnique(members: seq<Member>, k: int, b: Bundle)
    requires forall i :: 0 <= i < |members| ==> (NamedManifest(members[i].name, b) <==> i == k)
    ensures ManifestsOf(members, b) == if 0 <= k < |members| then [members[k]] else []
  {
    hide NamedManifest;
    if members != [] {
      var n := |members| - 1;
      assert forall i :: 0 <= i < n ==> members[..n][i] == members[i];
      ManifestsUnique(members[..n], k, b);
    }
  }

  lemma BundleListed(files: map<string, Bytes>, dirs: set<string>, b: Bundle, text: Bytes, members: seq<Member>)
    requires SourceTree(files, dirs, b) && GoodBundle(b)
    requires Bundled(files, dirs, b, text, members)
    ensures WellListed(members, b) && ManifestsOf(members, b)[0].content == text
  {
    assert WithManifest(files, b, text)[b.manifest] == text;
    var k :| 0 <= k < |members| && members[k] == Member(Inside(b.platform, b.manifest), File, text);
    forall i | 0 <= i < |members| ensures GoodMember(members[i], b) && (NamedManifest(members[i].name, b) <==> i == k) {
      OnlyManifest(files, dirs, b, text, members[i]);
    }
    ManifestsUnique(members, k, b);
  }

  lemma BundleEntries(files: map<string, Bytes>, dirs: set<string>, b: Bundle, text: Bytes, sha: Bytes -> string,
                      members: seq<Member>)
    requires SourceTree(files, dirs, b) && forall b :: IsHexDigest(sha(b))
    requires Bundled(files, dirs, b, text, members)
    requires b.manifest !in files
    ensures forall rel :: rel in files ==> EntryHolds(members, b, rel, DescribeFiles(files, b, sha)[rel], sha)
  {
    forall rel | rel in files ensures EntryHolds(members, b, rel, DescribeFiles(files, b, sha)[rel], sha) {
      assert TreePath(rel, b);
      PlainIsSafe(rel);
      assert rel in WithManifest(files, b, text) && WithManifest(files, b, text)[rel] == files[rel];
      var i :| 0 <= i < |members| && members[i] == Member(Inside(b.platform, rel), File, files[rel]);
      assert Describes(DescribeFiles(files, b, sha)[rel], members[i].content, sha);
    }
  }

  lemma BundleFileNames(files: map<string, Bytes>, dirs: set<string>, b: Bundle, text: Bytes, members: seq<Member>)
    requires SourceTree(files, dirs, b) && GoodBundle(b)
    requires Bundled(files, dirs, b, text, members)
    ensures FileNames(members) == ExpectedNames(b, files.Keys)
  {
    forall name | name in FileNames(members) ensures name in ExpectedNames(b, files.Keys) {
      var m :| m in members && m.kind == File && m.name == name;
      MemberPath(files, dirs, b, text, m);
    }
    forall name | name in ExpectedNames(b, files.Keys) ensures name in FileNames(members) {
      if name == Inside(b.platform, b.manifest) {
        assert Member(Inside(b.platform, b.manifest), File, WithManifest(files, b, text)[b.manifest]) in members;
      } else {
        var rel :| rel in files && name == Inside(b.platform, rel);
        assert Member(Inside(b.platform, rel), File, WithManifest(files, b, text)[rel]) in members;
      }
    }
  }

  /** Which entry of the bundle a member's path below the platform belongs to. */
  lemma MemberPlace(files: map<string, Bytes>, dirs: set<string>, b: Bundle, text: Bytes, m: Member) returns (x: string)
    requires SourceTree(files, dirs, b) && GoodBundle(b)
    requires MemberOf(m, WithManifest(files, b, text), dirs, b) && m.name != b.platform
    ensures m.name == Inside(b.platform, x) && Split(m.name, '/') == [b.platform] + Split(x, '/')
    ensures x == b.manifest || TreePath(x, b)
    ensures x != b.manifest ==> if m.kind == File then x in files else x in dirs
  {
    MemberPath(files, dirs, b, text, m);
    if m.name == Inside(b.platform, b.manifest) {
      x := b.manifest;
    } else {
      x :| TreePath(x, b) && m.name == Inside(b.platform, x) && x in (if m.kind == File then files.Keys else dirs);
      ManifestIsNoTreePath(b);
    }
    SplitInside(b.platform, x);
  }

  lemma BundleExtracts(files: map<string, Bytes>, dirs: set<string>, b: Bundle, text: Bytes, members: seq<Member>)
    requires SourceTree(files, dirs, b) && GoodBundle(b) && Bundled(files, dirs, b, text, members)
    ensures Extract(members).Some? && Holds(Extract(members).value, b, WithManifest(files, b, text))
  {
    forall i, j | 0 <= i < |members| && 0 <= j < |members| && i != j && members[i].kind != Directory
      ensures !(Split(members[i].name, '/') <= Split(members[j].name, '/'))
    {
      FileLeadsNowhere(files, dirs, b, text, members[i], members[j]);
    }
    ExtractSucceeds(members);
    ExtractedFiles(members);
    var t, all := Extract(members).value, WithManifest(files, b, text);
    forall rel | rel in all ensures At(b.platform, rel) in t.files && t.files[At(b.platform, rel)] == all[rel] {
      var i :| 0 <= i < |members| && members[i] == Member(Inside(b.platform, rel), File, all[rel]);
      SplitInside(b.platform, rel);
    }
    forall p | p in t.files ensures exists rel :: rel in all && p == At(b.platform, rel) {
      ExtractedPlace(files, dirs, b, text, members, p);
    }
  }

  lemma ExtractedPlace(files: map<string, Bytes>, dirs: set<string>, b: Bundle, text: Bytes, members: seq<Member>,
                       p: Path)
    requires SourceTree(files, dirs, b) && GoodBundle(b) && Bundled(files, dirs, b, text, members)
    requires FromMember(members, p)
    ensures exists rel :: rel in WithManifest(files, b, text) && p == At(b.platform, rel)
  {
    var i :| 0 <= i < |members| && members[i].kind != Directory && Split(members[i].name, '/') == p;
    MemberPath(files, dirs, b, text, members[i]);
    var x := MemberPlace(files, dirs, b, text, members[i]);
    assert x in WithManifest(files, b, text) && p == At(b.platform, x);
  }

  /** A regular member is neither another member nor on the way to one. */
  lemma FileLeadsNowhere(files: map<string, Bytes>, dirs: set<string>, b: Bundle, text: Bytes, m: Member, other: Member)
    requires SourceTree(files, dirs, b) && GoodBundle(b) && m.name != other.name && m.kind != Directory
    requires MemberOf(m, WithManifest(files, b, text), dirs, b)
    requires MemberOf(other, WithManifest(files, b, text), dirs, b)
    ensures !(Split(m.name, '/') <= Split(other.name, '/'))
  {
    PlainSplit(b.platform);
    var x := MemberPlace(files, dirs, b, text, m);
    if other.name != b.platform {
      var y := MemberPlace(files, dirs, b, text, other);
      var p, q := Split(x, '/'), Split(y, '/');
      PlacesApart(files, dirs, b, x, y);
      PrefixTail(b.platform, p, q);
    }
  }

  lemma PlacesApart(files: map<string, Bytes>, dirs: set<string>, b: Bundle, x: string, y: string)
    requires SourceTree(files, dirs, b) && GoodBundle(b) && x != y
    requires x == b.manifest || x in files
    requires y == b.manifest || y in files || y in dirs
    ensures !(Split(x, '/') <= Split(y, '/'))
  {
    PlainSplit(b.manifest);
    assert x != b.manifest ==> TreePath(x, b);
    assert y != b.manifest ==> TreePath(y, b);
    PrefixHead(Split(x, '/'), Split(y, '/'));
  }

  lemma PrefixTail(a: string, p: Path, q: Path)
    ensures [a] + p <= [a] + q ==> p <= q
  {
    assert ([a] + p)[1..] == p && ([a] + q)[1..] == q;
  }

  lemma PrefixHead(p: Path, q: Path)
    requires p != [] && q != []
    ensures p <= q ==> p[0] == q[0]
  {
  }

  // ----- What packaging and verification accept

  /** Whatever passes the packager's checks carries the manifest that the builder writes for its files. */
  lemma PackageableIsBuilt(files: map<string, Bytes>, b: Bundle, version: string, tools: Tools, text: Bytes)
    requires b.manifest !in files && Packageable(WithManifest(files, b, text), b, version, tools)
    ensures tools.decode(text) == Some(BuildManifest(files, b, version, tools.sha))
  {
    var doc := tools.decode(text).value;
    var described := DescribeFiles(files, b, tools.sha);
    assert WithManifest(files, b, text)[b.manifest] == text;
    assert doc.files.value.Keys == files.Keys == described.Keys;
    forall rel | rel in described ensures doc.files.value[rel] == described[rel] {
      assert WithManifest(files, b, text)[rel] == files[rel];
    }
    assert doc.files.value == described;
  }

  /** So every archive of a packageable tree is verified and extracts to the identical files. */
  lemma PackagedRoundTrip(files: map<string, Bytes>, dirs: set<string>, b: Bundle, version: string, tools: Tools,
                          text: Bytes, members: seq<Member>)
    requires SourceTree(files, dirs, b) && GoodBundle(b) && forall x :: IsHexDigest(tools.sha(x))
    requires Packageable(WithManifest(files, b, text), b, version, tools)
    requires ArchiveOf(WithManifest(files, b, text), dirs, b, members)
    ensures tools.decode(text).Some? && Verified(members, b, version, tools, tools.decode(text).value)
    ensures Extract(members).Some? && Holds(Extract(members).value, b, WithManifest(files, b, text))
  {
    NoManifestYet(files, dirs, b);
    PackageableIsBuilt(files, b, version, tools, text);
    ArchiveNames(WithManifest(files, b, text), dirs, b, members);
    hide SourceTree, Packageable, ArchiveOf, Verified, Extract, BuildManifest, MemberOf;
    BundleVerified(files, dirs, b, version, tools, text, tools.decode(text).value, members);
    BundleExtracts(files, dirs, b, text, members);
  }

  /** A path of plain components below the platform directory. */
  predicate Below(name: string, platform: string) {
    var p := Split(name, '/');
    && p[0] == platform
    && forall i :: 0 <= i < |p| ==> p[i] !in {"", ".", ".."} && '\\' !in p[i]
  }

  /**
   A verified archive, in plain terms: members below the platform directory, none a link and
   none twice; the manifest of the requested version in its place and no other file of its
   name; one regular member for every entry, with its size and 64-digit digest; and no
   regular member besides.
   */
  lemma VerifiedMeans(members: seq<Member>, b: Bundle, version: string, tools: Tools, doc: Doc)
    requires PlainPart(b.manifest) && Verified(members, b, version, tools, doc)
    ensures forall i :: 0 <= i < |members| ==> Below(members[i].name, b.platform) && members[i].kind != Special
    ensures forall i, j :: 0 <= i < j < |members| ==> members[i].name != members[j].name
    ensures doc.manifestVersion == Some(1) && doc.version == Some(version) && doc.platform == Some(b.platform)
    ensures doc.files.Some? && doc.files.value != map[]
    ensures forall rel :: rel in doc.files.value ==> EntryIn(members, b, rel, doc.files.value[rel], tools.sha)
    ensures forall i :: 0 <= i < |members| && members[i].kind == File ==>
      members[i].name == Inside(b.platform, b.manifest)
      || exists rel :: rel in doc.files.value && members[i].name == Inside(b.platform, rel)
  {
    hide Describes, SafeRelative, ManifestsOf, NamedManifest;
    forall i | 0 <= i < |members| ensures Below(members[i].name, b.platform) && members[i].kind != Special {
      GoodMemberPath(members[i], b);
      assert members[i].kind != Special;
    }
    forall rel | rel in doc.files.value ensures EntryIn(members, b, rel, doc.files.value[rel], tools.sha) {
      HeldEntry(members, b, rel, doc.files.value[rel], tools.sha);
    }
    forall i | 0 <= i < |members| && members[i].kind == File
      ensures members[i].name == Inside(b.platform, b.manifest)
           || exists rel :: rel in doc.files.value && members[i].name == Inside(b.platform, rel)
    {
      assert members[i] in members;
      assert members[i].name in FileNames(members);
    }
  }

  /** The entry is not named like a manifest, and a regular member has its size and digest. */
  ghost predicate EntryIn(members: seq<Member>, b: Bundle, rel: string, meta: Meta, sha: Bytes -> string) {
    && Split(rel, '/')[|Split(rel, '/')| - 1] != b.manifest
    && exists i :: 0 <= i < |members| && members[i].name == Inside(b.platform, rel) && members[i].kind == File
                && meta.size == Some(|members[i].content|) && meta.sha256 == Some(sha(members[i].content))
                && |sha(members[i].content)| == 64
                && forall k :: 0 <= k < 64 ==> sha(members[i].content)[k] in "0123456789abcdef"
  }

  lemma HeldEntry(members: seq<Member>, b: Bundle, rel: string, meta: Meta, sha: Bytes -> string)
    requires PlainPart(b.manifest) && EntryHolds(members, b, rel, meta, sha)
    ensures EntryIn(members, b, rel, meta, sha)
  {
    SafeRelativeIff(rel);
    if rel == "." { SplitUnbroken(rel, '/'); }
    var i :| 0 <= i < |members| && members[i].name == Inside(b.platform, rel) && members[i].kind == File
          && Describes(meta, members[i].content, sha);
    forall k | 0 <= k < 64 ensures sha(members[i].content)[k] in "0123456789abcdef" {
      HexDigit(sha(members[i].content)[k]);
    }
  }

  lemma HexDigit(c: char)
    requires '0' <= c <= '9' || 'a' <= c <= 'f'
    ensures c in "0123456789abcdef"
  {
    if c <= '9' { assert "0123456789abcdef"[c as int - '0' as int] == c; }
    else { assert "0123456789abcdef"[10 + (c as int - 'a' as int)] == c; }
  }
}
