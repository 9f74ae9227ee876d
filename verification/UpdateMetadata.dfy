/**
 Merging per-architecture update metadata, apps/app/desktop/scripts/merge-update-metadata.js.
 `rank` numbers the strings of one merge in the order `localeCompare` puts them.
 */
module UpdateMetadata {
  import opened Options
  import opened StableText
  import StableSort

  // ----- Reading fields

  predicate Truthy(v: Value) {
    match v
    case Null => false
    case Bool(b) => b
    case Num(n) => n != 0
    case Str(s) => s != ""
    case _ => true
  }

  /** `String(v)` */
  function Text(v: Value): string {
    match v
    case Null => "null"
    case Bool(b) => if b then "true" else "false"
    case Num(n) => Numeral(n)
    case Str(s) => s
    case Arr(items) =>
      Listing(seq(|items|, i requires 0 <= i < |items| => if items[i].Null? then "" else Text(items[i])))
    case Obj(_) => "[object Object]"
  }

  /** JavaScript's falsy values and the texts of its constants. */
  lemma FalsyIff(v: Value)
    ensures Truthy(v) <==> v !in {Null, Bool(false), Num(0), Str("")}
    ensures Text(Bool(true)) == "true" && Text(Bool(false)) == "false" && Text(Null) == "null"
  {
  }

  /** `String(m[k] || '')` */
  function TextField(m: Fields, k: string): string {
    if k in m && Truthy(m[k]) then Text(m[k]) else ""
  }

  /** `stable(m[k])`; an absent field differs from every present one. */
  function StableField(m: Fields, k: string): string {
    if k in m then Stable(m[k]) else "<undefined>"
  }

  lemma AbsentIsDistinct(m: Fields, n: Fields, k: string)
    requires Plain(Obj(m)) && Plain(Obj(n))
    ensures StableField(m, k) == StableField(n, k) <==> (k in m <==> k in n) && (k in m && k in n ==> m[k] == n[k])
  {
    if k in m { StableLead(m[k]); }
    if k in n { StableLead(n[k]); }
    if k in m && k in n { StableInjective(m[k], n[k]); }
  }

  // ----- Sources

  datatype Source = Source(file: string, value: Value)

  function PerArch(): set<string> {
    {"files", "packages", "path", "sha512", "sha2", "releaseDate"}
  }

  predicate AllObjects(rs: seq<Source>) {
    forall i :: 0 <= i < |rs| ==> rs[i].value.Obj?
  }

  /** One exact version: every source has it and it is not empty. */
  predicate OneVersion(rs: seq<Source>)
    requires AllObjects(rs)
  {
    && rs != []
    && forall i :: 0 <= i < |rs| ==> Version(rs[i]) != "" && Version(rs[i]) == Version(rs[0])
  }

  function Version(r: Source): string
    requires r.value.Obj?
  {
    TextField(r.value.fields, "version")
  }

  predicate SharedOk(rs: seq<Source>)
    requires AllObjects(rs)
  {
    forall i, j, k :: 0 <= i < |rs| && 0 <= j < |rs| && k in rs[i].value.fields && k !in PerArch() ==>
      StableField(rs[i].value.fields, k) == StableField(rs[j].value.fields, k)
  }

  /** `assertSharedFields` */
  method CheckShared(rs: seq<Source>) returns (ok: bool)
    requires AllObjects(rs)
    ensures ok == SharedOk(rs)
  {
    var keys := set i, k | 0 <= i < |rs| && k in rs[i].value.fields :: k;
    ghost var done: set<string> := {};
    ghost var all := keys;
    while keys != {}
      invariant all == keys + done
      invariant forall i, j, k :: 0 <= i < |rs| && 0 <= j < |rs| && k in done && k !in PerArch() ==>
        StableField(rs[i].value.fields, k) == StableField(rs[j].value.fields, k)
      decreases |keys|
    {
      var key :| key in keys;
      keys := keys - {key};
      done := done + {key};
      if key in PerArch() { continue; }
      var values := set i | 0 <= i < |rs| :: StableField(rs[i].value.fields, key);
      if |values| != 1 {
        Differs(rs, key, values);
        return false;
      }
      AllSame(rs, key, values);
    }
    ok := true;
  }

  lemma Differs(rs: seq<Source>, key: string, values: set<string>)
    requires AllObjects(rs) && (exists i :: 0 <= i < |rs| && key in rs[i].value.fields) && key !in PerArch()
    requires values == (set i | 0 <= i < |rs| :: StableField(rs[i].value.fields, key)) && |values| != 1
    ensures !SharedOk(rs)
  {
    var i :| 0 <= i < |rs| && key in rs[i].value.fields;
    var x := StableField(rs[i].value.fields, key);
    assert x in values;
    assert values != {x};
    var y :| y in values && y != x;
  }

  lemma AllSame(rs: seq<Source>, key: string, values: set<string>)
    requires AllObjects(rs)
    requires values == (set i | 0 <= i < |rs| :: StableField(rs[i].value.fields, key)) && |values| == 1
    ensures forall i, j :: 0 <= i < |rs| && 0 <= j < |rs| ==>
      StableField(rs[i].value.fields, key) == StableField(rs[j].value.fields, key)
  {
    var x :| x in values;
    assert |values - {x}| == 0;
    assert forall y :: y in values ==> y == x;
    forall i | 0 <= i < |rs| ensures StableField(rs[i].value.fields, key) == x {
      assert StableField(rs[i].value.fields, key) in values;
    }
  }

  // ----- Update files

  /** `String(item.url || '')`; an item that is no object has no URL. */
  function Url(item: Value): string {
    if item.Obj? then TextField(item.fields, "url") else ""
  }

  /** `fileEntries`; `None` when it raises. */
  function FileEntries(m: Fields): Option<seq<Value>> {
    if "files" in m && m["files"].Arr? && m["files"].items != [] then Some(m["files"].items)
    else if "path" in m && "sha512" in m && Truthy(m["path"]) && Truthy(m["sha512"]) then
      Some([Obj(map["url" := m["path"], "sha512" := m["sha512"]])])
    else None
  }

  function Items(r: Source): seq<Value> {
    if r.value.Obj? && FileEntries(r.value.fields).Some? then FileEntries(r.value.fields).value else []
  }

  predicate HasItems(r: Source) {
    r.value.Obj? && FileEntries(r.value.fields).Some?
  }

  /** All file entries, source by source. */
  function AllItems(rs: seq<Source>): seq<Value> {
    if rs == [] then [] else AllItems(rs[..|rs| - 1]) + Items(rs[|rs| - 1])
  }

  /** Every item has a URL, and items with one URL have one text. */
  predicate Consistent(items: seq<Value>) {
    && (forall i :: 0 <= i < |items| ==> Url(items[i]) != "")
    && forall i, j :: 0 <= i < |items| && 0 <= j < |items| && Url(items[i]) == Url(items[j]) ==>
      Stable(items[i]) == Stable(items[j])
  }

  /** `files` keeps exactly one of the items for each of their URLs. */
  predicate Keeps(files: seq<Value>, items: seq<Value>) {
    && DistinctUrls(files)
    && (forall i :: 0 <= i < |files| ==> files[i] in items)
    && (forall j :: 0 <= j < |items| ==> Holds(files, Url(items[j])))
  }

  predicate DistinctUrls(files: seq<Value>) {
    forall i, j :: 0 <= i < j < |files| ==> Url(files[i]) != Url(files[j])
  }

  predicate Holds(files: seq<Value>, url: string) {
    exists i :: 0 <= i < |files| && Url(files[i]) == url
  }

  lemma Extends(items: seq<Value>, more: seq<Value>)
    requires Consistent(items + more)
    ensures Consistent(items)
  {
    assert forall i :: 0 <= i < |items| ==> (items + more)[i] == items[i];
  }

  lemma ConsistentNext(files: seq<Value>, items: seq<Value>, item: Value)
    requires Consistent(items) && Keeps(files, items)
    ensures Consistent(items + [item]) <==>
      Url(item) != "" && forall i :: 0 <= i < |files| && Url(files[i]) == Url(item) ==> Stable(files[i]) == Stable(item)
  {
    hide Stable, Url;
    var more := items + [item];
    assert more[|items|] == item && forall i :: 0 <= i < |items| ==> more[i] == items[i];
    if Consistent(more) {
      forall i | 0 <= i < |files| && Url(files[i]) == Url(item) ensures Stable(files[i]) == Stable(item) {
        var j :| 0 <= j < |items| && items[j] == files[i];
        assert more[j] == files[i];
      }
    }
    if Url(item) != "" && forall i :: 0 <= i < |files| && Url(files[i]) == Url(item) ==>
      Stable(files[i]) == Stable(item) {
      forall j | 0 <= j < |items| && Url(items[j]) == Url(item) ensures Stable(items[j]) == Stable(item) {
        assert Holds(files, Url(items[j]));
        var i :| 0 <= i < |files| && Url(files[i]) == Url(items[j]);
        assert files[i] in items;
      }
    }
  }

  lemma KeepsAppended(files: seq<Value>, items: seq<Value>, item: Value)
    requires Keeps(files, items) && !Holds(files, Url(item))
    ensures Keeps(files + [item], items + [item])
  {
    hide Url;
    forall j | 0 <= j < |items + [item]| ensures Holds(files + [item], Url((items + [item])[j])) {
      if j < |items| {
        assert Holds(files, Url(items[j]));
        var i :| 0 <= i < |files| && Url(files[i]) == Url(items[j]);
        assert (files + [item])[i] == files[i];
      } else {
        assert (files + [item])[|files|] == item;
      }
    }
  }

  lemma KeepsReplaced(files: seq<Value>, items: seq<Value>, n: nat, item: Value)
    requires Keeps(files, items) && n < |files| && Url(files[n]) == Url(item)
    ensures Keeps(files[n := item], items + [item])
  {
    hide Url;
    forall j | 0 <= j < |items + [item]| ensures Holds(files[n := item], Url((items + [item])[j])) {
      if j < |items| {
        assert Holds(files, Url(items[j]));
        var i :| 0 <= i < |files| && Url(files[i]) == Url(items[j]);
        assert Url(files[n := item][i]) == Url(files[i]);
      } else {
        assert files[n := item][n] == item;
      }
    }
  }

  /** The body of the inner loop: the entry is put at its URL unless it conflicts. */
  method AddFile(files: seq<Value>, item: Value, ghost items: seq<Value>) returns (result: Option<seq<Value>>)
    requires Consistent(items) && Keeps(files, items)
    ensures result.Some? <==> Consistent(items + [item])
    ensures result.Some? ==> Keeps(result.value, items + [item])
  {
    hide Stable, Url, Consistent;
    ConsistentNext(files, items, item);
    if Url(item) == "" { return None; }
    var n := Place(files, Url(item));
    if n < |files| {
      if Stable(files[n]) != Stable(item) { return None; }
      KeepsReplaced(files, items, n, item);
      result := Some(files[n := item]);
    } else {
      KeepsAppended(files, items, item);
      result := Some(files + [item]);
    }
  }

  /** The entries of one source. */
  method AddFiles(files: seq<Value>, added: seq<Value>, ghost items: seq<Value>) returns (result: Option<seq<Value>>)
    requires Consistent(items) && Keeps(files, items)
    ensures result.Some? <==> Consistent(items + added)
    ensures result.Some? ==> Keeps(result.value, items + added)
  {
    hide Consistent, Keeps;
    assert items + added[..0] == items;
    result := Some(files);
    for n := 0 to |added|
      invariant result.Some? && Consistent(items + added[..n]) && Keeps(result.value, items + added[..n])
    {
      assert items + added[..n] + [added[n]] == items + added[..n + 1];
      result := AddFile(result.value, added[n], items + added[..n]);
      if result.None? {
        assert items + added[..n + 1] + added[n + 1..] == items + added;
        if Consistent(items + added) { Extends(items + added[..n + 1], added[n + 1..]); }
        return;
      }
    }
    assert added[..|added|] == added;
  }

  /** Every source lists files, and no two entries conflict. */
  predicate FilesOk(rs: seq<Source>) {
    (forall i :: 0 <= i < |rs| ==> HasItems(rs[i])) && Consistent(AllItems(rs))
  }

  lemma {:induction false} AllItemsSplit(rs: seq<Source>, n: nat) returns (rest: seq<Value>)
    requires n <= |rs|
    ensures AllItems(rs) == AllItems(rs[..n]) + rest
    decreases |rs| - n
  {
    hide Items;
    if n == |rs| {
      assert rs[..n] == rs;
      rest := [];
    } else {
      var last := AllItemsSplit(rs, n + 1);
      assert rs[..n + 1][..n] == rs[..n];
      rest := Items(rs[n]) + last;
    }
  }

  /** The loops over all sources and their entries. */
  method CollectFiles(rs: seq<Source>) returns (result: Option<seq<Value>>)
    ensures result.Some? <==> FilesOk(rs)
    ensures result.Some? ==> Keeps(result.value, AllItems(rs))
  {
    hide Consistent, Keeps, HasItems, Items;
    EmptyKept();
    result := Some([]);
    for n := 0 to |rs|
      invariant result.Some? && Consistent(AllItems(rs[..n])) && Keeps(result.value, AllItems(rs[..n]))
      invariant forall i :: 0 <= i < n ==> HasItems(rs[i])
    {
      assert rs[..n + 1][..n] == rs[..n];
      if !HasItems(rs[n]) { return None; }
      result := AddFiles(result.value, Items(rs[n]), AllItems(rs[..n]));
      if result.None? {
        ghost var rest := AllItemsSplit(rs, n + 1);
        if Consistent(AllItems(rs)) { Extends(AllItems(rs[..n + 1]), rest); }
        return;
      }
    }
    assert rs[..|rs|] == rs;
  }

  lemma EmptyKept()
    ensures Consistent([]) && Keeps([], [])
  {
  }

  /** Where the URL is, or the length when it is absent. */
  function Place(files: seq<Value>, url: string): (n: nat)
    ensures n <= |files| && (n < |files| <==> Holds(files, url)) && (n < |files| ==> Url(files[n]) == url)
  {
    if files == [] then 0
    else if Url(files[|files| - 1]) == url then |files| - 1
    else
      var n := Place(files[..|files| - 1], url);
      if n < |files| - 1 then n else |files|
  }

  // ----- Packages, preference and date

  /** The packages a source lists, `None` when it lists none. */
  function PackagesOf(r: Source): Option<Value> {
    if r.value.Obj? && "packages" in r.value.fields && !r.value.fields["packages"].Null?
    then Some(r.value.fields["packages"]) else None
  }

  predicate Lists(r: Source, arch: string, metadata: Value) {
    PackagesOf(r).Some? && PackagesOf(r).value.Obj? && arch in PackagesOf(r).value.fields
    && PackagesOf(r).value.fields[arch] == metadata
  }

  ghost predicate ListedBy(rs: seq<Source>, arch: string, metadata: Value) {
    exists i :: 0 <= i < |rs| && Lists(rs[i], arch, metadata)
  }

  ghost predicate AnyPackages(rs: seq<Source>) {
    exists i :: 0 <= i < |rs| && PackagesOf(rs[i]).Some?
  }

  /** Packages are objects, and what two sources list for one architecture has one text. */
  ghost predicate PackagesOk(rs: seq<Source>) {
    && (forall i :: 0 <= i < |rs| && PackagesOf(rs[i]).Some? ==> PackagesOf(rs[i]).value.Obj?)
    && forall arch, x, y :: ListedBy(rs, arch, x) && ListedBy(rs, arch, y) ==> Stable(x) == Stable(y)
  }

  /** One listed entry for every listed architecture; nothing when no source lists any. */
  ghost predicate PackagesMerged(rs: seq<Source>, packages: Option<Fields>) {
    && (packages.Some? <==> AnyPackages(rs))
    && (packages.Some? ==> forall arch :: arch in packages.value ==> ListedBy(rs, arch, packages.value[arch]))
    && (packages.Some? ==> forall arch, x :: ListedBy(rs, arch, x) ==> arch in packages.value)
  }

  lemma ListedSnoc(rs: seq<Source>, r: Source)
    ensures forall arch, x :: ListedBy(rs + [r], arch, x) <==> ListedBy(rs, arch, x) || Lists(r, arch, x)
    ensures AnyPackages(rs + [r]) <==> AnyPackages(rs) || PackagesOf(r).Some?
  {
    hide Lists, PackagesOf;
    var all := rs + [r];
    assert all[|rs|] == r && forall i :: 0 <= i < |rs| ==> all[i] == rs[i];
    forall arch, x ensures ListedBy(all, arch, x) <==> ListedBy(rs, arch, x) || Lists(r, arch, x) {
      if ListedBy(rs, arch, x) {
        var i :| 0 <= i < |rs| && Lists(rs[i], arch, x);
        assert Lists(all[i], arch, x);
      }
      if Lists(r, arch, x) { assert Lists(all[|rs|], arch, x); }
    }
    if AnyPackages(rs) {
      var i :| 0 <= i < |rs| && PackagesOf(rs[i]).Some?;
      assert PackagesOf(all[i]).Some?;
    }
    if PackagesOf(r).Some? { assert PackagesOf(all[|rs|]).Some?; }
  }

  predicate Clash(out: Fields, more: Fields) {
    exists arch :: arch in more && arch in out && Stable(out[arch]) != Stable(more[arch])
  }

  function Gathered(packages: Option<Fields>): Fields {
    if packages.Some? then packages.value else map[]
  }

  lemma PackagesPrefix(rs: seq<Source>, r: Source)
    requires PackagesOk(rs + [r])
    ensures PackagesOk(rs)
  {
    hide Stable, Lists, PackagesOf;
    ListedSnoc(rs, r);
    assert forall i :: 0 <= i < |rs| ==> (rs + [r])[i] == rs[i];
  }

  lemma NoPackages(rs: seq<Source>, r: Source, packages: Option<Fields>)
    requires PackagesOk(rs) && PackagesMerged(rs, packages) && PackagesOf(r).None?
    ensures PackagesOk(rs + [r]) && PackagesMerged(rs + [r], packages)
  {
    hide Stable, PackagesOf;
    ListedSnoc(rs, r);
  }

  lemma PackagesAdded(rs: seq<Source>, r: Source, packages: Option<Fields>, more: Fields)
    requires PackagesOk(rs) && PackagesMerged(rs, packages) && PackagesOf(r) == Some(Obj(more))
    ensures PackagesOk(rs + [r]) <==> !Clash(Gathered(packages), more)
    ensures !Clash(Gathered(packages), more) ==> PackagesMerged(rs + [r], Some(Gathered(packages) + more))
  {
    hide Stable, PackagesOf, ListedBy, AnyPackages;
    ListedSnoc(rs, r);
    var out := Gathered(packages);
    assert forall arch :: arch in more <==> Lists(r, arch, if arch in more then more[arch] else Null);
    if Clash(out, more) {
      var arch :| arch in more && arch in out && Stable(out[arch]) != Stable(more[arch]);
      assert ListedBy(rs + [r], arch, out[arch]) && ListedBy(rs + [r], arch, more[arch]);
    }
    NothingListed(rs);
  }

  lemma NothingListed(rs: seq<Source>)
    ensures forall arch, x :: ListedBy(rs, arch, x) ==> AnyPackages(rs)
  {
  }

  /** `mergePackages` */
  method MergePackages(rs: seq<Source>) returns (ok: bool, packages: Option<Fields>)
    ensures ok == PackagesOk(rs)
    ensures ok ==> PackagesMerged(rs, packages)
  {
    hide Stable, Lists, PackagesOf, PackagesMerged;
    packages := None;
    NoneMerged();
    for n := 0 to |rs|
      invariant PackagesOk(rs[..n]) && PackagesMerged(rs[..n], packages)
    {
      assert rs[..n + 1] == rs[..n] + [rs[n]];
      var mine := PackagesOf(rs[n]);
      if mine.None? {
        NoPackages(rs[..n], rs[n], packages);
        continue;
      }
      if !mine.value.Obj? { return false, None; }
      PackagesAdded(rs[..n], rs[n], packages, mine.value.fields);
      if Clash(Gathered(packages), mine.value.fields) {
        NotYetOk(rs, n + 1);
        return false, None;
      }
      packages := Some(Gathered(packages) + mine.value.fields);
    }
    assert rs[..|rs|] == rs;
    ok := true;
  }

  lemma NoneMerged()
    ensures PackagesOk([]) && PackagesMerged([], None)
  {
  }

  lemma {:induction false} NotYetOk(rs: seq<Source>, n: nat)
    requires n <= |rs| && !PackagesOk(rs[..n])
    ensures !PackagesOk(rs)
    decreases |rs| - n
  {
    hide PackagesOk;
    if n == |rs| {
      assert rs[..n] == rs;
    } else {
      assert rs[..n + 1] == rs[..n] + [rs[n]];
      if PackagesOk(rs[..n + 1]) { PackagesPrefix(rs[..n], rs[n]); }
      NotYetOk(rs, n + 1);
    }
  }

  // ----- The preferred source

  predicate Boundary(c: char) { c == '-' || c == '_' || c == '/' }

  /** The path names the x64 architecture, in either case. */
  predicate X64(file: string) {
    exists i :: 0 <= i <= |file| - 3 && X64At(file, i)
  }

  predicate X64At(file: string, i: nat)
    requires i + 3 <= |file|
  {
    && (file[i] == 'x' || file[i] == 'X') && file[i + 1] == '6' && file[i + 2] == '4'
    && (i == 0 || Boundary(file[i - 1])) && (i + 3 == |file| || Boundary(file[i + 3]))
  }

  predicate Before(a: Source, b: Source, rank: string -> int) {
    if X64(a.file) != X64(b.file) then X64(a.file) else rank(a.file) < rank(b.file)
  }

  /** The head of the stable sort: the first of the least sources. */
  function Preferred(rs: seq<Source>, rank: string -> int): Source
    requires rs != []
  {
    if |rs| == 1 then rs[0]
    else
      var front, last := Preferred(rs[..|rs| - 1], rank), rs[|rs| - 1];
      if Before(last, front, rank) then last else front
  }

  predicate IsPreferred(rs: seq<Source>, p: Source, rank: string -> int) {
    p in rs && forall i :: 0 <= i < |rs| ==> !Before(rs[i], p, rank)
  }

  lemma {:induction false} PreferredIsLeast(rs: seq<Source>, rank: string -> int)
    requires rs != []
    ensures IsPreferred(rs, Preferred(rs, rank), rank)
    ensures exists i :: FirstLeast(rs, Preferred(rs, rank), rank, i)
  {
    hide X64;
    if |rs| > 1 {
      var n := |rs| - 1;
      var front := rs[..n];
      PreferredIsLeast(front, rank);
      assert forall i :: 0 <= i < n ==> front[i] == rs[i];
      var i :| FirstLeast(front, Preferred(front, rank), rank, i);
      assert FirstLeast(rs, Preferred(rs, rank), rank, if Before(rs[n], Preferred(front, rank), rank) then n else i);
    } else {
      assert FirstLeast(rs, Preferred(rs, rank), rank, 0);
    }
  }

  /** The source at i is p, and it comes before all sources in front of it. */
  predicate FirstLeast(rs: seq<Source>, p: Source, rank: string -> int, i: int) {
    0 <= i < |rs| && rs[i] == p && forall j :: 0 <= j < i ==> Before(p, rs[j], rank)
  }

  // ----- The release date

  /** `isoDate(value.releaseDate)` */
  function DateOf(r: Source): string {
    if r.value.Obj? && "releaseDate" in r.value.fields && !r.value.fields["releaseDate"].Null?
    then Text(r.value.fields["releaseDate"]) else ""
  }

  /** The last of the sorted dates; empty when there is none. */
  function Latest(rs: seq<Source>): string {
    if rs == [] then ""
    else
      var front, last := Latest(rs[..|rs| - 1]), DateOf(rs[|rs| - 1]);
      if Less(front, last) then last else front
  }

  predicate IsLatest(rs: seq<Source>, date: string) {
    && (date == "" || exists i :: 0 <= i < |rs| && DateOf(rs[i]) == date)
    && forall i :: 0 <= i < |rs| ==> !Less(date, DateOf(rs[i]))
  }

  lemma {:induction false} LatestIsGreatest(rs: seq<Source>)
    ensures IsLatest(rs, Latest(rs))
  {
    hide DateOf, Less;
    if rs != [] {
      var n := |rs| - 1;
      var front, last := Latest(rs[..n]), DateOf(rs[n]);
      LatestIsGreatest(rs[..n]);
      assert forall i :: 0 <= i < n ==> rs[..n][i] == rs[i];
      LessTotal(last, last);
      forall i | 0 <= i < n && Less(front, last) ensures !Less(last, DateOf(rs[i])) {
        assert rs[..n][i] == rs[i];
        if Less(last, DateOf(rs[i])) { LessTransitive(front, last, DateOf(rs[i])); }
      }
    }
  }

  // ----- mergeMetadata

  /** What a merge is made of. */
  datatype Parts = Parts(preferred: Source, files: seq<Value>, date: string, packages: Option<Fields>)

  function UrlRank(rank: string -> int): Value -> int {
    item => rank(Url(item))
  }

  ghost predicate Mergeable(rs: seq<Source>) {
    AllObjects(rs) && OneVersion(rs) && SharedOk(rs) && FilesOk(rs) && PackagesOk(rs)
  }

  ghost predicate IsMerge(rs: seq<Source>, p: Parts, rank: string -> int) {
    && IsPreferred(rs, p.preferred, rank)
    && StableSort.Sorted(p.files, UrlRank(rank)) && Keeps(p.files, AllItems(rs))
    && IsLatest(rs, p.date)
    && PackagesMerged(rs, p.packages)
  }

  function With(m: Fields, k: string, from: Value): Fields {
    if from.Obj? && k in from.fields && Truthy(from.fields[k]) then m[k := from.fields[k]] else m
  }

  /** The preferred source's fields under the merged ones. */
  function Assemble(p: Parts): Fields
    requires p.preferred.value.Obj? && p.files != []
  {
    var own := p.preferred.value.fields;
    var n := Place(p.files, TextField(own, "path"));
    var legacy := if n < |p.files| then p.files[n] else p.files[0];
    var m := own["files" := Arr(p.files)]["path" := Str(Url(legacy))];
    var hashed := With(With(m, "sha512", legacy), "sha2", legacy);
    var dated := if p.date != "" then hashed["releaseDate" := Str(p.date)] else hashed;
    if p.packages.Some? then dated["packages" := Obj(p.packages.value)] else dated
  }

  lemma {:induction false} InsertDistinct(xs: seq<Value>, x: Value, key: Value -> int)
    requires DistinctUrls(xs) && !Holds(xs, Url(x))
    ensures DistinctUrls(StableSort.Insert(xs, x, key))
  {
    hide Url;
    if xs != [] && key(xs[|xs| - 1]) > key(x) {
      var front := xs[..|xs| - 1];
      assert forall i :: 0 <= i < |front| ==> front[i] == xs[i];
      InsertDistinct(front, x, key);
      StableSort.InsertPermutes(front, x, key);
      var placed := StableSort.Insert(front, x, key);
      forall i | 0 <= i < |placed| ensures Url(placed[i]) != Url(xs[|xs| - 1]) {
        assert placed[i] in multiset(placed);
        assert placed[i] == x || placed[i] in front;
      }
    }
  }

  lemma {:induction false} SortDistinct(xs: seq<Value>, key: Value -> int)
    requires DistinctUrls(xs)
    ensures DistinctUrls(StableSort.Sort(xs, key))
  {
    hide Url, DistinctUrls, Holds;
    if xs != [] {
      var front, x := xs[..|xs| - 1], xs[|xs| - 1];
      FrontDistinct(xs);
      SortDistinct(front, key);
      StableSort.SortMembers(front, key);
      SameHolds(front, StableSort.Sort(front, key), Url(x));
      InsertDistinct(StableSort.Sort(front, key), x, key);
    }
  }

  lemma FrontDistinct(xs: seq<Value>)
    requires xs != [] && DistinctUrls(xs)
    ensures DistinctUrls(xs[..|xs| - 1]) && !Holds(xs[..|xs| - 1], Url(xs[|xs| - 1]))
  {
  }

  lemma SameHolds(xs: seq<Value>, ys: seq<Value>, url: string)
    requires forall x :: x in xs <==> x in ys
    ensures Holds(xs, url) <==> Holds(ys, url)
  {
    hide Url;
    if Holds(xs, url) {
      var i :| 0 <= i < |xs| && Url(xs[i]) == url;
      assert xs[i] in ys;
    }
    if Holds(ys, url) {
      var i :| 0 <= i < |ys| && Url(ys[i]) == url;
      assert ys[i] in xs;
    }
  }

  lemma KeepsSorted(files: seq<Value>, items: seq<Value>, key: Value -> int)
    requires Keeps(files, items)
    ensures Keeps(StableSort.Sort(files, key), items)
  {
    hide Url, DistinctUrls, Holds;
    var sorted := StableSort.Sort(files, key);
    SortDistinct(files, key);
    StableSort.SortMembers(files, key);
    forall i | 0 <= i < |sorted| ensures sorted[i] in items { assert sorted[i] in files; }
    forall j | 0 <= j < |items| ensures Holds(sorted, Url(items[j])) {
      SameHolds(files, sorted, Url(items[j]));
    }
  }

  /** `mergeMetadata`; `None` when it raises. */
  method MergeMetadata(rs: seq<Source>, rank: string -> int) returns (result: Option<Fields>, ghost parts: Parts)
    ensures result.Some? <==> Mergeable(rs)
    ensures result.Some? ==> IsMerge(rs, parts, rank) && parts.preferred.value.Obj? && parts.files != []
    ensures result.Some? ==> result.value == Assemble(parts)
    ensures result.Some? ==> IsResult(rs, result.value, rank) && Describes(rs, result.value, rank)
  {
    hide SharedOk, FilesOk, PackagesOk, PackagesMerged, IsPreferred, IsLatest, Keeps, Assemble, Version;
    parts := Parts(Source("", Null), [], "", None);
    if !AllObjects(rs) { return None, parts; }
    if !OneVersion(rs) { return None, parts; }
    var preferred := Preferred(rs, rank);
    PreferredIsLeast(rs, rank);
    var shared := CheckShared(rs);
    if !shared { return None, parts; }
    var files := CollectFiles(rs);
    if files.None? { return None, parts; }
    var sorted := StableSort.Sort(files.value, UrlRank(rank));
    StableSort.SortSorted(files.value, UrlRank(rank));
    KeepsSorted(files.value, AllItems(rs), UrlRank(rank));
    LatestIsGreatest(rs);
    var ok, packages := MergePackages(rs);
    if !ok { return None, parts; }
    SomethingKept(rs, sorted);
    PreferredIsObject(rs, preferred, rank);
    var whole := Parts(preferred, sorted, Latest(rs), packages);
    parts := whole;
    result := Some(Assemble(whole));
    ResultDescribes(rs, whole, rank);
    assert IsMerge(rs, whole, rank);
  }

  lemma PreferredIsObject(rs: seq<Source>, p: Source, rank: string -> int)
    requires AllObjects(rs) && IsPreferred(rs, p, rank)
    ensures p.value.Obj?
  {
  }

  lemma SomethingKept(rs: seq<Source>, files: seq<Value>)
    requires rs != [] && FilesOk(rs) && Keeps(files, AllItems(rs))
    ensures files != []
  {
    assert Items(rs[|rs| - 1]) != [];
    assert AllItems(rs) != [];
    assert Holds(files, Url(AllItems(rs)[0]));
  }

  // ----- The merge depends on the sources, not on their order

  ghost predicate SameSources(rs: seq<Source>, ss: seq<Source>) {
    forall r :: r in rs <==> r in ss
  }

  /** Reordering keeps the sources. */
  lemma ReorderedIsSame(rs: seq<Source>, ss: seq<Source>)
    requires multiset(rs) == multiset(ss)
    ensures SameSources(rs, ss)
  {
    forall r ensures r in rs <==> r in ss {
      assert r in multiset(rs) <==> r in multiset(ss);
    }
  }

  lemma {:induction false} AllItemsMembers(rs: seq<Source>, x: Value)
    ensures x in AllItems(rs) <==> exists r :: r in rs && x in Items(r)
  {
    hide Items;
    if rs != [] {
      var n := |rs| - 1;
      AllItemsMembers(rs[..n], x);
      assert rs == rs[..n] + [rs[n]];
      if r :| r in rs && x in Items(r) {
        assert r in rs[..n] || r == rs[n];
      }
    }
  }

  lemma SameItems(rs: seq<Source>, ss: seq<Source>)
    requires SameSources(rs, ss)
    ensures forall x :: x in AllItems(rs) <==> x in AllItems(ss)
  {
    forall x ensures x in AllItems(rs) <==> x in AllItems(ss) {
      AllItemsMembers(rs, x);
      AllItemsMembers(ss, x);
    }
  }

  lemma ConsistentTransfers(a: seq<Value>, b: seq<Value>)
    requires Consistent(a) && forall x :: x in b ==> x in a
    ensures Consistent(b)
  {
    hide Url, Stable;
    forall i | 0 <= i < |b| ensures Url(b[i]) != "" { assert b[i] in a; }
    forall i, j | 0 <= i < |b| && 0 <= j < |b| && Url(b[i]) == Url(b[j]) ensures Stable(b[i]) == Stable(b[j]) {
      assert b[i] in a && b[j] in a;
    }
  }

  lemma FilesOkTransfers(rs: seq<Source>, ss: seq<Source>)
    requires SameSources(rs, ss) && FilesOk(rs)
    ensures FilesOk(ss)
  {
    hide HasItems, Consistent;
    forall i | 0 <= i < |ss| ensures HasItems(ss[i]) { assert ss[i] in rs; }
    SameItems(rs, ss);
    ConsistentTransfers(AllItems(rs), AllItems(ss));
  }

  lemma ListedTransfers(rs: seq<Source>, ss: seq<Source>)
    requires SameSources(rs, ss)
    ensures forall arch, x :: ListedBy(rs, arch, x) ==> ListedBy(ss, arch, x)
    ensures AnyPackages(rs) ==> AnyPackages(ss)
  {
    hide Lists, PackagesOf;
    forall arch, x | ListedBy(rs, arch, x) ensures ListedBy(ss, arch, x) {
      var i :| 0 <= i < |rs| && Lists(rs[i], arch, x);
      assert rs[i] in ss;
    }
    if AnyPackages(rs) {
      var i :| 0 <= i < |rs| && PackagesOf(rs[i]).Some?;
      assert rs[i] in ss;
    }
  }

  lemma PackagesOkTransfers(rs: seq<Source>, ss: seq<Source>)
    requires SameSources(rs, ss) && PackagesOk(rs)
    ensures PackagesOk(ss)
  {
    hide PackagesOf, ListedBy, Stable;
    ListedTransfers(ss, rs);
    forall i | 0 <= i < |ss| && PackagesOf(ss[i]).Some? ensures PackagesOf(ss[i]).value.Obj? { assert ss[i] in rs; }
  }

  lemma HeadsTransfer(rs: seq<Source>, ss: seq<Source>)
    requires SameSources(rs, ss) && AllObjects(rs) && OneVersion(rs) && SharedOk(rs)
    ensures AllObjects(ss) && OneVersion(ss) && SharedOk(ss)
  {
    hide Version, StableField, PerArch;
    forall i | 0 <= i < |ss| ensures ss[i].value.Obj? { assert ss[i] in rs; }
    assert rs[0] in ss;
    assert forall i :: 0 <= i < |ss| ==> ss[i] in rs;
  }

  /** Merging fails in one order exactly when it fails in every order. */
  lemma FailureIsOrderFree(rs: seq<Source>, ss: seq<Source>)
    requires SameSources(rs, ss)
    ensures Mergeable(rs) <==> Mergeable(ss)
  {
    hide AllObjects, OneVersion, SharedOk, FilesOk, PackagesOk;
    if Mergeable(rs) { HeadsTransfer(rs, ss); FilesOkTransfers(rs, ss); PackagesOkTransfers(rs, ss); }
    if Mergeable(ss) { HeadsTransfer(ss, rs); FilesOkTransfers(ss, rs); PackagesOkTransfers(ss, rs); }
  }

  predicate PlainSources(rs: seq<Source>) {
    forall i :: 0 <= i < |rs| ==> Plain(rs[i].value)
  }

  /** The order tells apart the paths of different sources and different URLs. */
  predicate Ranked(rs: seq<Source>, rank: string -> int) {
    && (forall i, j :: 0 <= i < |rs| && 0 <= j < |rs| && rank(rs[i].file) == rank(rs[j].file) ==> rs[i] == rs[j])
    && UrlsApart(AllItems(rs), rank)
  }

  predicate UrlsApart(items: seq<Value>, rank: string -> int) {
    forall i, j :: 0 <= i < |items| && 0 <= j < |items| && rank(Url(items[i])) == rank(Url(items[j])) ==>
      Url(items[i]) == Url(items[j])
  }

  lemma PlainItems(r: Source, x: Value)
    requires Plain(r.value) && x in Items(r)
    ensures Plain(x)
  {
    var m := r.value.fields;
    if "files" in m && m["files"].Arr? && m["files"].items != [] {
      assert Plain(m["files"]);
    } else {
      PlainLegacyEntry(m["path"], m["sha512"]);
    }
  }

  lemma PlainLegacyEntry(path: Value, hash: Value)
    requires Plain(path) && Plain(hash)
    ensures Plain(Obj(map["url" := path, "sha512" := hash]))
  {
  }

  lemma AllPlain(rs: seq<Source>, x: Value)
    requires PlainSources(rs) && x in AllItems(rs)
    ensures Plain(x)
  {
    hide Plain, Items;
    AllItemsMembers(rs, x);
    var r :| r in rs && x in Items(r);
    PlainItems(r, x);
  }

  /** Every merged entry equals, up to key order, each source's entry for its URL. */
  lemma EntryEqualsEverySource(rs: seq<Source>, p: Parts, rank: string -> int, f: Value, r: Source, x: Value)
    requires FilesOk(rs) && PlainSources(rs) && IsMerge(rs, p, rank)
    requires f in p.files && r in rs && x in Items(r) && Url(x) == Url(f)
    ensures f == x
  {
    hide Plain, Stable, Url, Items, HasItems, IsPreferred, IsLatest, PackagesMerged, PlainSources;
    AllItemsMembers(rs, x);
    assert f in AllItems(rs);
    AllPlain(rs, x);
    AllPlain(rs, f);
    StableInjective(f, x);
  }

  /** The merged URLs are the union of the sources' URLs, each once. */
  lemma UrlsAreUnion(rs: seq<Source>, p: Parts, rank: string -> int, url: string)
    requires IsMerge(rs, p, rank)
    ensures Holds(p.files, url) <==> exists r :: r in rs && Holds(Items(r), url)
    ensures DistinctUrls(p.files)
  {
    hide Url, Items, IsPreferred, IsLatest, PackagesMerged, DistinctUrls;
    if Holds(p.files, url) {
      var i :| 0 <= i < |p.files| && Url(p.files[i]) == url;
      AllItemsMembers(rs, p.files[i]);
      var r :| r in rs && p.files[i] in Items(r);
      assert Holds(Items(r), url);
    }
    if r :| r in rs && Holds(Items(r), url) {
      var i :| 0 <= i < |Items(r)| && Url(Items(r)[i]) == url;
      AllItemsMembers(rs, Items(r)[i]);
      assert Items(r)[i] in AllItems(rs);
    }
  }

  lemma SameFiles(rs: seq<Source>, ss: seq<Source>, p: Parts, q: Parts, rank: string -> int)
    requires SameSources(rs, ss) && FilesOk(rs) && PlainSources(rs) && IsMerge(rs, p, rank) && IsMerge(ss, q, rank)
    ensures forall x :: x in q.files ==> x in p.files
  {
    hide Url, Items, HasItems, FilesOk, PlainSources, Plain, IsPreferred, IsLatest, PackagesMerged, DistinctUrls;
    SameItems(rs, ss);
    forall x | x in q.files ensures x in p.files {
      assert x in AllItems(rs);
      AllItemsMembers(rs, x);
      var r :| r in rs && x in Items(r);
      assert Holds(p.files, Url(x));
      var i :| 0 <= i < |p.files| && Url(p.files[i]) == Url(x);
      EntryEqualsEverySource(rs, p, rank, p.files[i], r, x);
    }
  }

  lemma {:induction false} SortedIsUnique(a: seq<Value>, b: seq<Value>, rank: string -> int)
    requires StableSort.Sorted(a, UrlRank(rank)) && StableSort.Sorted(b, UrlRank(rank)) && DistinctUrls(a)
    requires DistinctUrls(b)
    requires forall x :: x in a <==> x in b
    requires UrlsApart(a, rank)
    ensures a == b
  {
    hide Url, StableSort.Sorted, DistinctUrls, UrlsApart;
    if a != [] { assert a[0] in b; }
    if b != [] {
      assert b[0] in a;
      SameLast(a, b, rank);
      var front, rest, x := a[..|a| - 1], b[..|b| - 1], a[|a| - 1];
      assert a == front + [x] && b == rest + [x];
      DropLast(front, rest, x);
      FrontSorted(front, x, rank);
      FrontSorted(rest, x, rank);
      FrontApart(front, x, rank);
      SortedIsUnique(front, rest, rank);
    }
  }

  lemma {:induction false} FrontApart(front: seq<Value>, last: Value, rank: string -> int)
    requires UrlsApart(front + [last], rank)
    ensures UrlsApart(front, rank)
  {
    hide Url;
    assert forall i :: 0 <= i < |front| ==> (front + [last])[i] == front[i];
  }

  lemma {:induction false} SameLast(a: seq<Value>, b: seq<Value>, rank: string -> int)
    requires a != [] && b != [] && DistinctUrls(a)
    requires StableSort.Sorted(a, UrlRank(rank)) && StableSort.Sorted(b, UrlRank(rank))
    requires forall x :: x in a <==> x in b
    requires UrlsApart(a, rank)
    ensures a[|a| - 1] == b[|b| - 1]
  {
    hide Url, StableSort.Sorted;
    var x, y := a[|a| - 1], b[|b| - 1];
    assert x in b && y in a;
    LastIsGreatest(a, y, rank);
    LastIsGreatest(b, x, rank);
  }

  lemma {:induction false} FrontSorted(front: seq<Value>, last: Value, rank: string -> int)
    requires StableSort.Sorted(front + [last], UrlRank(rank)) && DistinctUrls(front + [last])
    ensures StableSort.Sorted(front, UrlRank(rank)) && DistinctUrls(front)
  {
    hide Url;
    assert forall i :: 0 <= i < |front| ==> (front + [last])[i] == front[i];
  }

  lemma LastIsGreatest(a: seq<Value>, y: Value, rank: string -> int)
    requires a != [] && StableSort.Sorted(a, UrlRank(rank)) && y in a
    ensures rank(Url(y)) <= rank(Url(a[|a| - 1]))
  {
    hide Url;
    var i :| 0 <= i < |a| && a[i] == y;
    if i < |a| - 1 { assert UrlRank(rank)(a[i]) <= UrlRank(rank)(a[|a| - 1]); }
  }

  lemma {:induction false} DropLast(a: seq<Value>, b: seq<Value>, last: Value)
    requires DistinctUrls(a + [last]) && DistinctUrls(b + [last])
    requires forall x :: x in a + [last] <==> x in b + [last]
    ensures forall x :: x in a <==> x in b
  {
    hide Url;
    forall x ensures x in a <==> x in b {
      assert x in a + [last] <==> x in b + [last];
      assert (a + [last])[|a|] == last && (b + [last])[|b|] == last;
      if x in a { var i :| 0 <= i < |a| && a[i] == x; assert (a + [last])[i] == x; }
      if x in b { var i :| 0 <= i < |b| && b[i] == x; assert (b + [last])[i] == x; }
    }
  }

  lemma SamePreferred(rs: seq<Source>, ss: seq<Source>, p: Source, q: Source, rank: string -> int)
    requires SameSources(rs, ss) && Ranked(rs, rank) && IsPreferred(rs, p, rank) && IsPreferred(ss, q, rank)
    ensures p == q
  {
    hide X64, AllItems;
    assert q in rs && p in ss;
  }

  lemma SameDate(rs: seq<Source>, ss: seq<Source>, d: string, e: string)
    requires SameSources(rs, ss) && IsLatest(rs, d) && IsLatest(ss, e)
    ensures d == e
  {
    hide DateOf;
    LessTotal(d, e);
    if d != "" {
      var i :| 0 <= i < |rs| && DateOf(rs[i]) == d;
      assert rs[i] in ss;
    }
    if e != "" {
      var i :| 0 <= i < |ss| && DateOf(ss[i]) == e;
      assert ss[i] in rs;
    }
  }

  lemma PlainListed(rs: seq<Source>, arch: string, x: Value)
    requires PlainSources(rs) && ListedBy(rs, arch, x)
    ensures Plain(x)
  {
    var i :| 0 <= i < |rs| && Lists(rs[i], arch, x);
    var v := PackagesOf(rs[i]).value;
    assert Plain(v);
  }

  lemma SamePackages(rs: seq<Source>, ss: seq<Source>, a: Option<Fields>, b: Option<Fields>)
    requires SameSources(rs, ss) && PackagesOk(rs) && PlainSources(rs) && PackagesMerged(rs, a) && PackagesMerged(ss, b)
    ensures a == b
  {
    hide PackagesOf, ListedBy, AnyPackages, Stable, Plain, PlainSources;
    ListedTransfers(rs, ss);
    ListedTransfers(ss, rs);
    if a.Some? {
      forall arch | arch in a.value ensures arch in b.value && a.value[arch] == b.value[arch] {
        var x, y := a.value[arch], b.value[arch];
        PlainListed(rs, arch, x);
        PlainListed(rs, arch, y);
        StableInjective(x, y);
      }
      assert a.value.Keys == b.value.Keys;
      assert a.value == b.value;
    }
  }

  /** Sources given in any order are merged into the same result, up to key order. */
  lemma OrderIndependent(rs: seq<Source>, ss: seq<Source>, p: Parts, q: Parts, rank: string -> int)
    requires SameSources(rs, ss) && Mergeable(rs) && PlainSources(rs) && Ranked(rs, rank)
    requires IsMerge(rs, p, rank) && IsMerge(ss, q, rank)
    ensures p == q
  {
    hide Url, Plain, PlainSources, Items, IsPreferred, IsLatest, PackagesMerged, FilesOk, PackagesOk, OneVersion;
    hide SharedOk;
    FailureIsOrderFree(rs, ss);
    SamePreferred(rs, ss, p.preferred, q.preferred, rank);
    SameDate(rs, ss, p.date, q.date);
    SamePackages(rs, ss, p.packages, q.packages);
    SameFiles(rs, ss, p, q, rank);
    PlainTransfers(rs, ss);
    SameFiles(ss, rs, q, p, rank);
    FilesRanked(rs, p.files, rank);
    SortedIsUnique(p.files, q.files, rank);
  }

  /** In particular a permutation of the sources changes neither success nor result. */
  lemma ReorderedMergesAlike(rs: seq<Source>, ss: seq<Source>, p: Parts, q: Parts, rank: string -> int)
    requires multiset(rs) == multiset(ss) && PlainSources(rs) && Ranked(rs, rank)
    ensures Mergeable(rs) <==> Mergeable(ss)
    ensures Mergeable(rs) && IsMerge(rs, p, rank) && IsMerge(ss, q, rank) ==> p == q
  {
    hide Mergeable, IsMerge, PlainSources, Ranked;
    ReorderedIsSame(rs, ss);
    FailureIsOrderFree(rs, ss);
    if Mergeable(rs) && IsMerge(rs, p, rank) && IsMerge(ss, q, rank) { OrderIndependent(rs, ss, p, q, rank); }
  }

  lemma PlainTransfers(rs: seq<Source>, ss: seq<Source>)
    requires SameSources(rs, ss) && PlainSources(rs)
    ensures PlainSources(ss)
  {
    hide Plain;
    forall i | 0 <= i < |ss| ensures Plain(ss[i].value) { assert ss[i] in rs; }
  }

  lemma FilesRanked(rs: seq<Source>, files: seq<Value>, rank: string -> int)
    requires Ranked(rs, rank) && Keeps(files, AllItems(rs))
    ensures UrlsApart(files, rank)
  {
    hide Url, AllItems;
    forall i, j | 0 <= i < |files| && 0 <= j < |files| && rank(Url(files[i])) == rank(Url(files[j]))
      ensures Url(files[i]) == Url(files[j])
    {
      assert files[i] in AllItems(rs) && files[j] in AllItems(rs);
    }
  }

  // ----- What the result says, field by field

  /** The result of a merge, whatever it is made of. */
  ghost predicate IsResult(rs: seq<Source>, m: Fields, rank: string -> int) {
    exists p: Parts :: IsMerge(rs, p, rank) && p.preferred.value.Obj? && p.files != [] && m == Assemble(p)
  }

  /** The same as in the source's own fields. */
  predicate AsIn(m: Fields, own: Fields, k: string) {
    (k in m <==> k in own) && (k in m ==> m[k] == own[k])
  }

  predicate UrlsInOrder(items: seq<Value>, rank: string -> int) {
    forall i, j :: 0 <= i < j < |items| ==> rank(Url(items[i])) <= rank(Url(items[j]))
  }

  /** Every entry is some source's. */
  ghost predicate DrawnFrom(rs: seq<Source>, items: seq<Value>) {
    forall i :: 0 <= i < |items| ==> FromSome(rs, items[i])
  }

  ghost predicate FromSome(rs: seq<Source>, x: Value) {
    exists r :: r in rs && x in Items(r)
  }

  /** Every source's entry is listed by its URL, with the text the source has for it. */
  ghost predicate CoversAll(rs: seq<Source>, items: seq<Value>) {
    && (forall r, x :: r in rs && x in Items(r) ==> Holds(items, Url(x)))
    && (forall i, r, x :: 0 <= i < |items| && r in rs && x in Items(r) && Url(x) == Url(items[i]) ==>
          Stable(x) == Stable(items[i]))
  }

  /** Distinct URLs in order, exactly those of the sources, each entry with the text every source has for it. */
  ghost predicate ListsFiles(rs: seq<Source>, items: seq<Value>, rank: string -> int) {
    items != [] && DistinctUrls(items) && UrlsInOrder(items, rank) && DrawnFrom(rs, items) && CoversAll(rs, items)
  }

  /** The listed entry the result points at: the one at the preferred path, else the first. */
  predicate IsLegacy(items: seq<Value>, path: string, legacy: Value) {
    && items != [] && legacy in items
    && (Holds(items, path) ==> Url(legacy) == path)
    && (!Holds(items, path) ==> legacy == items[0])
  }

  /** A hash field is the legacy entry's when that is set, else the preferred source's own. */
  predicate HashFrom(m: Fields, own: Fields, legacy: Value, k: string) {
    if legacy.Obj? && k in legacy.fields && Truthy(legacy.fields[k])
    then k in m && m[k] == legacy.fields[k]
    else AsIn(m, own, k)
  }

  ghost predicate DateFrom(rs: seq<Source>, m: Fields, own: Fields, date: string) {
    IsLatest(rs, date) && if date != "" then MapsTo(m, "releaseDate", Str(date)) else AsIn(m, own, "releaseDate")
  }

  ghost predicate PackagesFrom(rs: seq<Source>, m: Fields, own: Fields) {
    if AnyPackages(rs)
    then "packages" in m && m["packages"].Obj? && PackagesMerged(rs, Some(m["packages"].fields))
    else AsIn(m, own, "packages")
  }

  predicate MapsTo(m: Fields, k: string, v: Value) {
    k in m && m[k] == v
  }

  /** Fields that are not tied to an architecture agree with every source. */
  ghost predicate SharedFrom(rs: seq<Source>, m: Fields) {
    forall k, r :: k !in PerArch() && r in rs && r.value.Obj? ==> StableField(m, k) == StableField(r.value.fields, k)
  }

  /** One version for all, and not an empty one. */
  ghost predicate VersionFrom(rs: seq<Source>, m: Fields) {
    forall r :: r in rs && r.value.Obj? ==> TextField(m, "version") == TextField(r.value.fields, "version") != ""
  }

  ghost predicate DescribesBy(rs: seq<Source>, m: Fields, rank: string -> int, preferred: Source, legacy: Value,
                              date: string) {
    && IsPreferred(rs, preferred, rank) && preferred.value.Obj?
    && "files" in m && m["files"].Arr? && ListsFiles(rs, m["files"].items, rank)
    && IsLegacy(m["files"].items, TextField(preferred.value.fields, "path"), legacy)
    && MapsTo(m, "path", Str(Url(legacy)))
    && HashFrom(m, preferred.value.fields, legacy, "sha512") && HashFrom(m, preferred.value.fields, legacy, "sha2")
    && DateFrom(rs, m, preferred.value.fields, date)
    && PackagesFrom(rs, m, preferred.value.fields)
    && (forall k :: k !in PerArch() ==> AsIn(m, preferred.value.fields, k))
    && SharedFrom(rs, m)
    && VersionFrom(rs, m)
  }

  /** Every field of a merged result, in terms of the sources. */
  ghost predicate Describes(rs: seq<Source>, m: Fields, rank: string -> int) {
    exists preferred, legacy, date :: DescribesBy(rs, m, rank, preferred, legacy, date)
  }

  /** Which keys an assembled result takes from where. */
  lemma AssembledFields(p: Parts, legacy: Value)
    requires p.preferred.value.Obj? && p.files != []
    requires var n := Place(p.files, TextField(p.preferred.value.fields, "path"));
             legacy == if n < |p.files| then p.files[n] else p.files[0]
    ensures var m, own := Assemble(p), p.preferred.value.fields;
            && MapsTo(m, "files", Arr(p.files)) && MapsTo(m, "path", Str(Url(legacy)))
            && HashFrom(m, own, legacy, "sha512") && HashFrom(m, own, legacy, "sha2")
            && (if p.date != "" then MapsTo(m, "releaseDate", Str(p.date)) else AsIn(m, own, "releaseDate"))
            && (if p.packages.Some? then MapsTo(m, "packages", Obj(p.packages.value)) else AsIn(m, own, "packages"))
  {
    hide Url, TextField, Place, Truthy, With, HashFrom, AsIn;
    var own := p.preferred.value.fields;
    var m := own["files" := Arr(p.files)]["path" := Str(Url(legacy))];
    OtherKeys(own, Arr(p.files), Str(Url(legacy)));
    var hashed := With(With(m, "sha512", legacy), "sha2", legacy);
    HashedFields(m, own, legacy);
    LaterFields(hashed, own, legacy, p);
  }

  lemma OtherKeys(own: Fields, files: Value, path: Value)
    ensures var m := own["files" := files]["path" := path];
            && AsIn(m, own, "sha512") && AsIn(m, own, "sha2") && AsIn(m, own, "releaseDate") && AsIn(m, own, "packages")
  {
  }

  lemma HashedFields(m: Fields, own: Fields, legacy: Value)
    requires AsIn(m, own, "sha512") && AsIn(m, own, "sha2") && AsIn(m, own, "releaseDate") && AsIn(m, own, "packages")
    requires "files" in m && "path" in m
    ensures var h := With(With(m, "sha512", legacy), "sha2", legacy);
            && HashFrom(h, own, legacy, "sha512") && HashFrom(h, own, legacy, "sha2")
            && AsIn(h, own, "releaseDate") && AsIn(h, own, "packages")
            && MapsTo(h, "files", m["files"]) && MapsTo(h, "path", m["path"])
  {
    hide Truthy;
  }

  /** Setting the date and the packages leaves the other fields alone. */
  lemma LaterFields(hashed: Fields, own: Fields, legacy: Value, p: Parts)
    requires HashFrom(hashed, own, legacy, "sha512") && HashFrom(hashed, own, legacy, "sha2")
    requires AsIn(hashed, own, "releaseDate") && AsIn(hashed, own, "packages") && "files" in hashed && "path" in hashed
    ensures var dated := if p.date != "" then hashed["releaseDate" := Str(p.date)] else hashed;
            var m := if p.packages.Some? then dated["packages" := Obj(p.packages.value)] else dated;
            && HashFrom(m, own, legacy, "sha512") && HashFrom(m, own, legacy, "sha2")
            && MapsTo(m, "files", hashed["files"]) && MapsTo(m, "path", hashed["path"])
            && (if p.date != "" then MapsTo(m, "releaseDate", Str(p.date)) else AsIn(m, own, "releaseDate"))
            && (if p.packages.Some? then MapsTo(m, "packages", Obj(p.packages.value)) else AsIn(m, own, "packages"))
  {
    hide Truthy;
  }

  lemma AssembledElsewhere(p: Parts, k: string)
    requires p.preferred.value.Obj? && p.files != [] && k !in PerArch()
    ensures AsIn(Assemble(p), p.preferred.value.fields, k)
  {
    NotPerArch(k);
    hide Url, TextField, Place, Truthy, PerArch;
  }

  /** Six fields are per architecture, all others are shared. */
  lemma NotPerArch(k: string)
    ensures k !in PerArch() <==>
            k != "files" && k != "packages" && k != "path" && k != "sha512" && k != "sha2" && k != "releaseDate"
  {
  }

  lemma ListedFiles(rs: seq<Source>, p: Parts, rank: string -> int)
    requires FilesOk(rs) && IsMerge(rs, p, rank) && p.files != []
    ensures ListsFiles(rs, p.files, rank)
  {
    hide IsPreferred, IsLatest, PackagesMerged;
    ListedInOrder(p.files, rank);
    ListedDrawn(rs, p.files);
    ListedCovers(rs, p.files);
    hide UrlsInOrder, DrawnFrom, CoversAll;
  }

  lemma ListedInOrder(items: seq<Value>, rank: string -> int)
    requires StableSort.Sorted(items, UrlRank(rank))
    ensures UrlsInOrder(items, rank)
  {
    hide Url;
    forall i, j | 0 <= i < j < |items| ensures rank(Url(items[i])) <= rank(Url(items[j])) {
      assert UrlRank(rank)(items[i]) <= UrlRank(rank)(items[j]);
    }
  }

  lemma ListedDrawn(rs: seq<Source>, items: seq<Value>)
    requires Keeps(items, AllItems(rs))
    ensures DrawnFrom(rs, items)
  {
    hide Url, Items;
    forall i | 0 <= i < |items| ensures FromSome(rs, items[i]) {
      AllItemsMembers(rs, items[i]);
    }
  }

  lemma ListedCovers(rs: seq<Source>, items: seq<Value>)
    requires FilesOk(rs) && Keeps(items, AllItems(rs))
    ensures CoversAll(rs, items)
  {
    hide Url, Items, Stable, HasItems;
    forall r, x | r in rs && x in Items(r) ensures Holds(items, Url(x)) {
      AllItemsMembers(rs, x);
    }
    forall i, r, x | 0 <= i < |items| && r in rs && x in Items(r) && Url(x) == Url(items[i])
      ensures Stable(x) == Stable(items[i])
    {
      AllItemsMembers(rs, x);
      assert items[i] in AllItems(rs) && x in AllItems(rs);
    }
  }

  lemma LegacyOf(items: seq<Value>, path: string) returns (legacy: Value)
    requires items != []
    ensures IsLegacy(items, path, legacy)
    ensures var n := Place(items, path); legacy == if n < |items| then items[n] else items[0]
  {
    hide Url;
    var n := Place(items, path);
    legacy := if n < |items| then items[n] else items[0];
  }

  lemma SharedEverywhere(rs: seq<Source>, p: Source, m: Fields, rank: string -> int)
    requires AllObjects(rs) && SharedOk(rs) && IsPreferred(rs, p, rank) && p.value.Obj?
    requires forall k :: k !in PerArch() ==> AsIn(m, p.value.fields, k)
    ensures SharedFrom(rs, m)
  {
    hide PerArch, Stable;
    forall k, r | k !in PerArch() && r in rs && r.value.Obj?
      ensures StableField(m, k) == StableField(r.value.fields, k)
    {
      var i :| 0 <= i < |rs| && rs[i] == p;
      var j :| 0 <= j < |rs| && rs[j] == r;
      assert AsIn(m, p.value.fields, k);
      if k in p.value.fields || k in r.value.fields {
        assert StableField(rs[i].value.fields, k) == StableField(rs[j].value.fields, k);
      }
    }
  }

  lemma VersionEverywhere(rs: seq<Source>, p: Source, m: Fields, rank: string -> int)
    requires AllObjects(rs) && OneVersion(rs) && IsPreferred(rs, p, rank) && p.value.Obj?
    requires forall k :: k !in PerArch() ==> AsIn(m, p.value.fields, k)
    ensures VersionFrom(rs, m)
  {
    assert "version" !in PerArch();
    assert AsIn(m, p.value.fields, "version");
    hide PerArch, Text, Truthy;
    var i :| 0 <= i < |rs| && rs[i] == p;
    assert TextField(m, "version") == Version(rs[i]);
    forall r | r in rs ensures TextField(m, "version") == TextField(r.value.fields, "version") != "" {
      var j :| 0 <= j < |rs| && rs[j] == r;
      assert Version(rs[j]) == Version(rs[0]) == Version(rs[i]);
    }
  }

  lemma ResultDescribes(rs: seq<Source>, p: Parts, rank: string -> int)
    requires Mergeable(rs) && IsMerge(rs, p, rank) && p.preferred.value.Obj? && p.files != []
    ensures Describes(rs, Assemble(p), rank)
  {
    hide Assemble, PerArch, ListsFiles, IsLegacy, HashFrom, AsIn, SharedFrom, IsLatest, PackagesMerged, FilesOk;
    hide IsPreferred, SharedOk, OneVersion, PackagesOk, Keeps, AnyPackages, VersionFrom;
    var m := Assemble(p);
    var legacy := LegacyOf(p.files, TextField(p.preferred.value.fields, "path"));
    AssembledFields(p, legacy);
    forall k | k !in PerArch() ensures AsIn(m, p.preferred.value.fields, k) { AssembledElsewhere(p, k); }
    ListedFiles(rs, p, rank);
    SharedEverywhere(rs, p.preferred, m, rank);
    VersionEverywhere(rs, p.preferred, m, rank);
    MergedIffAny(rs, p.packages);
    assert DescribesBy(rs, m, rank, p.preferred, legacy, p.date);
  }

  lemma MergedIffAny(rs: seq<Source>, packages: Option<Fields>)
    requires PackagesMerged(rs, packages)
    ensures packages.Some? <==> AnyPackages(rs)
  {
  }

  /** With plain keys merged entries and shared fields are equal to every source's, up to key order. */
  lemma PlainResult(rs: seq<Source>, m: Fields, rank: string -> int)
    requires AllObjects(rs) && PlainSources(rs) && Describes(rs, m, rank)
    ensures "files" in m && m["files"].Arr?
    ensures var items := m["files"].items;
            forall i, r, x :: 0 <= i < |items| && r in rs && x in Items(r) && Url(x) == Url(items[i]) ==> x == items[i]
    ensures forall k, r :: k !in PerArch() && r in rs ==> r.value.Obj? && AsIn(m, r.value.fields, k)
  {
    var preferred, legacy, date :| DescribesBy(rs, m, rank, preferred, legacy, date);
    var items := m["files"].items;
    forall i, r, x | 0 <= i < |items| && r in rs && x in Items(r) && Url(x) == Url(items[i]) ensures x == items[i] {
      PlainItemsOf(rs, items, rank, i, r, x);
    }
    forall k, r | k !in PerArch() && r in rs ensures r.value.Obj? && AsIn(m, r.value.fields, k) {
      PlainShared(rs, m, preferred, r, k);
    }
  }

  lemma PlainItemsOf(rs: seq<Source>, items: seq<Value>, rank: string -> int, i: nat, r: Source, x: Value)
    requires PlainSources(rs) && ListsFiles(rs, items, rank) && i < |items| && r in rs && x in Items(r)
    requires Url(x) == Url(items[i])
    ensures x == items[i]
  {
    hide Url, Plain, Stable, Items;
    assert FromSome(rs, items[i]);
    var s :| s in rs && items[i] in Items(s);
    PlainItems(s, items[i]);
    PlainItems(r, x);
    StableInjective(x, items[i]);
  }

  lemma PlainShared(rs: seq<Source>, m: Fields, preferred: Source, r: Source, k: string)
    requires AllObjects(rs) && PlainSources(rs) && SharedFrom(rs, m) && preferred in rs && r in rs && k !in PerArch()
    requires preferred.value.Obj? && AsIn(m, preferred.value.fields, k)
    ensures r.value.Obj? && AsIn(m, r.value.fields, k)
  {
    hide PerArch, Stable;
    var own, other := preferred.value.fields, r.value.fields;
    assert StableField(m, k) == StableField(own, k) == StableField(other, k);
    AbsentIsDistinct(own, other, k);
  }

  /** Two orders of the sources give equal results. */
  lemma ResultsAlike(rs: seq<Source>, ss: seq<Source>, m: Fields, n: Fields, rank: string -> int)
    requires SameSources(rs, ss) && Mergeable(rs) && PlainSources(rs) && Ranked(rs, rank)
    requires IsResult(rs, m, rank) && IsResult(ss, n, rank)
    ensures m == n
  {
    hide Assemble, Mergeable, PlainSources, Ranked, IsMerge, SameSources;
    var p :| IsMerge(rs, p, rank) && p.preferred.value.Obj? && p.files != [] && m == Assemble(p);
    var q :| IsMerge(ss, q, rank) && q.preferred.value.Obj? && q.files != [] && n == Assemble(q);
    OrderIndependent(rs, ss, p, q, rank);
  }

  /** What a source lists, or its single legacy file, is among the merged files. */
  lemma ListedIsKept(rs: seq<Source>, r: Source, items: seq<Value>, rank: string -> int)
    requires ListsFiles(rs, items, rank) && r in rs && HasItems(r)
    ensures var own := r.value.fields;
            if "files" in own && own["files"].Arr? && own["files"].items != []
            then forall x :: x in own["files"].items ==> Holds(items, Url(x))
            else "path" in own && "sha512" in own && Truthy(own["sha512"]) && Holds(items, Text(own["path"]))
  {
    var own := r.value.fields;
    if !("files" in own && own["files"].Arr? && own["files"].items != []) {
      var x := Obj(map["url" := own["path"], "sha512" := own["sha512"]]);
      assert x in Items(r);
      assert Url(x) == Text(own["path"]);
    }
  }

  // ----- How fields are read

  /** Strings are read as they are; a date that is a string, and packages that are an object, are taken as such. */
  lemma StringsReadAsThemselves(r: Source, m: Fields, k: string, text: string)
    ensures k in m && m[k] == Str(text) ==> TextField(m, k) == text
    ensures k !in m || m[k] == Null ==> TextField(m, k) == ""
    ensures "url" in m && m["url"] == Str(text) ==> Url(Obj(m)) == text
    ensures r.value == Obj(m) && "releaseDate" in m && m["releaseDate"] == Str(text) ==> DateOf(r) == text
    ensures r.value == Obj(m) && ("releaseDate" !in m || m["releaseDate"] == Null) ==> DateOf(r) == ""
  {
  }

  lemma PackagesReadAsThemselves(r: Source, m: Fields, p: Fields, arch: string)
    requires r.value == Obj(m)
    ensures "packages" in m && m["packages"] == Obj(p) ==>
      forall x :: Lists(r, arch, x) <==> arch in p && p[arch] == x
    ensures "packages" !in m || m["packages"] == Null ==> forall x :: !Lists(r, arch, x)
  {
  }

  /** No date of a source is later than the merged one, in dictionary order. */
  lemma DateIsLast(rs: seq<Source>, m: Fields, rank: string -> int, r: Source, text: string)
    requires Describes(rs, m, rank) && r in rs && r.value.Obj? && text != ""
    requires MapsTo(r.value.fields, "releaseDate", Str(text))
    ensures "releaseDate" in m && m["releaseDate"].Str? && !Less(m["releaseDate"].text, text)
  {
    hide Less, ListsFiles, IsLegacy, HashFrom, PackagesFrom, SharedFrom, VersionFrom, PerArch;
    var preferred, legacy, date :| DescribesBy(rs, m, rank, preferred, legacy, date);
    StringsReadAsThemselves(r, r.value.fields, "releaseDate", text);
    var i :| 0 <= i < |rs| && rs[i] == r;
    assert !Less(date, DateOf(rs[i]));
    LessTotal("", text);
    EmptyIsLeast(text);
  }

  lemma EmptyIsLeast(text: string)
    requires text != ""
    ensures Less("", text)
  {
  }

  /** The path has a component, between its ends and separators, that reads x64 in either case. */
  ghost predicate HasX64(file: string, a: string, c: char, b: string) {
    && file == a + [c, '6', '4'] + b && (c == 'x' || c == 'X')
    && (a == "" || Boundary(a[|a| - 1])) && (b == "" || Boundary(b[0]))
  }

  lemma X64Iff(file: string)
    ensures X64(file) <==> exists a, c, b :: HasX64(file, a, c, b)
  {
    hide X64At, HasX64;
    if X64(file) {
      var i :| 0 <= i <= |file| - 3 && X64At(file, i);
      X64Around(file, i);
    }
    if a, c, b :| HasX64(file, a, c, b) { X64Within(file, a, c, b); }
  }

  lemma {:induction false} X64Around(file: string, i: nat)
    requires i + 3 <= |file| && X64At(file, i)
    ensures HasX64(file, file[..i], file[i], file[i + 3..])
  {
    assert file == file[..i] + [file[i], '6', '4'] + file[i + 3..];
  }

  lemma {:induction false} X64Within(file: string, a: string, c: char, b: string)
    requires HasX64(file, a, c, b)
    ensures |a| + 3 <= |file| && X64At(file, |a|)
  {
    var i := |a|;
    assert file[i] == c && file[i + 1] == '6' && file[i + 2] == '4';
    assert i > 0 ==> file[i - 1] == a[|a| - 1];
    assert i + 3 < |file| ==> file[i + 3] == b[0];
  }

  /** An x64 source is preferred to every other, and among equals the first path. */
  lemma PreferenceRule(rs: seq<Source>, p: Source, rank: string -> int, r: Source)
    requires IsPreferred(rs, p, rank) && r in rs
    ensures X64(r.file) ==> X64(p.file)
    ensures X64(r.file) == X64(p.file) ==> rank(p.file) <= rank(r.file)
  {
    hide X64;
    var i :| 0 <= i < |rs| && rs[i] == r;
    assert !Before(rs[i], p, rank);
  }

  /** An order that tells all strings apart does so for every merge of sources from different paths. */
  lemma InjectiveRanks(rs: seq<Source>, rank: string -> int)
    requires forall a, b :: rank(a) == rank(b) ==> a == b
    requires forall i, j :: 0 <= i < j < |rs| ==> rs[i].file != rs[j].file
    ensures Ranked(rs, rank)
  {
    hide Url, AllItems;
  }
}
