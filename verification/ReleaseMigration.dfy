/**
 Resumable release migration, scripts/migrate-release-assets.py.

 One `GitHub` object is one run of the script. The destination repository and the cache
 directory outlive it; `weather` lists what goes wrong with its calls, in order, and an
 empty list means that nothing does. A run that is stopped, by an error it raises or by a
 crash, simply ends; the next run starts with a new object.
 */
module ReleaseMigration {
  import opened Options
  import DM = DistributionMarker

  type Bytes = seq<bv8>
  type Text = DM.Text

  /** A listed digest: `sha256:` with its hex digits, or anything else. */
  datatype Digest = Sha256(hex: string) | Other

  /** What a listing tells about an asset. */
  datatype Info = Info(size: int, digest: Digest)

  datatype Asset = Asset(name: string, info: Info, content: Bytes)

  /** `notes` is the body the destination gets in front of its marker. */
  datatype Source = Source(draft: bool, prerelease: bool, assets: seq<Asset>, notes: Text)

  /** A release of the destination repository; its position there is its id. */
  datatype Release = Release(tagName: Text, body: Text, draft: bool, prerelease: bool, assets: map<string, Bytes>)

  /**
   A migration: what to copy and under which tag; the digest function; how a locator is
   written into and read from a body; the name a new draft gets and the prefix of names
   that stand for a missing Git ref; the suffix of partial downloads.
   */
  datatype Job = Job(source: Source, tag: Text, sha: Bytes -> string,
                     mark: Text -> Text, locate: Text -> Option<Text>, draftName: Text, untagged: Text, part: string)

  /** What happens to one remote call. */
  datatype Event =
    | Fine                                      // it works
    | Refused                                   // it fails without effect
    | CrashBefore                               // the script dies before it
    | CrashAfter                                // the script dies right after its effect
    | Garbled(bytes: Bytes, reply: Option<Info>) // other bytes arrive, and any reply
    | Lost(bytes: Bytes)                        // some bytes arrive, the connection breaks

  function Head(weather: seq<Event>): Event {
    if weather == [] then Fine else weather[0]
  }

  /** One upload that stored something. */
  datatype Sent = Sent(name: string, bytes: Bytes)

  function NamesSent(uploads: seq<Sent>): seq<string> {
    if uploads == [] then [] else NamesSent(uploads[..|uploads| - 1]) + [uploads[|uploads| - 1].name]
  }

  lemma NamesSentSnoc(uploads: seq<Sent>, u: Sent)
    ensures NamesSent(uploads + [u]) == NamesSent(uploads) + [u.name]
  {
    assert (uploads + [u])[..|uploads|] == uploads;
  }

  // ----- Inventories

  predicate SafeName(name: string) {
    name != "" && '/' !in name && '\\' !in name && name != "." && name != ".."
  }

  /** A safe name is one component of a path and leads nowhere else. */
  lemma SafeNameIff(name: string)
    ensures SafeName(name) <==> name !in {"", ".", ".."} && forall i :: 0 <= i < |name| ==> name[i] !in {'/', '\\'}
  {
    if '/' in name { var i :| 0 <= i < |name| && name[i] == '/'; }
    if '\\' in name { var i :| 0 <= i < |name| && name[i] == '\\'; }
  }

  predicate ValidListing(assets: seq<Asset>) {
    && (forall i :: 0 <= i < |assets| ==> SafeName(assets[i].name) && assets[i].info.digest.Sha256?)
    && (forall i, j :: 0 <= i < j < |assets| ==> assets[i].name != assets[j].name)
  }

  /** The inventory of a listing whose names are distinct. */
  function Listed(assets: seq<Asset>): map<string, Info> {
    if assets == [] then map[]
    else Listed(assets[..|assets| - 1])[assets[|assets| - 1].name := assets[|assets| - 1].info]
  }

  lemma {:induction false} ListedNames(assets: seq<Asset>, name: string)
    ensures name in Listed(assets) <==> exists i :: 0 <= i < |assets| && assets[i].name == name
    ensures ValidListing(assets) ==> forall i :: 0 <= i < |assets| ==>
      assets[i].name in Listed(assets) && Listed(assets)[assets[i].name] == assets[i].info
  {
    if assets != [] {
      var n := |assets| - 1;
      ListedNames(assets[..n], name);
      if i :| 0 <= i < |assets| && assets[i].name == name {
        if i < n { assert assets[..n][i].name == name; }
      }
      if ValidListing(assets) {
        forall i | 0 <= i < |assets|
          ensures assets[i].name in Listed(assets) && Listed(assets)[assets[i].name] == assets[i].info
        {
          if i < n { assert assets[..n][i] == assets[i]; }
        }
      }
    }
  }

  /** `inventory(source)`; `None` when it raises. */
  method Inventory(assets: seq<Asset>) returns (result: Option<map<string, Info>>)
    ensures result == if ValidListing(assets) then Some(Listed(assets)) else None
  {
    hide ValidListing, Listed, SafeName;
    var found: map<string, Info> := map[];
    EmptyListing();
    for n := 0 to |assets|
      invariant ValidListing(assets[..n]) && found == Listed(assets[..n])
    {
      var asset := assets[n];
      ListingSnoc(assets[..n], asset);
      assert assets[..n + 1] == assets[..n] + [asset];
      if !SafeName(asset.name) || asset.name in found || asset.info.digest.Other? {
        ListingPrefix(assets, n + 1);
        return None;
      }
      found := found[asset.name := asset.info];
    }
    assert assets[..|assets|] == assets;
    result := Some(found);
  }

  lemma EmptyListing()
    ensures ValidListing([]) && Listed([]) == map[]
  {
  }

  lemma ListingPrefix(assets: seq<Asset>, n: nat)
    requires n <= |assets|
    ensures ValidListing(assets) ==> ValidListing(assets[..n])
  {
  }

  lemma ListingSnoc(front: seq<Asset>, asset: Asset)
    requires ValidListing(front)
    ensures ValidListing(front + [asset]) <==>
      SafeName(asset.name) && asset.name !in Listed(front) && asset.info.digest.Sha256?
    ensures Listed(front + [asset]) == Listed(front)[asset.name := asset.info]
  {
    hide SafeName;
    var all := front + [asset];
    assert all[..|front|] == front && all[|front|] == asset;
    ListedNames(front, asset.name);
    if asset.name in Listed(front) {
      var i :| 0 <= i < |front| && front[i].name == asset.name;
      assert all[i].name == all[|front|].name;
    }
  }

  function InfoOf(bytes: Bytes, sha: Bytes -> string): Info {
    Info(|bytes|, Sha256(sha(bytes)))
  }

  /** What the destination lists for the bytes it stores. */
  function Stored(assets: map<string, Bytes>, sha: Bytes -> string): map<string, Info> {
    map name | name in assets :: InfoOf(assets[name], sha)
  }

  predicate SafeNames(assets: map<string, Bytes>) {
    forall name :: name in assets ==> SafeName(name)
  }

  // ----- What must hold of the repository

  /** The release is found under the tag: by its name or by the locator in its body. */
  predicate Located(r: Release, job: Job) {
    r.tagName == job.tag || job.locate(r.body) == Some(job.tag)
  }

  predicate Complete(r: Release, job: Job) {
    ValidListing(job.source.assets) && Stored(r.assets, job.sha) == Listed(job.source.assets)
  }

  /** Public only with the source's inventory and never for a draft source. */
  predicate Sound(r: Release, job: Job) {
    && (r.draft || (!job.source.draft && Complete(r, job)))
    && (job.locate(r.body) == None || job.locate(r.body) == Some(job.tag))
  }

  /** At most one release is found under the tag, and it is sound. */
  predicate RepoOk(releases: seq<Release>, job: Job) {
    && (forall i, j :: 0 <= i < j < |releases| ==> !(Located(releases[i], job) && Located(releases[j], job)))
    && (forall i :: 0 <= i < |releases| && Located(releases[i], job) ==> Sound(releases[i], job))
  }

  predicate Within(a: map<string, Bytes>, b: map<string, Bytes>) {
    forall name :: name in a ==> name in b && b[name] == a[name]
  }

  /** One change: stored assets stay as they are, other releases are untouched. */
  predicate Grows(before: seq<Release>, after: seq<Release>, job: Job) {
    && |before| <= |after| <= |before| + 1
    && (forall i :: 0 <= i < |before| ==> Within(before[i].assets, after[i].assets) && before[i].body == after[i].body)
    && (forall i :: 0 <= i < |before| && !Located(before[i], job) ==> after[i] == before[i])
    && (|after| > |before| ==> Located(after[|before|], job) && forall i :: 0 <= i < |before| ==>
      !Located(before[i], job))
  }

  /** Every state the repository went through is in order, and so is every change. */
  ghost predicate GoodHistory(history: seq<seq<Release>>, job: Job) {
    var n := |history|;
    && n > 0 && RepoOk(history[n - 1], job)
    && (n > 1 ==> Grows(history[n - 2], history[n - 1], job) && GoodHistory(history[..n - 1], job))
  }

  lemma {:induction false} GoodHistoryThroughout(history: seq<seq<Release>>, job: Job, i: nat)
    requires GoodHistory(history, job) && i < |history|
    ensures RepoOk(history[i], job)
    ensures i + 1 < |history| ==> Grows(history[i], history[i + 1], job)
  {
    var n := |history|;
    if i < n - 1 { GoodHistoryThroughout(history[..n - 1], job, i); }
  }

  /** No asset is named like the partial download of another. */
  predicate PartFree(job: Job) {
    forall i, j :: 0 <= i < |job.source.assets| && 0 <= j < |job.source.assets| ==>
      job.source.assets[i].name != job.source.assets[j].name + job.part
  }

  /** Every file under a final name has the source's size and digest. */
  predicate CacheClean(cache: map<string, Bytes>, job: Job) {
    forall i :: 0 <= i < |job.source.assets| && job.source.assets[i].name in cache ==>
      InfoOf(cache[job.source.assets[i].name], job.sha) == job.source.assets[i].info
  }

  /** The locator written into the new release is read back as the tag. */
  predicate Relocatable(job: Job) {
    job.locate(job.source.notes + job.mark(job.tag)) == Some(job.tag)
  }

  /** With the script's own marker that is so for exactly the tags free of surrogate pairs. */
  lemma MarkerRelocatesIff(job: Job)
    requires forall t :: job.mark(t) == DM.Marker(t)
    requires forall t :: job.locate(t) == DM.MarkedTag(t)
    ensures Relocatable(job) <==> job.tag != [] && !DM.HasSurrogatePair(job.tag)
  {
    DM.MarkerRoundTripIff(job.source.notes, job.tag);
  }

  function Names(assets: seq<Asset>): set<string> {
    set a | a in assets :: a.name
  }

  /** The names still to be uploaded, in order. */
  function Missing(assets: seq<Asset>, have: set<string>): seq<string> {
    if assets == [] then []
    else
      var name := assets[|assets| - 1].name;
      Missing(assets[..|assets| - 1], have) + if name in have then [] else [name]
  }

  /** The index enters a release under its name and under its locator, nothing else. */
  predicate NamedBy(r: Release, t: Text, job: Job) {
    t == r.tagName || job.locate(r.body) == Some(t)
  }

  predicate AgreeWithSource(assets: map<string, Bytes>, job: Job) {
    forall name :: name in assets ==> Genuine(name, assets[name], job)
  }

  /** A healthy repository state for this source: nothing stored conflicts with it. */
  predicate Agrees(r: Release, job: Job) {
    AgreeWithSource(r.assets, job)
  }

  /** The source can be listed, and serves the bytes its listing announces. */
  predicate Serves(job: Job) {
    && ValidListing(job.source.assets)
    && forall i :: 0 <= i < |job.source.assets| ==>
         InfoOf(job.source.assets[i].content, job.sha) == job.source.assets[i].info
  }

  lemma HistorySnoc(history: seq<seq<Release>>, after: seq<Release>, job: Job)
    requires history != [] && GoodHistory(history, job)
    requires RepoOk(after, job) && Grows(history[|history| - 1], after, job)
    ensures GoodHistory(history + [after], job)
  {
    assert (history + [after])[..|history|] == history;
  }

  /** The release a migration creates carries its locator and starts as an empty draft. */
  function NewRelease(job: Job): Release {
    Release(job.draftName, job.source.notes + job.mark(job.tag), true, job.source.prerelease, map[])
  }

  /** Without a readable locator a new draft is found again only if it got the tag as its name. */
  lemma NewReleaseFoundIff(job: Job)
    ensures Located(NewRelease(job), job) <==> Relocatable(job) || job.draftName == job.tag
  {
  }

  lemma Created(releases: seq<Release>, job: Job)
    requires Relocatable(job) && RepoOk(releases, job)
    requires forall i :: 0 <= i < |releases| ==> !Located(releases[i], job)
    ensures RepoOk(releases + [NewRelease(job)], job) && Grows(releases, releases + [NewRelease(job)], job)
    ensures Located(NewRelease(job), job)
  {
    NewReleaseFoundIff(job);
  }

  /** Rewriting the located release in place, without touching body or stored assets. */
  lemma Rewritten(releases: seq<Release>, id: nat, r: Release, job: Job)
    requires RepoOk(releases, job) && id < |releases| && Located(releases[id], job)
    requires Located(r, job) && Sound(r, job) && r.body == releases[id].body && Within(releases[id].assets, r.assets)
    ensures RepoOk(releases[id := r], job) && Grows(releases, releases[id := r], job)
  {
  }

  /** The assets stored under the tag; none while there is no release. */
  ghost function AssetsUnder(releases: seq<Release>, job: Job): map<string, Bytes> {
    if exists i :: 0 <= i < |releases| && Located(releases[i], job)
    then var i :| 0 <= i < |releases| && Located(releases[i], job); releases[i].assets
    else map[]
  }

  lemma OneUnderTag(releases: seq<Release>, id: nat, job: Job)
    requires RepoOk(releases, job) && id < |releases| && Located(releases[id], job)
    ensures AssetsUnder(releases, job) == releases[id].assets
  {
  }

  /** The index finds the tag's release exactly when there is one. */
  ghost predicate IndexOk(ids: map<Text, nat>, loaded: bool, releases: seq<Release>, job: Job) {
    && (!loaded ==> ids == map[])
    && (loaded ==> forall i :: 0 <= i < |releases| ==>
      (Located(releases[i], job) <==> job.tag in ids && ids[job.tag] == i))
    && (forall t :: t in ids ==> ids[t] < |releases| && NamedBy(releases[ids[t]], t, job))
  }

  lemma NothingIndexed(releases: seq<Release>, job: Job)
    ensures IndexOk(map[], false, releases, job)
  {
  }

  lemma IndexKept(ids: map<Text, nat>, releases: seq<Release>, id: nat, r: Release, job: Job)
    requires IndexOk(ids, true, releases, job) && id < |releases|
    requires r.tagName == releases[id].tagName && r.body == releases[id].body
    ensures IndexOk(ids, true, releases[id := r], job)
  {
  }

  lemma IndexExtended(ids: map<Text, nat>, releases: seq<Release>, r: Release, job: Job)
    requires IndexOk(ids, true, releases, job) && Located(r, job)
    requires forall i :: 0 <= i < |releases| ==> !Located(releases[i], job)
    ensures IndexOk(ids[job.tag := |releases|], true, releases + [r], job)
  {
  }

  /** What is stored now was stored at the start or uploaded since, exactly once, and is unchanged. */
  ghost predicate Accounted(now: map<string, Bytes>, start: map<string, Bytes>, uploads: seq<Sent>) {
    var n := |uploads| - 1;
    if uploads == [] then now == start
    else
      && uploads[n].name in now && now[uploads[n].name] == uploads[n].bytes
      && Accounted(now - {uploads[n].name}, start, uploads[..n])
  }

  lemma AccountedNext(now: map<string, Bytes>, start: map<string, Bytes>, uploads: seq<Sent>, u: Sent)
    requires Accounted(now, start, uploads) && u.name !in now
    ensures Accounted(now[u.name := u.bytes], start, uploads + [u])
  {
    assert (uploads + [u])[..|uploads|] == uploads;
    assert now[u.name := u.bytes] - {u.name} == now;
  }

  lemma {:induction false} AccountedThrough(a: map<string, Bytes>, b: map<string, Bytes>, c: map<string, Bytes>,
                                            first: seq<Sent>, second: seq<Sent>)
    requires Accounted(b, a, first) && Accounted(c, b, second)
    ensures Accounted(c, a, first + second)
  {
    if second == [] {
      assert first + second == first;
    } else {
      var n := |second| - 1;
      AccountedThrough(a, b, c - {second[n].name}, first, second[..n]);
      assert (first + second)[..|first| + n] == first + second[..n];
    }
  }

  lemma KeysWithout(assets: map<string, Bytes>, name: string)
    requires name in assets
    ensures multiset(assets.Keys) == multiset((assets - {name}).Keys) + multiset{name}
  {
    assert assets.Keys == (assets - {name}).Keys + {name};
    assert name !in (assets - {name}).Keys;
  }

  /** In names: those of the start and those uploaded make up those stored, without repetition. */
  lemma {:induction false} AccountedNames(now: map<string, Bytes>, start: map<string, Bytes>, uploads: seq<Sent>)
    requires Accounted(now, start, uploads)
    ensures multiset(now.Keys) == multiset(start.Keys) + multiset(NamesSent(uploads))
  {
    if uploads != [] {
      var n := |uploads| - 1;
      var rest := now - {uploads[n].name};
      AccountedNames(rest, start, uploads[..n]);
      KeysWithout(now, uploads[n].name);
      assert NamesSent(uploads) == NamesSent(uploads[..n]) + [uploads[n].name];
    }
  }

  predicate AllGenuine(uploads: seq<Sent>, job: Job) {
    forall i :: 0 <= i < |uploads| ==> Genuine(uploads[i].name, uploads[i].bytes, job)
  }

  lemma GenuineParts(first: seq<Sent>, second: seq<Sent>, job: Job)
    ensures AllGenuine(first + second, job) <==> AllGenuine(first, job) && AllGenuine(second, job)
  {
    hide Genuine;
    var all := first + second;
    assert forall i :: 0 <= i < |first| ==> all[i] == first[i];
    assert forall i :: 0 <= i < |second| ==> all[|first| + i] == second[i];
  }

  /** What is stored agrees with the source exactly when it did at the start and every upload stored the right bytes. */
  lemma {:induction false} AccountedAgrees(now: map<string, Bytes>, start: map<string, Bytes>, uploads: seq<Sent>,
                                           job: Job)
    requires Accounted(now, start, uploads)
    ensures AgreeWithSource(now, job) <==> AgreeWithSource(start, job) && AllGenuine(uploads, job)
  {
    hide Genuine;
    if uploads != [] {
      var n := |uploads| - 1;
      var front, u := uploads[..n], uploads[n];
      AccountedAgrees(now - {u.name}, start, front, job);
      AgreesWithout(now, u.name, job);
      GenuineParts(front, [u], job);
      assert uploads == front + [u];
      assert [u][0] == u;
      assert AllGenuine([u], job) <==> Genuine(u.name, u.bytes, job);
      assert AllGenuine(uploads, job) <==> AllGenuine(front, job) && Genuine(u.name, u.bytes, job);
    }
  }

  lemma AgreesWithout(assets: map<string, Bytes>, name: string, job: Job)
    requires name in assets
    ensures AgreeWithSource(assets, job) <==> AgreeWithSource(assets - {name}, job) && Genuine(name, assets[name], job)
  {
    hide Genuine;
    forall other | other in assets && other != name
      ensures other in assets - {name} && (assets - {name})[other] == assets[other]
    {
    }
  }

  lemma Patched(before: Release, r: Release, job: Job)
    requires Located(before, job) && Sound(before, job) && Complete(before, job)
    requires r == before.(tagName := job.tag, draft := job.source.draft, prerelease := job.source.prerelease)
    ensures Located(r, job) && Sound(r, job) && Complete(r, job) && Within(before.assets, r.assets)
  {
  }

  lemma Extended(before: Release, name: string, bytes: Bytes, job: Job)
    requires Located(before, job) && Sound(before, job) && before.draft && name !in before.assets
    ensures Located(before.(assets := before.assets[name := bytes]), job)
    ensures Sound(before.(assets := before.assets[name := bytes]), job)
    ensures Within(before.assets, before.assets[name := bytes])
  {
  }

  class GitHub {
    const job: Job
    ghost const start: seq<Release>
    var releaseIds: map<Text, nat>
    var loadedIndex: bool
    var releases: seq<Release>
    var cache: map<string, Bytes>
    var weather: seq<Event>
    ghost var history: seq<seq<Release>>
    ghost var uploads: seq<Sent>

    /** The index finds the tag's release exactly when there is one. */
    ghost predicate Indexed()
      reads this`releaseIds, this`loadedIndex, this`releases
    {
      IndexOk(releaseIds, loadedIndex, releases, job)
    }

    /** The repository's past is in order and ends with its present. */
    ghost predicate Recorded()
      reads this`releases, this`history
    {
      GoodHistory(history, job) && history[0] == start && history[|history| - 1] == releases
    }

    /** No file under a final name is unverified. */
    ghost predicate Clean()
      reads this`cache
    {
      PartFree(job) ==> CacheClean(cache, job)
    }

    /** What is stored under the tag was there at first or was uploaded since, once. */
    ghost predicate Balanced()
      reads this`releases, this`uploads
    {
      Accounted(AssetsUnder(releases, job), AssetsUnder(start, job), uploads)
    }

    ghost predicate Valid()
      reads this`releaseIds, this`loadedIndex, this`releases, this`history, this`cache, this`uploads
    {
      Relocatable(job) && Recorded() && Balanced() && Indexed() && Clean()
    }

    constructor (job: Job, releases: seq<Release>, cache: map<string, Bytes>, weather: seq<Event>)
      requires Relocatable(job) && RepoOk(releases, job)
      requires PartFree(job) ==> CacheClean(cache, job)
      ensures Valid() && this.job == job && this.releases == releases && this.cache == cache && this.weather == weather
      ensures start == releases && history == [releases] && uploads == [] && !loadedIndex
    {
      this.job := job;
      this.releaseIds := map[];
      this.loadedIndex := false;
      this.releases, this.cache, this.weather := releases, cache, weather;
      this.start, this.history, this.uploads := releases, [releases], [];
    }

    lemma RepoNow()
      requires Recorded()
      ensures RepoOk(releases, job)
    {
    }

    lemma SoundNow(id: nat)
      requires Recorded() && id < |releases| && Located(releases[id], job)
      ensures Sound(releases[id], job) && AssetsUnder(releases, job) == releases[id].assets
    {
      OneUnderTag(releases, id, job);
    }

    method NextEvent() returns (e: Event)
      modifies this`weather
      ensures old(weather) == [] ==> e == Fine && weather == []
      ensures e == Head(old(weather))
    {
      if weather == [] { return Fine; }
      e := weather[0];
      weather := weather[1..];
    }

    /** `destination_release`: one listing per run, later lookups by id. */
    method DestinationRelease() returns (ok: bool, id: Option<nat>)
      requires Valid()
      modifies this`releaseIds, this`loadedIndex, this`weather
      ensures Valid()
      ensures ok ==> loadedIndex && (id.Some? ==> id.value < |releases| && Located(releases[id.value], job))
      ensures ok && id.None? ==> forall i :: 0 <= i < |releases| ==> !Located(releases[i], job)
      ensures old(weather) == [] ==> ok && weather == []
    {
      hide GitHub.Recorded, GitHub.Clean, AssetsUnder;
      var e := NextEvent();
      if e != Fine { return false, None; }
      RepoNow();
      if !loadedIndex {
        var ids: map<Text, nat> := map[];
        for n := 0 to |releases|
          invariant forall i :: 0 <= i < n ==> (Located(releases[i], job) <==> job.tag in ids && ids[job.tag] == i)
          invariant forall t :: t in ids ==> ids[t] < n && NamedBy(releases[ids[t]], t, job)
        {
          ids := ids[releases[n].tagName := n];
          var marker := job.locate(releases[n].body);
          if marker.Some? { ids := ids[marker.value := n]; }
        }
        releaseIds := ids;
        loadedIndex := true;
      }
      ok := true;
      id := if job.tag in releaseIds then Some(releaseIds[job.tag]) else None;
    }

    /** `create`: posts the empty draft; dying after the effect loses only the index. */
    method Create() returns (ok: bool, id: nat)
      requires Valid() && loadedIndex && forall i :: 0 <= i < |releases| ==> !Located(releases[i], job)
      modifies this`releases, this`history, this`releaseIds, this`loadedIndex, this`weather
      ensures Valid()
      ensures ok <==> Head(old(weather)) == Fine
      ensures ok ==> loadedIndex && id < |releases| && Located(releases[id], job) && releases[id] == NewRelease(job)
      ensures ok ==> releases[id].draft && releases[id].assets == map[]
      ensures ok ==> releases[id].prerelease == job.source.prerelease
      ensures ok ==> releases[id].tagName == job.draftName && releases[id].body == job.source.notes + job.mark(job.tag)
      ensures releases
           == old(releases) + if Head(old(weather)) in {Refused, CrashBefore} then [] else [NewRelease(job)]
      ensures old(weather) == [] ==> weather == []
    {
      hide GitHub.Recorded, GitHub.Balanced, GitHub.Clean, IndexOk, RepoOk, Located;
      id := |releases|;
      var e := NextEvent();
      if e.Refused? || e.CrashBefore? { return false, id; }
      Append();
      if e != Fine {
        releaseIds, loadedIndex := map[], false;
        NothingIndexed(releases, job);
        return false, id;
      }
      IndexExtended(releaseIds, old(releases), NewRelease(job), job);
      releaseIds := releaseIds[job.tag := id];
      ok := true;
    }

    /** The new draft appears in the repository. */
    method Append()
      requires Relocatable(job) && Recorded() && Balanced() && forall i :: 0 <= i < |releases| ==>
        !Located(releases[i], job)
      modifies this`releases, this`history
      ensures Recorded() && Balanced()
      ensures releases == old(releases) + [NewRelease(job)] && Located(NewRelease(job), job)
    {
      ghost var after := releases + [NewRelease(job)];
      Created(releases, job);
      OneUnderTag(after, |releases|, job);
      HistorySnoc(history, after, job);
      releases := releases + [NewRelease(job)];
      history := history + [releases];
    }

    /** `download`: a partial file takes the final name only once its size and digest are right. */
    method Download(asset: Asset) returns (ok: bool)
      requires Valid() && asset in job.source.assets && ValidListing(job.source.assets)
      modifies this`cache, this`weather
      ensures Valid()
      ensures ok ==> asset.name in cache && InfoOf(cache[asset.name], job.sha) == asset.info
      ensures old(weather) == [] && InfoOf(asset.content, job.sha) == asset.info ==> ok && weather == []
      ensures cache - {asset.name, asset.name + job.part} == old(cache) - {asset.name, asset.name + job.part}
    {
      hide GitHub.Recorded, GitHub.Balanced, GitHub.Indexed, CacheClean, PartFree, ValidListing, Relocatable;
      var partial := asset.name + job.part;
      for attempt := 0 to 5
        invariant Valid()
        invariant attempt == 0 ==> weather == old(weather)
        invariant cache - {asset.name, partial} == old(cache) - {asset.name, partial}
        invariant attempt > 0 ==> !(old(weather) == [] && InfoOf(asset.content, job.sha) == asset.info)
      {
        var e := NextEvent();
        if e.CrashBefore? { return false; }
        var bytes := match e
          case Garbled(other, _) => other
          case Lost(other) => other
          case Refused => []
          case _ => asset.content;
        CacheKeeps(cache, partial, bytes, asset, job);
        cache := cache[partial := bytes];
        if e.CrashAfter? || e.Lost? { return false; }
        if e.Refused? || InfoOf(bytes, job.sha) != asset.info {
          cache := cache - {partial};
        } else {
          cache := (cache - {partial})[asset.name := bytes];
          return true;
        }
      }
      ok := false;
    }

    /** Stores an asset that is not there yet. */
    method Store(id: nat, name: string, bytes: Bytes)
      requires Valid() && loadedIndex && id < |releases| && Located(releases[id], job)
      requires releases[id].draft && name !in releases[id].assets
      modifies this`releases, this`history, this`uploads
      ensures Valid()
      ensures releases == old(releases)[id := old(releases[id]).(assets := old(releases[id].assets)[name := bytes])]
      ensures uploads == old(uploads) + [Sent(name, bytes)]
    {
      hide GitHub.Recorded, GitHub.Clean, IndexOk, RepoOk, Accounted, AssetsUnder, Located, Sound, Within;
      SoundNow(id);
      var r := releases[id].(assets := releases[id].assets[name := bytes]);
      Extended(releases[id], name, bytes, job);
      IndexKept(releaseIds, releases, id, r, job);
      AccountedNext(AssetsUnder(releases, job), AssetsUnder(start, job), uploads, Sent(name, bytes));
      Rewrite(id, r);
      uploads := uploads + [Sent(name, bytes)];
    }

    /** Replaces the located release, as an upload or a patch does on the server. */
    method Rewrite(id: nat, r: Release)
      requires Recorded() && id < |releases| && Located(releases[id], job)
      requires Located(r, job) && Sound(r, job) && r.body == releases[id].body && Within(releases[id].assets, r.assets)
      modifies this`releases, this`history
      ensures Recorded() && releases == old(releases)[id := r]
      ensures AssetsUnder(old(releases), job) == old(releases[id].assets) && AssetsUnder(releases, job) == r.assets
    {
      assert RepoOk(releases, job);
      OneUnderTag(releases, id, job);
      OneUnderTag(releases[id := r], id, job);
      Rewritten(releases, id, r, job);
      HistorySnoc(history, releases[id := r], job);
      releases := releases[id := r];
      history := history + [releases];
    }

    /**
     `upload`: up to eight attempts. A name that is taken is accepted only with the cached
     size and digest; a free one is filled at most once.
     */
    method Upload(id: nat, name: string) returns (ok: bool, reply: Option<Info>)
      requires Valid() && loadedIndex && id < |releases| && Located(releases[id], job)
      requires releases[id].draft && name in cache
      modifies this`releases, this`history, this`uploads, this`weather
      ensures Valid() && id < |releases| && Located(releases[id], job) && releases[id].draft
      ensures FilledOnce(old(releases[id].assets), releases[id].assets, old(uploads), uploads, name)
      ensures ok ==> name in releases[id].assets
      ensures ok && name in old(releases[id].assets) ==>
                reply == Some(InfoOf(cache[name], job.sha))
                && InfoOf(releases[id].assets[name], job.sha) == InfoOf(cache[name], job.sha)
      ensures old(weather) == [] && name !in old(releases[id].assets) ==>
                && ok && weather == [] && reply == Some(InfoOf(cache[name], job.sha))
                && releases[id].assets == old(releases[id].assets)[name := cache[name]]
    {
      hide GitHub.Recorded, GitHub.Balanced, GitHub.Indexed, GitHub.Clean;
      for attempt := 0 to 8
        invariant Valid() && loadedIndex && id < |releases| && Located(releases[id], job) && releases[id].draft
        invariant FilledOnce(old(releases[id].assets), releases[id].assets, old(uploads), uploads, name)
        invariant attempt == 0 ==> weather == old(weather) && releases == old(releases)
        invariant attempt > 0 ==> old(weather) != [] || name in old(releases[id].assets)
      {
        var e := NextEvent();
        if e.CrashBefore? { return false, None; }
        if e.Refused? { continue; }
        if name in releases[id].assets {
          if e.Lost? { continue; }
          var same := InfoOf(releases[id].assets[name], job.sha) == InfoOf(cache[name], job.sha);
          return same && !e.CrashAfter?, Some(InfoOf(releases[id].assets[name], job.sha));
        }
        var bytes := if e.Garbled? || e.Lost? then e.bytes else cache[name];
        Store(id, name, bytes);
        if e.Garbled? { return true, e.reply; }
        if !e.Lost? { return e == Fine, Some(InfoOf(bytes, job.sha)); }
      }
      return false, None;
    }

    /** The name `finish` publishes under: the locator, else a name the index knows, else its own. */
    method PublishedName(id: nat) returns (tagName: Text)
      requires Valid() && loadedIndex && id < |releases| && Located(releases[id], job)
      ensures tagName == job.tag
    {
      var r := releases[id];
      var marker := job.locate(r.body);
      var named := set t | t in releaseIds && releaseIds[t] == id && !(job.untagged <= t);
      tagName := r.tagName;
      if marker.Some? {
        tagName := marker.value;
      } else if named != {} {
        tagName :| tagName in named;
        assert NamedBy(r, tagName, job);
      }
    }

    /** `finish`: publishes under the located tag with the source's visibility. */
    method Finish(id: nat) returns (ok: bool)
      requires Valid() && loadedIndex && id < |releases| && Located(releases[id], job) && Complete(releases[id], job)
      modifies this`releases, this`history, this`releaseIds, this`loadedIndex, this`weather
      ensures Valid() && id < |releases|
      ensures ok ==> Located(releases[id], job) && Complete(releases[id], job) && releases[id].draft == job.source.draft
      ensures ok ==> releases[id].tagName == job.tag && releases[id].prerelease == job.source.prerelease
      ensures old(weather) == [] ==> ok && weather == []
    {
      hide GitHub.Recorded, GitHub.Clean, IndexOk, RepoOk, Accounted, AssetsUnder, Located, Sound, Complete, Within;
      SoundNow(id);
      var e := NextEvent();
      if e.Refused? || e.CrashBefore? { return false; }
      var tagName := PublishedName(id);
      var r := releases[id].(tagName := tagName, draft := job.source.draft, prerelease := job.source.prerelease);
      Patched(releases[id], r, job);
      Rewrite(id, r);
      // The run is over: nothing reads the index any more.
      releaseIds, loadedIndex := map[], false;
      NothingIndexed(releases, job);
      ok := e == Fine;
    }

    /** A verified copy of the asset under its cache name, downloaded if need be. */
    method Fetch(asset: Asset) returns (ok: bool)
      requires Valid() && ValidListing(job.source.assets) && asset in job.source.assets
      modifies this`cache, this`weather
      ensures Valid()
      ensures ok ==> asset.name in cache && InfoOf(cache[asset.name], job.sha) == asset.info
      ensures old(weather) == [] && Serves(job) && PartFree(job) ==> ok && weather == []
    {
      hide GitHub.Recorded, GitHub.Balanced, GitHub.Indexed;
      if asset.name in cache && InfoOf(cache[asset.name], job.sha) != asset.info { return false; }
      ok := true;
      if asset.name !in cache {
        ok := Download(asset);
        if !ok { return; }
      }
      ok := InfoOf(cache[asset.name], job.sha) == asset.info;
    }

    /** The inventory after an upload: with the reply's entry, or listed anew when there is no reply. */
    method Answered(id: nat, name: string, reply: Option<Info>, actual: map<string, Info>) returns (ok: bool,
                    now: map<string, Info>)
      requires Valid() && loadedIndex && id < |releases| && Located(releases[id], job)
      modifies this`weather, this`releaseIds, this`loadedIndex
      ensures Valid() && (ok ==> loadedIndex)
      ensures reply.Some? ==> ok && now == actual[name := reply.value] && weather == old(weather)
    {
      hide GitHub.Valid, Located;
      now := actual;
      if reply.Some? { return true, now[name := reply.value]; }
      var again: Option<nat>;
      ok, again := DestinationRelease();
      if !ok || again.None? || !SafeNames(releases[again.value].assets) { return false, now; }
      now := Stored(releases[again.value].assets, job.sha);
    }

    /** Uploads the cached copy, verifies what the destination answers, and frees the cache. */
    method Deliver(id: nat, asset: Asset, actual: map<string, Info>) returns (ok: bool, now: map<string, Info>)
      requires Valid() && loadedIndex && id < |releases| && Located(releases[id], job) && releases[id].draft
      requires asset.name !in actual && asset.name in cache && InfoOf(cache[asset.name], job.sha) == asset.info
      modifies this`releases, this`history, this`uploads, this`weather, this`cache, this`releaseIds, this`loadedIndex
      ensures Valid()
      ensures ok ==> loadedIndex && id < |releases| && Located(releases[id], job) && releases[id].draft
      ensures ok ==> asset.name in now && now[asset.name] == asset.info
      ensures old(weather) == [] && actual == Stored(old(releases[id].assets), job.sha) ==>
                ok && weather == [] && Transferred(old(releases[id].assets), releases[id].assets, asset, job)
                && now == Stored(releases[id].assets, job.sha)
                && NamesSent(uploads) == NamesSent(old(uploads)) + [asset.name]
      ensures cache == if ok then old(cache) - {asset.name} else old(cache)
    {
      hide GitHub.Valid, Located, FilledOnce;
      var reply: Option<Info>;
      ghost var before, sent := releases[id].assets, uploads;
      now := actual;
      ok, reply := Upload(id, asset.name);
      if !ok { return; }
      OneMore(before, releases[id].assets, sent, uploads, asset.name);
      ok, now := Answered(id, asset.name, reply, actual);
      if !ok { return; }
      if asset.name !in now || now[asset.name] != asset.info { return false, now; }
      Uncache(asset.name);
    }

    method Uncache(name: string)
      requires Valid()
      modifies this`cache
      ensures Valid() && cache == old(cache) - {name}
    {
      CleanWithout(cache, name, job);
      hide GitHub.Recorded, GitHub.Balanced, GitHub.Indexed, CacheClean;
      cache := cache - {name};
    }

    /** The release found or created under the tag. */
    method FindOrCreate() returns (ok: bool, id: nat)
      requires Valid()
      modifies this`releases, this`history, this`releaseIds, this`loadedIndex, this`weather
      ensures Valid()
      ensures ok ==> loadedIndex && id < |releases| && Located(releases[id], job)
      ensures ok ==> releases[id].assets == AssetsUnder(old(releases), job)
      ensures old(weather) == [] ==> ok && weather == []
    {
      hide GitHub.Recorded, GitHub.Balanced, GitHub.Indexed, GitHub.Clean;
      RepoNow();
      var found: Option<nat>;
      ok, found := DestinationRelease();
      id := 0;
      if !ok { return; }
      if found.Some? {
        id := found.value;
        OneUnderTag(releases, id, job);
      } else {
        ok, id := Create();
      }
    }

    /** One turn of the loop over the source's assets. */
    method TransferOne(id: nat, asset: Asset, actual: map<string, Info>, ghost calm: bool) returns (ok: bool,
                       now: map<string, Info>)
      requires Valid() && loadedIndex && id < |releases| && Located(releases[id], job)
      requires ValidListing(job.source.assets) && asset in job.source.assets
      requires releases[id].draft || actual == Listed(job.source.assets)
      requires calm ==> weather == [] && Calm(actual, releases[id], job)
      modifies this`releases, this`history, this`uploads, this`weather, this`cache, this`releaseIds, this`loadedIndex
      ensures Valid()
      ensures ok ==> loadedIndex && id < |releases| && Located(releases[id], job)
      ensures ok ==> releases[id].draft || now == Listed(job.source.assets)
      ensures calm ==> ok && weather == [] && Calm(now, releases[id], job) && now.Keys == actual.Keys + {asset.name}
      ensures calm ==> NamesSent(uploads) == NamesSent(old(uploads)) + if asset.name in actual then [] else [asset.name]
    {
      hide GitHub.Valid;
      now := actual;
      if asset.name in actual { return true, actual; }
      ghost var before := releases[id];
      InListing(asset, job);
      ok := Fetch(asset);
      if !ok { return; }
      ok, now := Deliver(id, asset, actual);
      if calm { TransferredAgrees(before, releases[id], asset, job); }
    }

    /** The loop over the source's assets. */
    method TransferAll(id: nat, actual0: map<string, Info>, ghost calm: bool) returns (ok: bool)
      requires Valid() && loadedIndex && id < |releases| && Located(releases[id], job)
      requires ValidListing(job.source.assets)
      requires releases[id].draft || actual0 == Listed(job.source.assets)
      requires calm ==> weather == [] && Calm(actual0, releases[id], job)
      modifies this`releases, this`history, this`uploads, this`weather, this`cache, this`releaseIds, this`loadedIndex
      ensures Valid()
      ensures calm ==> ok && weather == [] && CompleteUnder(releases, job)
      ensures calm ==> NamesSent(uploads) == NamesSent(old(uploads)) + Missing(job.source.assets, actual0.Keys)
    {
      hide GitHub.Valid;
      var actual, assets := actual0, job.source.assets;
      assert forall i, j :: 0 <= i < j < |assets| ==> assets[i].name != assets[j].name;
      TrackStart(actual.Keys, NamesSent(uploads), assets);
      hide Calm, Tracked, Located, Listed, ValidListing;
      for n := 0 to |assets|
        invariant Valid() && loadedIndex && id < |releases| && Located(releases[id], job)
        invariant releases[id].draft || actual == Listed(assets)
        invariant calm ==> weather == [] && Calm(actual, releases[id], job)
        invariant calm ==> Tracked(actual.Keys, NamesSent(uploads), actual0.Keys, NamesSent(old(uploads)), assets, n)
      {
        ghost var known, sent := actual.Keys, NamesSent(uploads);
        ok, actual := TransferOne(id, assets[n], actual, calm);
        if !ok { return; }
        if calm { TrackNext(known, sent, actual0.Keys, NamesSent(old(uploads)), assets, n); }
      }
      if calm {
        TrackEnd(actual.Keys, NamesSent(uploads), actual0.Keys, NamesSent(old(uploads)), assets);
        AllStored(actual, releases[id], job);
      }
      ok := true;
    }

    /** The checks before the first upload: `None` when one of them raises. */
    method Precheck(id: nat, expected: map<string, Info>) returns (actual: Option<map<string, Info>>)
      requires Valid() && id < |releases| && Located(releases[id], job)
      requires ValidListing(job.source.assets) && expected == Listed(job.source.assets)
      ensures actual.Some? ==> actual.value == Stored(releases[id].assets, job.sha)
      ensures actual.Some? ==> releases[id].draft || actual.value == expected
      ensures actual.Some? <==> Agrees(releases[id], job)
    {
      assert Sound(releases[id], job) by { RepoNow(); }
      hide GitHub.Valid;
      var r := releases[id];
      if !SafeNames(r.assets) { return None; }
      var found := Stored(r.assets, job.sha);
      if !(found.Keys <= expected.Keys) || exists name :: name in found && found[name] != expected[name] {
        return None;
      }
      if job.source.draft && !r.draft { return None; }
      if !r.draft && found != expected { return None; }
      actual := Some(found);
    }

    /** The last look: only a release with the full inventory is finished. */
    method Conclude(expected: map<string, Info>) returns (ok: bool)
      requires Valid() && ValidListing(job.source.assets) && expected == Listed(job.source.assets)
      modifies this`releases, this`history, this`releaseIds, this`loadedIndex, this`weather
      ensures Valid()
      ensures ok ==> Finished(releases, job)
      ensures old(weather) == [] && CompleteUnder(old(releases), job) ==> ok
    {
      hide GitHub.Recorded, GitHub.Balanced, GitHub.Indexed, GitHub.Clean;
      RepoNow();
      var found: Option<nat>;
      ok, found := DestinationRelease();
      if !ok || found.None? { return false; }
      var id := found.value;
      if !SafeNames(releases[id].assets) || Stored(releases[id].assets, job.sha) != expected { return false; }
      ok := Finish(id);
    }

    /**
     `copy_release`. However the calls fare, the repository's history stays good. A run
     that meets no faults, on a repository that does not contradict the source, uploads
     each missing asset once, in order, and ends with the full inventory at the source's
     visibility.
     */
    method CopyRelease() returns (ok: bool)
      requires Valid()
      modifies this
      ensures Valid()
      ensures ok ==> Finished(releases, job)
      ensures old(weather) == [] && Serves(job) && PartFree(job) && AgreesUnder(old(releases), job) ==>
                ok && NamesSent(uploads)
                   == NamesSent(old(uploads)) + Missing(job.source.assets, AssetsUnder(old(releases), job).Keys)
    {
      hide GitHub.Valid;
      ghost var calm := weather == [] && Serves(job) && PartFree(job) && AgreesUnder(releases, job);
      ghost var have := AssetsUnder(releases, job);
      var expected := Inventory(job.source.assets);
      if expected.None? { return false; }
      var id: nat;
      ok, id := FindOrCreate();
      if !ok { return; }
      var actual := Precheck(id, expected.value);
      if actual.None? { return false; }
      assert actual.value.Keys == have.Keys;
      ok := TransferAll(id, actual.value, calm);
      if !ok { return; }
      ok := Conclude(expected.value);
    }
  }

  ghost predicate CompleteUnder(releases: seq<Release>, job: Job) {
    exists i :: 0 <= i < |releases| && Located(releases[i], job)
             && Complete(releases[i], job) && SafeNames(releases[i].assets)
  }

  /** Bytes with the size and digest the source lists under the name. */
  predicate Genuine(name: string, bytes: Bytes, job: Job) {
    && SafeName(name) && name in Listed(job.source.assets)
    && InfoOf(bytes, job.sha) == Listed(job.source.assets)[name]
  }

  ghost predicate AgreesUnder(releases: seq<Release>, job: Job) {
    AgreeWithSource(AssetsUnder(releases, job), job)
  }

  /** The outcome a successful run reports. */
  predicate Copied(r: Release, job: Job) {
    && r.tagName == job.tag && r.draft == job.source.draft && r.prerelease == job.source.prerelease
    && Complete(r, job)
  }

  /** One more asset is stored, with the source's size and digest. */
  predicate Transferred(before: map<string, Bytes>, after: map<string, Bytes>, asset: Asset, job: Job) {
    && asset.name in after && InfoOf(after[asset.name], job.sha) == asset.info
    && after == before[asset.name := after[asset.name]]
  }

  /** At most one upload, of the one name, and only if the name was free; nothing else changes. */
  ghost predicate FilledOnce(before: map<string, Bytes>, after: map<string, Bytes>, sent0: seq<Sent>, sent: seq<Sent>,
                             name: string) {
    || (after == before && sent == sent0)
    || (name !in before && name in after && after == before[name := after[name]]
        && sent == sent0 + [Sent(name, after[name])])
  }

  lemma OneMore(before: map<string, Bytes>, after: map<string, Bytes>, sent0: seq<Sent>, sent: seq<Sent>, name: string)
    requires FilledOnce(before, after, sent0, sent, name) && name in after
    ensures name !in before ==> NamesSent(sent) == NamesSent(sent0) + [name]
  {
    NamesSentSnoc(sent0, Sent(name, after[name]));
  }

  lemma CleanWithout(cache: map<string, Bytes>, name: string, job: Job)
    ensures CacheClean(cache, job) ==> CacheClean(cache - {name}, job)
  {
  }

  lemma CacheKeeps(cache: map<string, Bytes>, partial: string, bytes: Bytes, asset: Asset, job: Job)
    requires asset in job.source.assets && ValidListing(job.source.assets) && partial == asset.name + job.part
    requires PartFree(job) ==> CacheClean(cache, job)
    ensures PartFree(job) ==> CacheClean(cache[partial := bytes], job)
    ensures PartFree(job) ==> CacheClean(cache[partial := bytes] - {partial}, job)
    ensures PartFree(job) && InfoOf(bytes, job.sha) == asset.info ==>
              CacheClean((cache[partial := bytes] - {partial})[asset.name := bytes], job)
  {
  }

  /** After `n` assets: known are those stored before and those gone through, sent is what was missing. */
  ghost predicate Tracked(known: set<string>, sent: seq<string>, known0: set<string>, sent0: seq<string>,
                          assets: seq<Asset>, n: nat)
    requires n <= |assets|
  {
    known == known0 + Names(assets[..n]) && sent == sent0 + Missing(assets[..n], known0)
  }

  lemma TrackStart(known: set<string>, sent: seq<string>, assets: seq<Asset>)
    ensures Tracked(known, sent, known, sent, assets, 0)
  {
  }

  lemma TrackNext(known: set<string>, sent: seq<string>, known0: set<string>, sent0: seq<string>, assets: seq<Asset>,
                  n: nat)
    requires n < |assets| && Tracked(known, sent, known0, sent0, assets, n)
    requires forall i :: 0 <= i < n ==> assets[i].name != assets[n].name
    ensures var name := assets[n].name;
            Tracked(known + {name}, sent + if name in known then [] else [name], known0, sent0, assets, n + 1)
  {
    var name := assets[n].name;
    assert assets[..n + 1] == assets[..n] + [assets[n]];
    assert assets[..n + 1][..n] == assets[..n];
    assert Names(assets[..n + 1]) == Names(assets[..n]) + {name};
    assert name !in Names(assets[..n]);
  }

  lemma TrackEnd(known: set<string>, sent: seq<string>, known0: set<string>, sent0: seq<string>, assets: seq<Asset>)
    requires Tracked(known, sent, known0, sent0, assets, |assets|)
    ensures known == known0 + Names(assets) && sent == sent0 + Missing(assets, known0)
  {
    assert assets[..|assets|] == assets;
  }

  lemma TransferredAgrees(before: Release, after: Release, asset: Asset, job: Job)
    requires Agrees(before, job) && ValidListing(job.source.assets) && asset in job.source.assets
    requires Transferred(before.assets, after.assets, asset, job)
    ensures Agrees(after, job)
    ensures Stored(after.assets, job.sha).Keys == Stored(before.assets, job.sha).Keys + {asset.name}
  {
    ListedNames(job.source.assets, asset.name);
  }

  /** A faultless run knows exactly what is stored, and that agrees with the source. */
  ghost predicate Calm(actual: map<string, Info>, r: Release, job: Job) {
    Serves(job) && PartFree(job) && actual == Stored(r.assets, job.sha) && Agrees(r, job)
  }

  lemma AllStored(actual: map<string, Info>, r: Release, job: Job)
    requires ValidListing(job.source.assets) && Calm(actual, r, job)
    requires Names(job.source.assets) <= actual.Keys
    ensures Complete(r, job) && SafeNames(r.assets)
  {
    var listed := Listed(job.source.assets);
    forall name | name in listed ensures name in r.assets {
      ListedNames(job.source.assets, name);
      var i :| 0 <= i < |job.source.assets| && job.source.assets[i].name == name;
      assert job.source.assets[i] in job.source.assets;
      assert name in Names(job.source.assets);
    }
    assert Stored(r.assets, job.sha).Keys == listed.Keys;
  }

  lemma InListing(asset: Asset, job: Job)
    requires ValidListing(job.source.assets) && asset in job.source.assets
    ensures asset.name in Listed(job.source.assets)
    ensures forall bytes :: InfoOf(bytes, job.sha) == asset.info ==> Genuine(asset.name, bytes, job)
  {
    ListedNames(job.source.assets, asset.name);
  }

  ghost predicate Finished(releases: seq<Release>, job: Job) {
    exists id :: 0 <= id < |releases| && Copied(releases[id], job)
  }
}
