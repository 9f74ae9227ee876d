/**
 Any number of runs of the release migration, scripts/migrate-release-assets.py, one after
 another, each on what the last one left behind.
 */
module MigrationCampaign {
  import opened ReleaseMigration

  lemma {:induction false} HistoryJoin(past: seq<seq<Release>>, run: seq<seq<Release>>, job: Job)
    requires GoodHistory(past, job) && GoodHistory(run, job) && past[|past| - 1] == run[0]
    ensures GoodHistory(past + run[1..], job) && (past + run[1..])[0] == past[0]
    ensures (past + run[1..])[|past + run[1..]| - 1] == run[|run| - 1]
  {
    hide RepoOk, Grows;
    if |run| == 1 {
      assert past + run[1..] == past;
    } else {
      var n := |run| - 1;
      var front := run[..n];
      HistoryJoin(past, front, job);
      var joined := past + front[1..];
      assert joined[|joined| - 1] == front[n - 1] == run[n - 1];
      HistorySnoc(joined, run[n], job);
      assert joined + [run[n]] == past + run[1..];
    }
  }

  /** Nothing stored at one time is ever replaced or removed later, and no release goes away. */
  lemma {:induction false} NeverReplaced(history: seq<seq<Release>>, job: Job, i: nat, j: nat, id: nat)
    requires GoodHistory(history, job) && i <= j < |history| && id < |history[i]|
    ensures id < |history[j]| && Within(history[i][id].assets, history[j][id].assets)
    decreases j - i
  {
    if i < j {
      GoodHistoryThroughout(history, job, i);
      NeverReplaced(history, job, i + 1, j, id);
    }
  }

  /** At no time is the tag's release public without the source's inventory, or for a draft source. */
  lemma NeverExposed(history: seq<seq<Release>>, job: Job, i: nat, id: nat)
    requires GoodHistory(history, job) && i < |history|
    requires id < |history[i]| && Located(history[i][id], job) && !history[i][id].draft
    ensures !job.source.draft && Complete(history[i][id], job)
    ensures forall other :: 0 <= other < |history[i]| && Located(history[i][other], job) ==> other == id
  {
    GoodHistoryThroughout(history, job, i);
  }

  /** Wrong bytes once stored keep the release from ever being complete, hence from ever being public. */
  lemma ConflictIsForever(history: seq<seq<Release>>, job: Job, i: nat, j: nat, id: nat, name: string)
    requires GoodHistory(history, job) && i <= j < |history| && id < |history[i]|
    requires name in history[i][id].assets && !Genuine(name, history[i][id].assets[name], job)
    ensures id < |history[j]| && !Complete(history[j][id], job)
    ensures Located(history[j][id], job) ==> history[j][id].draft
  {
    NeverReplaced(history, job, i, j, id);
    GoodHistoryThroughout(history, job, j);
    var r := history[j][id];
    if Complete(r, job) {
      assert name in Stored(r.assets, job.sha) && Stored(r.assets, job.sha)[name] == InfoOf(r.assets[name], job.sha);
      ListedNames(job.source.assets, name);
    }
  }

  /** Leaving any bytes under the partial name of the j-th asset keeps a clean cache clean. */
  predicate PartialHarmless(cache: map<string, Bytes>, j: nat, bytes: Bytes, job: Job) {
    j < |job.source.assets| && CacheClean(cache, job) ==>
      CacheClean(cache[job.source.assets[j].name + job.part := bytes], job)
  }

  /**
   A download that dies half-way never leaves an unverified file under a final name exactly
   when no asset is named like the partial file of another.
   */
  lemma PartialsHarmlessIff(job: Job)
    ensures (forall cache, j: nat, bytes :: PartialHarmless(cache, j, bytes, job)) <==> PartFree(job)
  {
    var assets := job.source.assets;
    if !PartFree(job) {
      var i, j :| 0 <= i < |assets| && 0 <= j < |assets| && assets[i].name == assets[j].name + job.part;
      var bytes: Bytes := if assets[i].info.size == 0 then [0] else [];
      assert InfoOf(bytes, job.sha) != assets[i].info;
      assert !PartialHarmless(map[], j, bytes, job);
    }
  }

  /** Every run so far left the world in order. */
  ghost predicate InOrder(job: Job, releases0: seq<Release>, releases: seq<Release>, cache: map<string, Bytes>,
                          history: seq<seq<Release>>, uploads: seq<Sent>) {
    && GoodHistory(history, job) && history[0] == releases0 && history[|history| - 1] == releases
    && (PartFree(job) ==> CacheClean(cache, job))
    && Accounted(AssetsUnder(releases, job), AssetsUnder(releases0, job), uploads)
  }

  lemma InOrderThrough(job: Job, first: seq<Release>, second: seq<Release>, third: seq<Release>, cache1: map<string,
                       Bytes>, cache2: map<string, Bytes>,
                       history1: seq<seq<Release>>, history2: seq<seq<Release>>,
                       uploads1: seq<Sent>, uploads2: seq<Sent>)
    requires InOrder(job, first, second, cache1, history1, uploads1)
    requires InOrder(job, second, third, cache2, history2, uploads2)
    ensures InOrder(job, first, third, cache2, history1 + history2[1..], uploads1 + uploads2)
  {
    HistoryJoin(history1, history2, job);
    AccountedThrough(AssetsUnder(first, job), AssetsUnder(second, job), AssetsUnder(third, job), uploads1, uploads2);
  }

  lemma CompleteAgrees(r: Release, job: Job)
    requires Complete(r, job)
    ensures Agrees(r, job)
  {
    forall name | name in r.assets ensures Genuine(name, r.assets[name], job) {
      assert name in Stored(r.assets, job.sha) && Stored(r.assets, job.sha)[name] == InfoOf(r.assets[name], job.sha);
      ListedNames(job.source.assets, name);
    }
  }

  /** The source's names are those stored at first and those uploaded since, none of them twice. */
  ghost predicate StoredOnce(job: Job, releases0: seq<Release>, uploads: seq<Sent>) {
    multiset(Listed(job.source.assets).Keys)
    == multiset(AssetsUnder(releases0, job).Keys) + multiset(NamesSent(uploads))
  }

  /**
   A finished job stores what was there at first plus one upload of each asset that was
   missing; all of it agrees with the source.
   */
  lemma UploadedOnce(job: Job, releases0: seq<Release>, releases: seq<Release>, cache: map<string, Bytes>,
                     history: seq<seq<Release>>, uploads: seq<Sent>)
    requires InOrder(job, releases0, releases, cache, history, uploads) && Finished(releases, job)
    ensures StoredOnce(job, releases0, uploads)
    ensures AgreesUnder(releases0, job) && AllGenuine(uploads, job)
  {
    var id :| 0 <= id < |releases| && Copied(releases[id], job);
    OneUnderTag(releases, id, job);
    CompleteAgrees(releases[id], job);
    assert Stored(releases[id].assets, job.sha).Keys == releases[id].assets.Keys;
    AccountedNames(AssetsUnder(releases, job), AssetsUnder(releases0, job), uploads);
    AccountedAgrees(AssetsUnder(releases, job), AssetsUnder(releases0, job), uploads, job);
  }

  lemma InOrderAgrees(job: Job, releases0: seq<Release>, releases: seq<Release>, cache: map<string, Bytes>,
                      history: seq<seq<Release>>, uploads: seq<Sent>)
    requires InOrder(job, releases0, releases, cache, history, uploads)
    ensures AgreesUnder(releases, job) <==> AgreesUnder(releases0, job) && AllGenuine(uploads, job)
  {
    AccountedAgrees(AssetsUnder(releases, job), AssetsUnder(releases0, job), uploads, job);
  }

  /** `main`: one run, on what the last one left behind. */
  method Run(job: Job, releases0: seq<Release>, cache0: map<string, Bytes>, weather: seq<Event>)
    returns (releases: seq<Release>, cache: map<string, Bytes>, done: bool,
             ghost history: seq<seq<Release>>, ghost uploads: seq<Sent>)
    requires Relocatable(job) && RepoOk(releases0, job) && (PartFree(job) ==> CacheClean(cache0, job))
    ensures InOrder(job, releases0, releases, cache, history, uploads)
    ensures done ==> Finished(releases, job)
    ensures weather == [] && Serves(job) && PartFree(job) ==> (done <==> AgreesUnder(releases0, job))
    ensures weather == [] && Serves(job) && PartFree(job) && done ==>
              NamesSent(uploads) == Missing(job.source.assets, AssetsUnder(releases0, job).Keys)
  {
    hide RepoOk, CacheClean, PartFree, Relocatable, Accounted, AssetsUnder, AgreesUnder, Serves, GoodHistory;
    hide Finished, Missing;
    var client := new GitHub(job, releases0, cache0, weather);
    done := client.CopyRelease();
    releases, cache, history, uploads := client.releases, client.cache, client.history, client.uploads;
    if done { UploadedOnce(job, releases0, releases, cache, history, uploads); }
  }

  /**
   Runs the script again and again, each time with what the last run left behind. Through
   all crashes and faults the history stays good and every stored asset is accounted for.
   When the last run succeeds, each missing asset was uploaded exactly once over all runs
   together. When it meets no faults, it succeeds exactly if what was stored at first agreed
   with the source and every upload of every run stored the right bytes.
   */
  method Campaign(job: Job, releases0: seq<Release>, cache0: map<string, Bytes>, weathers: seq<seq<Event>>)
    returns (releases: seq<Release>, cache: map<string, Bytes>, done: bool,
             ghost history: seq<seq<Release>>, ghost uploads: seq<Sent>)
    requires Relocatable(job) && RepoOk(releases0, job) && (PartFree(job) ==> CacheClean(cache0, job))
    ensures InOrder(job, releases0, releases, cache, history, uploads)
    ensures done ==> Finished(releases, job)
    ensures done ==> StoredOnce(job, releases0, uploads)
    ensures Serves(job) && PartFree(job) && weathers != [] && weathers[|weathers| - 1] == [] ==>
              (done <==> AgreesUnder(releases0, job) && AllGenuine(uploads, job))
  {
    hide RepoOk, CacheClean, PartFree, Relocatable, Accounted, AssetsUnder, AgreesUnder, Serves, GoodHistory;
    hide InOrder, Finished, AllGenuine, NamesSent;
    releases, cache, done, history, uploads := releases0, cache0, false, [releases0], [];
    StartInOrder(job, releases, cache);
    for n := 0 to |weathers|
      invariant InOrder(job, releases0, releases, cache, history, uploads)
      invariant done ==> Finished(releases, job)
      invariant Serves(job) && PartFree(job) && n > 0 && weathers[n - 1] == [] ==>
        AgreesUnder(releases0, job) && AllGenuine(uploads, job) ==> done
    {
      InOrderNow(job, releases0, releases, cache, history, uploads);
      ghost var was, cached, past, sent := releases, cache, history, uploads;
      releases, cache, done, history, uploads := Run(job, releases, cache, weathers[n]);
      InOrderThrough(job, releases0, was, releases, cached, cache, past, history, sent, uploads);
      InOrderAgrees(job, releases0, was, cached, past, sent);
      GenuineParts(sent, uploads, job);
      InOrderNow(job, was, releases, cache, history, uploads);
      history, uploads := past + history[1..], sent + uploads;
    }
    if done { UploadedOnce(job, releases0, releases, cache, history, uploads); }
  }

  lemma StartInOrder(job: Job, releases: seq<Release>, cache: map<string, Bytes>)
    requires RepoOk(releases, job) && (PartFree(job) ==> CacheClean(cache, job))
    ensures InOrder(job, releases, releases, cache, [releases], [])
  {
  }

  lemma InOrderNow(job: Job, releases0: seq<Release>, releases: seq<Release>, cache: map<string, Bytes>,
                   history: seq<seq<Release>>, uploads: seq<Sent>)
    requires InOrder(job, releases0, releases, cache, history, uploads)
    ensures RepoOk(releases, job) && (PartFree(job) ==> CacheClean(cache, job)) && history != []
  {
  }
}
