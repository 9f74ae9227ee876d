/**
 Round-robin refresh of related sessions, apps/app/common/session-details.ts.
 */
module RelationRefresh {

  const EVERY_POLLS: nat := 3

  datatype Plan = Plan(sourceIds: seq<string>, nextCursor: nat)

  /** `[...new Set(sessionIds.filter(Boolean))]` */
  function Ids(sessionIds: seq<string>): seq<string> {
    if sessionIds == [] then []
    else
      var ids, last := Ids(sessionIds[..|sessionIds| - 1]), sessionIds[|sessionIds| - 1];
      if last == "" || last in ids then ids else ids + [last]
  }

  /** The ids not yet hydrated, in order. */
  function Discovered(ids: seq<string>, hydrated: set<string>): seq<string> {
    if ids == [] then []
    else
      Discovered(ids[..|ids| - 1], hydrated) + if ids[|ids| - 1] in hydrated then [] else [ids[|ids| - 1]]
  }

  function Limit(sourceLimit: real): nat {
    var whole := sourceLimit.Floor;
    if whole < 1 then 1 else whole
  }

  function Min(a: nat, b: nat): nat { if a <= b then a else b }

  function Root(ids: seq<string>, position: nat): string
    requires ids != []
  {
    ids[position % |ids|]
  }

  /** `count` consecutive roots from `start`, wrapping around. */
  function Window(ids: seq<string>, start: nat, count: nat): (w: seq<string>)
    requires ids != []
    ensures |w| == count && forall t :: 0 <= t < count ==> w[t] == Root(ids, start + t)
  {
    seq(count, t requires 0 <= t < count => Root(ids, start + t))
  }

  /** The plan for distinct ids and a whole limit. */
  function PlanFor(ids: seq<string>, hydrated: set<string>, cursor: nat, attempt: nat, limit: nat): Plan {
    var discovered := Discovered(ids, hydrated);
    var resting := if ids == [] then 0 else cursor % |ids|;
    if discovered != [] then Plan(discovered[..Min(limit, |discovered|)], resting)
    else if ids == [] || attempt % EVERY_POLLS != 0 then Plan([], resting)
    else
      var start, count := cursor % |ids|, Min(limit, |ids|);
      Plan(Window(ids, start, count), (start + count) % |ids|)
  }

  function PlanRunRelationRefresh(sessionIds: seq<string>, hydrated: set<string>, cursor: nat,
                                  pollAttempt: nat, sourceLimit: real): Plan {
    PlanFor(Ids(sessionIds), hydrated, cursor, pollAttempt, Limit(sourceLimit))
  }

  ghost predicate Distinct(xs: seq<string>) {
    forall i, j :: 0 <= i < j < |xs| ==> xs[i] != xs[j]
  }

  lemma {:induction false} IdsDistinct(sessionIds: seq<string>)
    ensures Distinct(Ids(sessionIds))
    ensures forall id :: id in Ids(sessionIds) <==> id in sessionIds && id != ""
  {
    if sessionIds != [] {
      IdsDistinct(sessionIds[..|sessionIds| - 1]);
      assert sessionIds == sessionIds[..|sessionIds| - 1] + [sessionIds[|sessionIds| - 1]];
    }
  }

  lemma {:induction false} DiscoveredMembers(ids: seq<string>, hydrated: set<string>)
    ensures forall id :: id in Discovered(ids, hydrated) <==> id in ids && id !in hydrated
  {
    if ids != [] {
      DiscoveredMembers(ids[..|ids| - 1], hydrated);
      assert ids == ids[..|ids| - 1] + [ids[|ids| - 1]];
    }
  }

  // ----- Runs of polls

  /** One poll: its number and the roots hydrated by then. */
  datatype Poll = Poll(attempt: nat, hydrated: set<string>)

  /** Roots revisited over a run of polls, and the cursor it ends with; polls that discover roots revisit none. */
  function Run(sessionIds: seq<string>, limit: real, cursor: nat, polls: seq<Poll>): Plan {
    if polls == [] then Plan([], cursor)
    else
      var before, last := Run(sessionIds, limit, cursor, polls[..|polls| - 1]), polls[|polls| - 1];
      var plan := PlanRunRelationRefresh(sessionIds, last.hydrated, before.nextCursor, last.attempt, limit);
      Plan(before.sourceIds + if Hydrated(Ids(sessionIds), last.hydrated) then plan.sourceIds else [], plan.nextCursor)
  }

  /** Nothing is left to discover and it is the poll's turn to refresh. */
  predicate Turns(ids: seq<string>, poll: Poll) {
    Hydrated(ids, poll.hydrated) && poll.attempt % EVERY_POLLS == 0
  }

  function Active(ids: seq<string>, polls: seq<Poll>): nat {
    if polls == [] then 0
    else Active(ids, polls[..|polls| - 1]) + if Turns(ids, polls[|polls| - 1]) then 1 else 0
  }

  function Occurrences(xs: seq<string>, x: string): nat {
    if xs == [] then 0 else Occurrences(xs[..|xs| - 1], x) + if xs[|xs| - 1] == x then 1 else 0
  }

  predicate Hydrated(ids: seq<string>, hydrated: set<string>) {
    forall i :: 0 <= i < |ids| ==> ids[i] in hydrated
  }

  /** Roots that one active poll asks for. */
  function Batch(ids: seq<string>, limit: real): nat {
    Min(Limit(limit), |ids|)
  }

  /** The roots asked for so far form one unbroken stretch from `cursor`. */
  ghost predicate Stretch(ids: seq<string>, cursor: nat, total: nat, p: Plan)
    requires ids != []
  {
    p.sourceIds == Window(ids, cursor, total) && p.nextCursor % |ids| == (cursor + total) % |ids|
  }

  /**
   A run visits one unbroken round-robin stretch: active polls continue exactly where the
   previous one stopped, however many inactive polls and polls that discover roots lie
   between them.
   */
  lemma {:induction false} RunIsRoundRobin(sessionIds: seq<string>, limit: real, cursor: nat, polls: seq<Poll>)
    requires Ids(sessionIds) != []
    ensures Stretch(Ids(sessionIds), cursor, Active(Ids(sessionIds), polls) * Batch(Ids(sessionIds), limit),
                    Run(sessionIds, limit, cursor, polls))
  {
    hide Run, Ids, Stretch, Active, Batch;
    TimesIsProduct(Active(Ids(sessionIds), polls), Batch(Ids(sessionIds), limit));
    RunStretches(sessionIds, limit, cursor, polls);
  }

  lemma {:induction false} RunStretches(sessionIds: seq<string>, limit: real, cursor: nat, polls: seq<Poll>)
    requires Ids(sessionIds) != []
    ensures Stretch(Ids(sessionIds), cursor, Times(Active(Ids(sessionIds), polls), Batch(Ids(sessionIds), limit)),
                    Run(sessionIds, limit, cursor, polls))
  {
    var ids, c := Ids(sessionIds), Batch(Ids(sessionIds), limit);
    if polls != [] {
      var front, last := polls[..|polls| - 1], polls[|polls| - 1];
      var before, done := Run(sessionIds, limit, cursor, front), Times(Active(ids, front), c);
      RunStretches(sessionIds, limit, cursor, front);
      hide Stretch, PlanFor;
      PollExtends(ids, Limit(limit), cursor, done, before, last);
    }
  }

  lemma Product(k: int, c: int)
    ensures (k + 1) * c == k * c + c
  {
  }

  lemma PollExtends(ids: seq<string>, limit: nat, cursor: nat, done: nat, before: Plan, poll: Poll)
    requires ids != [] && Stretch(ids, cursor, done, before)
    ensures var p := PlanFor(ids, poll.hydrated, before.nextCursor, poll.attempt, limit);
            Stretch(ids, cursor, done + if Turns(ids, poll) then Min(limit, |ids|) else 0,
                    Plan(before.sourceIds + if Hydrated(ids, poll.hydrated) then p.sourceIds else [], p.nextCursor))
  {
    ModMod(before.nextCursor, |ids|);
    assert before.sourceIds + [] == before.sourceIds;
    if !Hydrated(ids, poll.hydrated) {
      DiscoveringRests(ids, poll.hydrated, before.nextCursor, poll.attempt, limit);
    } else {
      NothingDiscovered(ids, poll.hydrated);
      if Turns(ids, poll) {
        WindowAppend(ids, cursor, done, Min(limit, |ids|), before.nextCursor % |ids|);
        CursorAdvance(cursor, done, Min(limit, |ids|), |ids|);
      }
    }
  }

  /** A poll that discovers roots asks for the first of them and leaves the cursor where it was modulo n. */
  lemma DiscoveringRests(ids: seq<string>, hydrated: set<string>, cursor: nat, attempt: nat, limit: nat)
    requires ids != [] && !Hydrated(ids, hydrated)
    ensures var p := PlanFor(ids, hydrated, cursor, attempt, limit);
            && p.nextCursor == cursor % |ids|
            && p.sourceIds == Discovered(ids, hydrated)[..Min(limit, |Discovered(ids, hydrated)|)]
            && forall id :: id in p.sourceIds ==> id in ids && id !in hydrated
  {
    DiscoveredMembers(ids, hydrated);
    var i :| 0 <= i < |ids| && ids[i] !in hydrated;
    assert ids[i] in Discovered(ids, hydrated);
  }

  /** The whole number of roots a poll may ask for, at least one. */
  lemma LimitIs(limit: real)
    ensures Limit(limit) >= 1
    ensures if limit < 1.0 then Limit(limit) == 1 else Limit(limit) as real <= limit < Limit(limit) as real + 1.0
  {
  }

  lemma {:induction false} NothingDiscovered(ids: seq<string>, hydrated: set<string>)
    requires Hydrated(ids, hydrated)
    ensures Discovered(ids, hydrated) == []
  {
    if ids != [] { NothingDiscovered(ids[..|ids| - 1], hydrated); }
  }

  lemma RootShift(ids: seq<string>, x: nat, t: nat)
    requires ids != []
    ensures Root(ids, x % |ids| + t) == Root(ids, x + t)
  {
    ModAdd(x, t, |ids|);
  }

  lemma {:induction false} WindowAppend(ids: seq<string>, cursor: nat, done: nat, c: nat, start: nat)
    requires ids != [] && start == (cursor + done) % |ids|
    ensures Window(ids, cursor, done + c) == Window(ids, cursor, done) + Window(ids, start, c)
  {
    var whole, first, second := Window(ids, cursor, done + c), Window(ids, cursor, done), Window(ids, start, c);
    hide Root;
    forall t | 0 <= t < done + c ensures whole[t] == (first + second)[t] {
      if t >= done {
        var u := t - done;
        assert (first + second)[t] == second[u] == Root(ids, start + u);
        RootShift(ids, cursor + done, u);
        assert cursor + done + u == cursor + t;
      }
    }
    assert whole == first + second;
  }

  lemma CursorAdvance(cursor: nat, done: nat, c: nat, n: nat)
    requires n > 0
    ensures ((cursor + done) % n + c) % n % n == (cursor + (done + c)) % n
  {
    ModAdd(cursor + done, c, n);
    ModMod((cursor + done) % n + c, n);
  }

  /** Over any run, visit counts of any two roots differ by at most one. */
  lemma VisitsBalanced(sessionIds: seq<string>, limit: real, cursor: nat, polls: seq<Poll>, i: nat, j: nat)
    requires i < |Ids(sessionIds)| && j < |Ids(sessionIds)|
    ensures var visits := Run(sessionIds, limit, cursor, polls).sourceIds;
            Occurrences(visits, Ids(sessionIds)[i]) - Occurrences(visits, Ids(sessionIds)[j]) <= 1
  {
    var ids := Ids(sessionIds);
    var total := Active(ids, polls) * Batch(ids, limit);
    IdsDistinct(sessionIds);
    RunIsRoundRobin(sessionIds, limit, cursor, polls);
    WindowCount(ids, cursor, total, i);
    WindowCount(ids, cursor, total, j);
  }

  /** ceil(n / batch) active polls visit every root, wherever the run starts and whatever lies between them. */
  lemma EveryRootVisited(sessionIds: seq<string>, limit: real, cursor: nat, polls: seq<Poll>, i: nat)
    requires i < |Ids(sessionIds)|
    requires var n, c := |Ids(sessionIds)|, Batch(Ids(sessionIds), limit);
             Active(Ids(sessionIds), polls) >= (n + c - 1) / c
    ensures Ids(sessionIds)[i] in Run(sessionIds, limit, cursor, polls).sourceIds
  {
    var ids := Ids(sessionIds);
    var total := Active(ids, polls) * Batch(ids, limit);
    CeilingSuffices(|ids|, Batch(ids, limit), Active(ids, polls));
    RunIsRoundRobin(sessionIds, limit, cursor, polls);
    var t := Reach(cursor, i, |ids|);
    assert Window(ids, cursor, total)[t] == Root(ids, cursor + t);
  }

  lemma Reach(cursor: nat, i: nat, n: nat) returns (t: nat)
    requires i < n
    ensures t < n && (cursor + t) % n == i
  {
    t := (i + n - cursor % n) % n;
    ModAdd(cursor, t, n);
    Meets(cursor % n, i, n);
  }

  lemma CeilingSuffices(n: nat, batch: nat, polls: nat)
    requires batch > 0 && polls >= (n + batch - 1) / batch
    ensures polls * batch >= n
  {
    var q := (n + batch - 1) / batch;
    assert q * batch + (n + batch - 1) % batch == n + batch - 1;
    assert polls * batch >= q * batch;
  }

  /** One poll asks for distinct known roots, within the limit, and keeps the cursor in range. */
  lemma PollIsBounded(sessionIds: seq<string>, hydrated: set<string>, cursor: nat, attempt: nat, limit: real)
    ensures var p := PlanRunRelationRefresh(sessionIds, hydrated, cursor, attempt, limit);
            && |p.sourceIds| <= Limit(limit)
            && Distinct(p.sourceIds)
            && (forall i :: 0 <= i < |p.sourceIds| ==> p.sourceIds[i] in sessionIds && p.sourceIds[i] != "")
            && (Ids(sessionIds) != [] ==> p.nextCursor < |Ids(sessionIds)|)
  {
    var ids := Ids(sessionIds);
    IdsDistinct(sessionIds);
    PlanBounded(ids, hydrated, cursor, attempt, Limit(limit));
  }

  lemma PlanBounded(ids: seq<string>, hydrated: set<string>, cursor: nat, attempt: nat, limit: nat)
    requires Distinct(ids)
    ensures var p := PlanFor(ids, hydrated, cursor, attempt, limit);
            && |p.sourceIds| <= limit
            && Distinct(p.sourceIds)
            && (forall i :: 0 <= i < |p.sourceIds| ==> p.sourceIds[i] in ids)
            && (ids != [] ==> p.nextCursor < |ids|)
  {
    var d := Discovered(ids, hydrated);
    if d != [] {
      DiscoveredDistinct(ids, hydrated);
      DiscoveredMembers(ids, hydrated);
      assert forall i :: 0 <= i < |d| ==> d[i] in d;
    } else if ids != [] && attempt % EVERY_POLLS == 0 {
      WindowDistinct(ids, cursor % |ids|, Min(limit, |ids|));
    }
  }

  lemma WindowDistinct(ids: seq<string>, start: nat, count: nat)
    requires ids != [] && count <= |ids| && Distinct(ids)
    ensures Distinct(Window(ids, start, count))
    ensures forall i :: 0 <= i < count ==> Window(ids, start, count)[i] in ids
  {
    var w := Window(ids, start, count);
    forall i, j | 0 <= i < j < count ensures w[i] != w[j] {
      Apart(start + i, start + j, |ids|);
      RootsApart(ids, start + i, start + j);
    }
  }

  lemma RootsApart(ids: seq<string>, p: nat, q: nat)
    requires ids != [] && Distinct(ids) && p % |ids| != q % |ids|
    ensures Root(ids, p) != Root(ids, q)
  {
  }

  lemma {:induction false} DiscoveredDistinct(ids: seq<string>, hydrated: set<string>)
    requires Distinct(ids)
    ensures Distinct(Discovered(ids, hydrated))
  {
    if ids != [] {
      var front, last := ids[..|ids| - 1], ids[|ids| - 1];
      DiscoveredDistinct(front, hydrated);
      DiscoveredMembers(front, hydrated);
      var d := Discovered(front, hydrated);
      forall i | 0 <= i < |d| ensures d[i] != last { assert d[i] in d; }
    }
  }

  // ----- Newly discovered roots come first

  /** Hydrated roots after k polls, when each poll's roots become hydrated. */
  function Hydrate(ids: seq<string>, hydrated: set<string>, limit: nat, k: nat): set<string> {
    if k == 0 then hydrated
    else
      var h := Hydrate(ids, hydrated, limit, k - 1);
      h + SetOf(PlanFor(ids, h, 0, 1, limit).sourceIds)
  }

  function SetOf(xs: seq<string>): set<string> {
    set x | x in xs
  }

  /** Each poll takes the next `limit` undiscovered roots, so k polls leave max(0, d - k * limit). */
  lemma HydrationProgress(ids: seq<string>, hydrated: set<string>, limit: nat, k: nat)
    requires Distinct(ids)
    ensures Discovered(ids, Hydrate(ids, hydrated, limit, k)) == Rest(Discovered(ids, hydrated), k * limit)
  {
    hide Discovered, Rest, Hydrate, Distinct;
    TimesIsProduct(k, limit);
    HydratedRest(ids, hydrated, limit, k);
  }

  lemma {:induction false} HydratedRest(ids: seq<string>, hydrated: set<string>, limit: nat, k: nat)
    requires Distinct(ids)
    ensures Discovered(ids, Hydrate(ids, hydrated, limit, k)) == Rest(Discovered(ids, hydrated), Times(k, limit))
  {
    hide Discovered, Rest, PlanFor, SetOf, Distinct;
    if k == 0 {
      DropNone(Discovered(ids, hydrated));
    } else {
      HydratedRest(ids, hydrated, limit, k - 1);
      HydrateStep(ids, Hydrate(ids, hydrated, limit, k - 1), limit);
      DropTwice(Discovered(ids, hydrated), Times(k - 1, limit), limit);
    }
  }

  /** k times n, by addition. */
  function Times(k: nat, n: nat): nat {
    if k == 0 then 0 else Times(k - 1, n) + n
  }

  lemma {:induction false} TimesIsProduct(k: nat, n: nat)
    ensures Times(k, n) == k * n
  {
    if k > 0 {
      TimesIsProduct(k - 1, n);
      Product(k - 1, n);
    }
  }

  /** What remains behind the first n. */
  function Rest(d: seq<string>, n: nat): seq<string> {
    if n <= |d| then d[n..] else []
  }

  lemma DropNone(d: seq<string>)
    ensures Rest(d, 0) == d
  {
  }

  lemma DropTwice(d: seq<string>, a: nat, b: nat)
    ensures Rest(Rest(d, a), b) == Rest(d, a + b)
  {
  }

  lemma HydrateStep(ids: seq<string>, h: set<string>, limit: nat)
    requires Distinct(ids)
    ensures Discovered(ids, h + SetOf(PlanFor(ids, h, 0, 1, limit).sourceIds)) == Rest(Discovered(ids, h), limit)
  {
    var rest := Discovered(ids, h);
    if rest == [] {
      assert h + SetOf([]) == h;
    } else {
      DropHydrated(ids, h, Min(limit, |rest|));
    }
  }

  /** Hydrating the first roots of the undiscovered list removes exactly those. */
  lemma {:induction false} DropHydrated(ids: seq<string>, h: set<string>, k: nat)
    requires Distinct(ids) && k <= |Discovered(ids, h)|
    ensures Discovered(ids, h + SetOf(Discovered(ids, h)[..k])) == Discovered(ids, h)[k..]
  {
    if ids != [] {
      var front, last := ids[..|ids| - 1], ids[|ids| - 1];
      var d, whole := Discovered(front, h), Discovered(ids, h);
      DiscoveredMembers(front, h);
      assert last !in d;
      if k <= |d| {
        DropHydrated(front, h, k);
        assert whole[..k] == d[..k];
        assert last !in SetOf(d[..k]);
      } else {
        DropHydrated(front, h, |d|);
        assert whole == d + [last] && whole[..k] == whole && d[..|d|] == d;
        SameOnIds(front, h + SetOf(whole), h + SetOf(d));
      }
    }
  }

  lemma {:induction false} SameOnIds(ids: seq<string>, a: set<string>, b: set<string>)
    requires forall i :: 0 <= i < |ids| ==> (ids[i] in a <==> ids[i] in b)
    ensures Discovered(ids, a) == Discovered(ids, b)
  {
    if ids != [] { SameOnIds(ids[..|ids| - 1], a, b); }
  }

  // ----- Counting visits

  /** How many naturals below x leave remainder r modulo n. */
  function Hits(x: nat, n: nat, r: nat): nat
    requires n > 0
  {
    x / n + if x % n > r then 1 else 0
  }

  lemma {:induction false} WindowCount(ids: seq<string>, s: nat, total: nat, r: nat)
    requires Distinct(ids)
    requires r < |ids|
    ensures Occurrences(Window(ids, s, total), ids[r]) == Hits(s + total, |ids|, r) - Hits(s, |ids|, r)
  {
    if total > 0 {
      var n, x := |ids|, s + total - 1;
      WindowCount(ids, s, total - 1, r);
      assert Window(ids, s, total)[..total - 1] == Window(ids, s, total - 1);
      DivStep(x, n);
      assert ids[x % n] == ids[r] <==> x % n == r;
    } else {
      assert Window(ids, s, 0) == [];
    }
  }

  lemma DivUnique(x: int, n: int, q: int, m: int)
    requires n > 0 && x == q * n + m && 0 <= m < n
    ensures x / n == q && x % n == m
  {
    var k := x / n - q;
    assert x == x / n * n + x % n;
    assert k * n == m - x % n;
    MulBound(k, n);
  }

  lemma MulBound(k: int, n: int)
    requires n > 0
    ensures k >= 1 ==> k * n >= n
    ensures k <= -1 ==> k * n <= -n
  {
  }

  lemma DivStep(x: nat, n: nat)
    requires n > 0
    ensures x % n == n - 1 ==> (x + 1) / n == x / n + 1 && (x + 1) % n == 0
    ensures x % n != n - 1 ==> (x + 1) / n == x / n && (x + 1) % n == x % n + 1
  {
    assert x == x / n * n + x % n;
    if x % n == n - 1 {
      assert (x / n + 1) * n == x / n * n + n;
      DivUnique(x + 1, n, x / n + 1, 0);
    } else {
      DivUnique(x + 1, n, x / n, x % n + 1);
    }
  }

  lemma ModMod(x: nat, n: nat)
    requires n > 0
    ensures x % n % n == x % n
  {
    DivUnique(x % n, n, 0, x % n);
  }

  lemma ModAdd(x: nat, t: nat, n: nat)
    requires n > 0
    ensures (x % n + t) % n == (x + t) % n
  {
    var y := x % n + t;
    assert x == x / n * n + x % n && y == y / n * n + y % n;
    assert (x / n + y / n) * n == x / n * n + y / n * n;
    DivUnique(x + t, n, x / n + y / n, y % n);
  }

  lemma Apart(x: nat, y: nat, n: nat)
    requires n > 0 && x < y < x + n
    ensures x % n != y % n
  {
    var k := y / n - x / n;
    assert x == x / n * n + x % n && y == y / n * n + y % n;
    assert k * n == y - x - (y % n - x % n);
    MulBound(k, n);
  }

  lemma Meets(a: nat, i: nat, n: nat)
    requires a < n && i < n
    ensures (a + (i + n - a) % n) % n == i
  {
    ModAdd(i + n - a, a, n);
    DivUnique(i + n, n, 1, i);
  }

  /** With nothing to discover every third poll revisits roots, as many as the limit allows, and the others none. */
  lemma EveryThirdPoll(ids: seq<string>, hydrated: set<string>, cursor: nat, attempt: nat, limit: nat)
    requires ids != [] && Hydrated(ids, hydrated) && limit >= 1
    ensures |PlanFor(ids, hydrated, cursor, attempt, limit).sourceIds|
         == if attempt % 3 == 0 then (if limit <= |ids| then limit else |ids|) else 0
    ensures attempt % 3 != 0 ==> PlanFor(ids, hydrated, cursor, attempt, limit).nextCursor == cursor % |ids|
  {
    NothingDiscovered(ids, hydrated);
  }
}
