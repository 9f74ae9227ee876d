/**
 The bounded activity cache of apps/app/common/history-feed-policy.ts.
 A JavaScript `Map` is its entries in insertion order; setting a present key keeps its place.
 */
module HistoryFeed {
  import opened StableSort

  /** `occurredAt` is the parsed date; `content` stands for the remaining fields. */
  datatype Item = Item(id: string, occurredAt: int, content: string)

  function NewestFirst(x: Item): int { -x.occurredAt }

  predicate Has(m: seq<Item>, id: string) {
    exists i :: 0 <= i < |m| && m[i].id == id
  }

  function Swap(y: Item, x: Item): Item {
    if y.id == x.id then x else y
  }

  function Replace(m: seq<Item>, x: Item): (r: seq<Item>)
    ensures |r| == |m| && forall i :: 0 <= i < |m| ==> r[i] == Swap(m[i], x)
  {
    seq(|m|, i requires 0 <= i < |m| => Swap(m[i], x))
  }

  /** `Map.prototype.set` */
  function Put(m: seq<Item>, x: Item): seq<Item> {
    if Has(m, x.id) then Replace(m, x) else m + [x]
  }

  function PutAll(m: seq<Item>, xs: seq<Item>): seq<Item> {
    if xs == [] then m else Put(PutAll(m, xs[..|xs| - 1]), xs[|xs| - 1])
  }

  function Merge(previous: seq<Item>, incoming: seq<Item>, reset: bool, maxItems: int): seq<Item> {
    Take(Sort(PutAll(PutAll([], if reset then [] else previous), incoming), NewestFirst), Max(0, maxItems))
  }

  method MergeBoundedHistory(previous: seq<Item>, incoming: seq<Item>, reset: bool, maxItems: int)
    returns (result: seq<Item>)
    ensures result == Merge(previous, incoming, reset, maxItems)
  {
    var byId: seq<Item> := [];
    if !reset {
      for i := 0 to |previous|
        invariant byId == PutAll([], previous[..i])
      {
        byId := Put(byId, previous[i]);
        assert previous[..i + 1][..i] == previous[..i];
      }
      assert previous[..|previous|] == previous;
    }
    ghost var kept := byId;
    for i := 0 to |incoming|
      invariant byId == PutAll(kept, incoming[..i])
    {
      byId := Put(byId, incoming[i]);
      assert incoming[..i + 1][..i] == incoming[..i];
    }
    assert incoming[..|incoming|] == incoming;
    var sorted := Sort(byId, NewestFirst);
    var limit := Max(0, maxItems);
    result := if limit <= |sorted| then sorted[..limit] else sorted;
  }

  // ----- The cache over a whole run of pages

  datatype Call = Call(page: seq<Item>, reset: bool)

  /** What the store holds after these merges, starting empty. */
  function Cache(calls: seq<Call>, k: int): seq<Item> {
    if calls == [] then []
    else
      var last := calls[|calls| - 1];
      Merge(Cache(calls[..|calls| - 1], k), last.page, last.reset, k)
  }

  /** Every item delivered since the last reset. */
  function Received(calls: seq<Call>): seq<Item> {
    if calls == [] then []
    else
      var last := calls[|calls| - 1];
      (if last.reset then [] else Received(calls[..|calls| - 1])) + last.page
  }

  predicate UniqueIds(xs: seq<Item>) {
    forall i, j :: 0 <= i < j < |xs| ==> xs[i].id != xs[j].id
  }

  /**
   The bounded cache refines the unbounded one: truncating after every page shows exactly
   the first k entries of sorting the last-writer-wins merge of everything received.
   */
  predicate Refines(calls: seq<Call>, k: int) {
    Cache(calls, k) == Take(Sort(PutAll([], Received(calls)), NewestFirst), Max(0, k))
  }

  /**
   An update that can upset the order of truncated lists: it moves its item back and has
   the date of another item between its old and new date, ends included; or it moves its
   item forward onto the very date of another.
   */
  predicate Disturbs(was: Item, now: Item, b: Item) {
    was.id == now.id != b.id &&
    if now.occurredAt < was.occurredAt then now.occurredAt <= b.occurredAt <= was.occurredAt
    else now.occurredAt > was.occurredAt && b.occurredAt == now.occurredAt
  }

  /** No delivery disturbs what was delivered before it. */
  predicate Undisturbed(xs: seq<Item>) {
    forall i, l, j :: 0 <= i < j < |xs| && 0 <= l < j ==> !Disturbs(xs[i], xs[j], xs[l])
  }

  /** Refinement, unique ids and descending dates, as long as no delivery disturbs earlier ones. */
  lemma BoundedRefinesUnbounded(calls: seq<Call>, k: int)
    requires Undisturbed(Received(calls))
    ensures Refines(calls, k)
    ensures UniqueIds(Cache(calls, k)) && Sorted(Cache(calls, k), NewestFirst)
  {
    var m := PutAll([], Received(calls));
    CacheIsPrefix(calls, k);
    PutAllUnique([], Received(calls));
    SortUnique(m);
    SortSorted(m, NewestFirst);
    TakeMembers(Sort(m, NewestFirst), Max(0, k));
  }

  /** Each id keeps one date, namely the one `date` assigns to it. */
  predicate Dated(xs: seq<Item>, date: string -> int) {
    forall i :: 0 <= i < |xs| ==> xs[i].occurredAt == date(xs[i].id)
  }

  /** Dates that do not move are enough, even when those of different items coincide. */
  lemma FixedDatesRefine(calls: seq<Call>, k: int, date: string -> int)
    requires Dated(Received(calls), date)
    ensures Refines(calls, k)
  {
    BoundedRefinesUnbounded(calls, k);
  }

  /** No id's date ever decreases from one delivery to a later one. */
  predicate Forward(xs: seq<Item>) {
    forall i, j :: 0 <= i < j < |xs| && xs[i].id == xs[j].id ==> xs[i].occurredAt <= xs[j].occurredAt
  }

  predicate NoSharedDates(xs: seq<Item>) {
    forall i, j :: 0 <= i < j < |xs| && xs[i].id != xs[j].id ==> xs[i].occurredAt != xs[j].occurredAt
  }

  /** The ordinary update: dates that only move forward, past other items but never onto their dates. */
  lemma ForwardDatesRefine(calls: seq<Call>, k: int)
    requires Forward(Received(calls)) && NoSharedDates(Received(calls))
    ensures Refines(calls, k)
  {
    BoundedRefinesUnbounded(calls, k);
  }

  /** The dates of one id, in either order of delivery, enclose or touch the date of another. */
  predicate Straddled(a: Item, a': Item, b: Item) {
    a.id == a'.id != b.id && a'.occurredAt < a.occurredAt && a'.occurredAt <= b.occurredAt <= a.occurredAt
  }

  /** Every page of the run holds items of `items` only. */
  ghost predicate From(calls: seq<Call>, items: iset<Item>) {
    forall i, j :: 0 <= i < |calls| && 0 <= j < |calls[i].page| ==> calls[i].page[j] in items
  }

  /**
   The items whose every run refines, at every size, are exactly those of which none can
   straddle another.
   */
  lemma RefinesIff(items: iset<Item>)
    ensures (forall calls, k :: From(calls, items) ==> Refines(calls, k))
       <==> forall a, a', b :: a in items && a' in items && b in items ==> !Straddled(a, a', b)
  {
    hide Refines, From;
    if forall a, a', b :: a in items && a' in items && b in items ==> !Straddled(a, a', b) {
      forall calls, k | From(calls, items) ensures Refines(calls, k) {
        ReceivedFrom(calls, items);
        UnstraddledIsUndisturbed(Received(calls), items);
        BoundedRefinesUnbounded(calls, k);
      }
    } else {
      var a, a', b :| a in items && a' in items && b in items && Straddled(a, a', b);
      var calls := Breaking(a, a', b, items);
    }
  }

  lemma UnstraddledIsUndisturbed(xs: seq<Item>, items: iset<Item>)
    requires forall i :: 0 <= i < |xs| ==> xs[i] in items
    requires forall a, a', b :: a in items && a' in items && b in items ==> !Straddled(a, a', b)
    ensures Undisturbed(xs)
  {
    forall i, l, j | 0 <= i < j < |xs| && 0 <= l < j ensures !Disturbs(xs[i], xs[j], xs[l]) {
      assert !Straddled(xs[i], xs[j], xs[l]) && !Straddled(xs[j], xs[i], xs[l]);
    }
  }

  lemma Breaking(a: Item, a': Item, b: Item, items: iset<Item>) returns (calls: seq<Call>)
    requires a in items && a' in items && b in items && Straddled(a, a', b)
    ensures From(calls, items) && !Refines(calls, 1)
  {
    hide Cache, Received, PutAll, Sort, Take, Merge;
    calls := MovingDateBreaksRefinement(a, a', b);
    assert [a'][0] != [b][0];
    if b.occurredAt > a'.occurredAt { DeliverFrom(a, b, a', items); } else { DeliverFrom(b, a, a', items); }
  }

  lemma DeliverFrom(x: Item, y: Item, z: Item, items: iset<Item>)
    requires x in items && y in items && z in items
    ensures From(Deliver(x, y, z), items)
  {
  }

  lemma {:induction false} ReceivedFrom(calls: seq<Call>, items: iset<Item>)
    requires From(calls, items)
    ensures forall i :: 0 <= i < |Received(calls)| ==> Received(calls)[i] in items
  {
    if calls != [] {
      var front := calls[..|calls| - 1];
      assert forall i :: 0 <= i < |front| ==> front[i] == calls[i];
      ReceivedFrom(front, items);
    }
  }

  /** Exactly the final delivery of each id survives the unbounded merge. */
  lemma {:induction false} LastWriterWins(xs: seq<Item>, x: Item)
    ensures x in PutAll([], xs)
       <==> exists i :: FinalAt(xs, x, i)
  {
    hide Put, FinalAt;
    if xs != [] {
      var front, last := xs[..|xs| - 1], xs[|xs| - 1];
      LastWriterWins(front, x);
      PutMembers(PutAll([], front), last, x);
      assert xs == front + [last];
      FinalSnoc(front, last, x);
    } else {
      NeverFinal(x);
    }
  }

  /** The delivery at i is the last one of its id. */
  predicate FinalAt(xs: seq<Item>, x: Item, i: int) {
    0 <= i < |xs| && xs[i] == x && forall j :: i < j < |xs| ==> xs[j].id != x.id
  }

  lemma NeverFinal(x: Item)
    ensures forall i :: !FinalAt([], x, i)
  {
  }

  lemma FinalSnoc(front: seq<Item>, last: Item, x: Item)
    ensures (exists i :: FinalAt(front + [last], x, i)) <==>
      x == last || (x.id != last.id && exists i :: FinalAt(front, x, i))
  {
    var xs := front + [last];
    assert xs[|front|] == last;
    if i :| FinalAt(xs, x, i) {
      if i < |front| {
        assert forall j :: i < j < |front| ==> front[j] == xs[j];
        assert FinalAt(front, x, i);
      }
    }
    if x == last { assert FinalAt(xs, x, |front|); }
    if i :| x.id != last.id && FinalAt(front, x, i) { assert FinalAt(xs, x, i); }
  }

  lemma PutMembers(m: seq<Item>, y: Item, x: Item)
    ensures x in Put(m, y) <==> x == y || (x in m && x.id != y.id)
  {
    var r := Put(m, y);
    if Has(m, y.id) {
      var i :| 0 <= i < |m| && m[i].id == y.id;
      assert r[i] == y;
      if x in m && x.id != y.id {
        var j :| 0 <= j < |m| && m[j] == x;
        assert r[j] == x;
      }
    } else if x in m {
      var j :| 0 <= j < |m| && m[j] == x;
      assert r[j] == x;
    }
  }

  /**
   Wherever an item straddles another, three deliveries of one item each make a cache of
   one entry show the item although the other comes first.
   */
  lemma MovingDateBreaksRefinement(a: Item, a': Item, b: Item) returns (calls: seq<Call>)
    requires Straddled(a, a', b)
    ensures calls == if b.occurredAt > a'.occurredAt then Deliver(a, b, a') else Deliver(b, a, a')
    ensures Cache(calls, 1) == [a'] && Take(Sort(PutAll([], Received(calls)), NewestFirst), 1) == [b]
  {
    if b.occurredAt > a'.occurredAt {
      calls := Deliver(a, b, a');
      CacheThree(a, b, a');
      ReceivedThree(a, b, a');
      PutThree(a, b, a');
      SortTwo(a', b);
    } else {
      calls := Deliver(b, a, a');
      CacheThree(b, a, a');
      ReceivedThree(b, a, a');
      PutOther(b, a, a');
      SortTwo(b, a');
    }
  }

  /** Three pages of one item each. */
  function Deliver(x: Item, y: Item, z: Item): seq<Call> {
    [Call([x], false), Call([y], false), Call([z], false)]
  }

  /** A cache of one entry keeps the newer of the first two, and then its update. */
  lemma CacheThree(x: Item, y: Item, z: Item)
    requires x.id != y.id && z.id == if y.occurredAt <= x.occurredAt then x.id else y.id
    ensures Cache(Deliver(x, y, z), 1) == [z]
  {
    var one, two := [Call([x], false)], [Call([x], false), Call([y], false)];
    var kept := if y.occurredAt <= x.occurredAt then x else y;
    assert one == [] + [Call([x], false)];
    assert two == one + [Call([y], false)];
    assert Deliver(x, y, z) == two + [Call([z], false)];
    Snoc([], x, 1);
    ShowFirst(x);
    Snoc(one, y, 1);
    ShowNewer(x, y);
    Snoc(two, z, 1);
    ShowUpdate(kept, z);
  }

  lemma ReceivedThree(x: Item, y: Item, z: Item)
    ensures Received(Deliver(x, y, z)) == [x, y, z]
  {
    var one, two := [Call([x], false)], [Call([x], false), Call([y], false)];
    assert one == [] + [Call([x], false)];
    assert two == one + [Call([y], false)];
    assert Deliver(x, y, z) == two + [Call([z], false)];
    SnocReceived([], x);
    SnocReceived(one, y);
    SnocReceived(two, z);
  }

  lemma ShowFirst(a: Item)
    ensures Merge([], [a], false, 1) == [a]
  {
    MergeOne([], a, 1);
    SortOfSorted([a], NewestFirst);
  }

  lemma TakeOne(a: Item, b: Item)
    ensures Take([a, b], 1) == [a]
  {
  }

  lemma ShowNewer(a: Item, b: Item)
    requires a.id != b.id
    ensures Merge([a], [b], false, 1) == if b.occurredAt <= a.occurredAt then [a] else [b]
  {
    hide Merge, Put, PutAll, Sort, Insert, Take, Has, Replace;
    MergeOne([a], b, 1);
    PutFresh([a], b);
    assert [a] + [b] == [a, b];
    SortTwo(a, b);
    TakeOne(a, b);
    TakeOne(b, a);
  }

  lemma ShowUpdate(a: Item, a': Item)
    requires a.id == a'.id
    ensures Merge([a], [a'], false, 1) == [a']
  {
    MergeOne([a], a', 1);
    PutPresent(a, [], a');
    SortOfSorted([a'], NewestFirst);
  }

  lemma PutThree(a: Item, b: Item, a': Item)
    requires a.id == a'.id != b.id
    ensures PutAll([], [a, b, a']) == [a', b]
  {
    assert [a, b, a'][..2] == [a, b];
    PutUnique([a, b]);
    PutPresent(a, [b], a');
  }

  lemma PutOther(b: Item, a: Item, a': Item)
    requires a.id == a'.id != b.id
    ensures PutAll([], [b, a, a']) == [b, a']
  {
    assert [b, a, a'][..2] == [b, a];
    PutUnique([b, a]);
    PutSecond(b, a, a');
  }

  lemma PutSecond(b: Item, a: Item, a': Item)
    requires a.id == a'.id != b.id
    ensures Put([b, a], a') == [b, a']
  {
    var r := Put([b, a], a');
    assert [b, a][1].id == a'.id;
    assert r[0] == b && r[1] == a';
  }

  lemma Snoc(calls: seq<Call>, x: Item, k: nat)
    ensures Cache(calls + [Call([x], false)], k) == Merge(Cache(calls, k), [x], false, k)
  {
    assert (calls + [Call([x], false)])[..|calls|] == calls;
  }

  lemma SnocReceived(calls: seq<Call>, x: Item)
    ensures Received(calls + [Call([x], false)]) == Received(calls) + [x]
  {
    assert (calls + [Call([x], false)])[..|calls|] == calls;
  }

  lemma PutPresent(a: Item, rest: seq<Item>, a': Item)
    requires a.id == a'.id && !Has(rest, a.id)
    ensures Put([a] + rest, a') == [a'] + rest
  {
    assert ([a] + rest)[0].id == a'.id;
  }

  lemma MergeOne(previous: seq<Item>, x: Item, k: nat)
    requires UniqueIds(previous)
    ensures Merge(previous, [x], false, k) == Take(Sort(Put(previous, x), NewestFirst), k)
  {
    PutUnique(previous);
    assert [x][..0] == [];
    assert PutAll(previous, [x]) == Put(PutAll(previous, []), x);
  }

  lemma SortTwo(x: Item, y: Item)
    ensures Sort([x, y], NewestFirst) == if y.occurredAt <= x.occurredAt then [x, y] else [y, x]
  {
    assert [x, y][..1] == [x] && [x][..0] == [];
    assert Sort([x], NewestFirst) == [x];
    assert Insert([], y, NewestFirst) == [y];
    assert Sort([x, y], NewestFirst) == Insert([x], y, NewestFirst);
  }

  /** Moving forward onto a shared date breaks it too, here with room for both items. */
  lemma ForwardTieBreaksRefinement(x: Item, y: Item, x': Item)
    requires x.id == x'.id != y.id && x.occurredAt < y.occurredAt == x'.occurredAt
    ensures Cache(Deliver(x, y, x'), 2) == [y, x']
    ensures Take(Sort(PutAll([], Received(Deliver(x, y, x'))), NewestFirst), 2) == [x', y]
  {
    ReceivedThree(x, y, x');
    PutThree(x, y, x');
    SortTwo(x', y);
    RoomForTwo(x, y, x');
  }

  lemma RoomForTwo(x: Item, y: Item, x': Item)
    requires x.id == x'.id != y.id && x.occurredAt < y.occurredAt == x'.occurredAt
    ensures Cache(Deliver(x, y, x'), 2) == [y, x']
  {
    var one, two := [Call([x], false)], [Call([x], false), Call([y], false)];
    assert one == [] + [Call([x], false)];
    assert two == one + [Call([y], false)];
    assert Deliver(x, y, x') == two + [Call([x'], false)];
    hide Cache, Merge, Put, Sort;
    Snoc([], x, 2);
    NothingCached(2);
    ShowAlone(x);
    Snoc(one, y, 2);
    ShowAbove(x, y);
    Snoc(two, x', 2);
    ShowTied(y, x, x');
  }

  lemma NothingCached(k: int)
    ensures Cache([], k) == []
  {
  }

  lemma ShowAlone(x: Item)
    ensures Merge([], [x], false, 2) == [x]
  {
    MergeOne([], x, 2);
    SortOfSorted([x], NewestFirst);
  }

  lemma ShowAbove(a: Item, x: Item)
    requires a.id != x.id && a.occurredAt < x.occurredAt
    ensures Merge([a], [x], false, 2) == [x, a]
  {
    hide Merge, Put, Sort;
    MergeOne([a], x, 2);
    PutFresh([a], x);
    assert [a] + [x] == [a, x];
    SortTwo(a, x);
  }

  lemma ShowTied(y: Item, x: Item, x': Item)
    requires y.id != x.id == x'.id && y.occurredAt == x'.occurredAt
    ensures Merge([y, x], [x'], false, 2) == [y, x']
  {
    hide Merge, Put, Sort;
    MergeOne([y, x], x', 2);
    PutSecond(y, x, x');
    SortTwo(y, x');
  }

  // ----- Proof: the sorted list as it evolves item by item

  /** What one delivery does to the sorted list. */
  function Step(s: seq<Item>, x: Item): seq<Item> {
    Sort(Put(s, x), NewestFirst)
  }

  function StepAll(s: seq<Item>, xs: seq<Item>): seq<Item> {
    if xs == [] then s else Step(StepAll(s, xs[..|xs| - 1]), xs[|xs| - 1])
  }

  /** The delivery disturbs nothing in the list. */
  predicate Fits(s: seq<Item>, x: Item) {
    forall i, l :: 0 <= i < |s| && 0 <= l < |s| ==> !Disturbs(s[i], x, s[l])
  }

  predicate Drawn(s: seq<Item>, xs: seq<Item>) {
    forall i :: 0 <= i < |s| ==> s[i] in xs
  }

  lemma {:induction false} FitsLast(s: seq<Item>, front: seq<Item>, x: Item)
    requires Undisturbed(front + [x]) && Drawn(s, front)
    ensures Fits(s, x) && Undisturbed(front)
  {
    var all := front + [x];
    assert all[|front|] == x && forall i :: 0 <= i < |front| ==> all[i] == front[i];
    forall i, l | 0 <= i < |s| && 0 <= l < |s| ensures !Disturbs(s[i], x, s[l]) {
      var p :| 0 <= p < |front| && front[p] == s[i];
      var q :| 0 <= q < |front| && front[q] == s[l];
      assert !Disturbs(all[p], all[|front|], all[q]);
    }
  }

  // Maps keep their ids distinct and hold nothing that was not delivered.

  lemma PutKeepsUnique(m: seq<Item>, x: Item)
    requires UniqueIds(m)
    ensures UniqueIds(Put(m, x))
  {
  }

  lemma PutDrawn(m: seq<Item>, xs: seq<Item>, x: Item)
    requires Drawn(m, xs)
    ensures Drawn(Put(m, x), xs + [x])
  {
    forall i | 0 <= i < |Put(m, x)| ensures Put(m, x)[i] in xs + [x] {
      PutMembers(m, x, Put(m, x)[i]);
    }
  }

  lemma {:induction false} PutAllUnique(m: seq<Item>, xs: seq<Item>)
    requires UniqueIds(m)
    ensures UniqueIds(PutAll(m, xs))
  {
    if xs != [] {
      PutAllUnique(m, xs[..|xs| - 1]);
      PutKeepsUnique(PutAll(m, xs[..|xs| - 1]), xs[|xs| - 1]);
    }
  }

  lemma {:induction false} PutAllDrawn(m: seq<Item>, base: seq<Item>, xs: seq<Item>)
    requires Drawn(m, base)
    ensures Drawn(PutAll(m, xs), base + xs)
  {
    if xs == [] {
      assert base + xs == base;
    } else {
      var front, last := xs[..|xs| - 1], xs[|xs| - 1];
      PutAllDrawn(m, base, front);
      PutDrawn(PutAll(m, front), base + front, last);
      assert base + front + [last] == base + xs;
    }
  }

  lemma {:induction false} PutAllAppend(m: seq<Item>, a: seq<Item>, b: seq<Item>)
    ensures PutAll(m, a + b) == PutAll(PutAll(m, a), b)
  {
    if b == [] {
      assert a + b == a;
    } else {
      assert (a + b)[..|a + b| - 1] == a + b[..|b| - 1];
      PutAllAppend(m, a, b[..|b| - 1]);
    }
  }

  lemma PutFresh(m: seq<Item>, x: Item)
    requires forall i :: 0 <= i < |m| ==> m[i].id != x.id
    ensures Put(m, x) == m + [x]
  {
  }

  /** Loading a list whose ids are distinct into an empty map gives the list back. */
  lemma {:induction false} PutUnique(xs: seq<Item>)
    requires UniqueIds(xs)
    ensures PutAll([], xs) == xs
  {
    hide Put;
    if xs != [] {
      var front, last := xs[..|xs| - 1], xs[|xs| - 1];
      PutUnique(front);
      PutFresh(front, last);
      assert front + [last] == xs;
    }
  }

  lemma TakeMembers(s: seq<Item>, k: nat)
    ensures forall x :: x in Take(s, k) ==> x in s
    ensures UniqueIds(s) ==> UniqueIds(Take(s, k))
    ensures Sorted(s, NewestFirst) ==> Sorted(Take(s, k), NewestFirst)
  {
  }

  lemma {:induction false} InsertUnique(s: seq<Item>, x: Item)
    requires UniqueIds(s) && !Has(s, x.id)
    ensures UniqueIds(Insert(s, x, NewestFirst))
    ensures forall id :: Has(Insert(s, x, NewestFirst), id) ==> Has(s, id) || id == x.id
  {
    if s != [] && NewestFirst(s[|s| - 1]) > NewestFirst(x) {
      var front := s[..|s| - 1];
      InsertUnique(front, x);
      var inner := Insert(front, x, NewestFirst);
      assert !Has(inner, s[|s| - 1].id);
      forall id | Has(inner + [s[|s| - 1]], id) ensures Has(s, id) || id == x.id {
        assert id == s[|s| - 1].id || Has(inner, id);
      }
    }
  }

  lemma {:induction false} SortUnique(m: seq<Item>)
    requires UniqueIds(m)
    ensures UniqueIds(Sort(m, NewestFirst))
  {
    if m != [] {
      var n := |m| - 1;
      var s := Sort(m[..n], NewestFirst);
      SortUnique(m[..n]);
      SortMembers(m[..n], NewestFirst);
      assert forall i :: 0 <= i < |s| ==> s[i] in m[..n];
      InsertUnique(s, m[n]);
    }
  }

  lemma SortDrawn(m: seq<Item>, xs: seq<Item>)
    requires Drawn(m, xs)
    ensures Drawn(Sort(m, NewestFirst), xs)
  {
    SortMembers(m, NewestFirst);
    forall i | 0 <= i < |Sort(m, NewestFirst)| ensures Sort(m, NewestFirst)[i] in xs {
      assert Sort(m, NewestFirst)[i] in m;
    }
  }

  lemma SortHas(m: seq<Item>, id: string)
    ensures Has(Sort(m, NewestFirst), id) <==> Has(m, id)
  {
    var s := Sort(m, NewestFirst);
    SortMembers(m, NewestFirst);
    if Has(m, id) { var i :| 0 <= i < |m| && m[i].id == id; assert m[i] in s; }
    if Has(s, id) { var i :| 0 <= i < |s| && s[i].id == id; assert s[i] in m; }
  }

  // Sorting a map first does not change what a delivery leads to.

  /** The items whose date is k once x has replaced its own. */
  function WillHave(x: Item, k: int): Item -> bool {
    (y: Item) => NewestFirst(Swap(y, x)) == k
  }

  lemma {:induction false} OfKeyReplaced(u: seq<Item>, x: Item, k: int)
    ensures OfKey(Replace(u, x), NewestFirst, k) == Replace(Filter(u, WillHave(x, k)), x)
  {
    if u != [] {
      var n := |u| - 1;
      var p := WillHave(x, k);
      OfKeyReplaced(u[..n], x, k);
      assert u == u[..n] + [u[n]];
      ReplaceSnoc(u[..n], u[n], x);
      ReplaceSnoc(Filter(u[..n], p), u[n], x);
      hide Replace, Filter;
      FilterSnoc(u[..n], u[n], p);
      FilterSnoc(Replace(u[..n], x), Swap(u[n], x), HasKey(NewestFirst, k));
    }
  }

  lemma {:induction false} ReplaceSnoc(u: seq<Item>, y: Item, x: Item)
    ensures Replace(u + [y], x) == Replace(u, x) + [Swap(y, x)]
  {
  }

  /** Items that will share a date share it already, unless there is only one. */
  lemma {:induction false} WillHaveSorted(m: seq<Item>, x: Item, k: int)
    requires UniqueIds(m) && Fits(m, x)
    ensures Sorted(Filter(m, WillHave(x, k)), NewestFirst)
  {
    var f := Filter(m, WillHave(x, k));
    FilterMembers(m, WillHave(x, k));
    forall i, j | 0 <= i < j < |f| ensures NewestFirst(f[i]) <= NewestFirst(f[j]) {
      assert f[i] in f && f[j] in f;
      var p :| 0 <= p < |m| && m[p] == f[i];
      var q :| 0 <= q < |m| && m[q] == f[j];
      assert !Disturbs(m[p], x, m[q]) && !Disturbs(m[q], x, m[p]);
      assert f[i].id == f[j].id ==> p == q;
    }
  }

  /** Putting x into the map and into its sorted list leads to the same sorted list. */
  lemma {:induction false} SortStep(m: seq<Item>, x: Item)
    requires UniqueIds(m) && Fits(m, x)
    ensures Sort(Put(m, x), NewestFirst) == Step(Sort(m, NewestFirst), x)
  {
    var s := Sort(m, NewestFirst);
    SortHas(m, x.id);
    SortSorted(m, NewestFirst);
    if !Has(m, x.id) {
      SortSnoc(m, x, NewestFirst);
      SortOfSorted(s, NewestFirst);
      SortSnoc(s, x, NewestFirst);
    } else {
      var t := Sort(Replace(s, x), NewestFirst);
      SortSorted(Replace(s, x), NewestFirst);
      forall k ensures OfKey(t, NewestFirst, k) == OfKey(Replace(m, x), NewestFirst, k) {
        SortStable(Replace(s, x), NewestFirst, k);
        OfKeyReplaced(s, x, k);
        OfKeyReplaced(m, x, k);
        FilterSort(m, NewestFirst, WillHave(x, k));
        WillHaveSorted(m, x, k);
        SortOfSorted(Filter(m, WillHave(x, k)), NewestFirst);
      }
      StableOrderIsUnique(Replace(m, x), t, NewestFirst);
    }
  }

  lemma {:induction false} SortedPuts(m: seq<Item>, base: seq<Item>, xs: seq<Item>)
    requires UniqueIds(m) && Drawn(m, base) && Undisturbed(base + xs)
    ensures Sort(PutAll(m, xs), NewestFirst) == StepAll(Sort(m, NewestFirst), xs)
  {
    if xs != [] {
      var front, last := xs[..|xs| - 1], xs[|xs| - 1];
      assert base + xs == base + front + [last];
      PutAllUnique(m, front);
      PutAllDrawn(m, base, front);
      FitsLast(PutAll(m, front), base + front, last);
      SortedPuts(m, base, front);
      SortStep(PutAll(m, front), last);
    }
  }

  // Truncated and full lists stay in step.

  lemma {:induction false} SortedSnoc(front: seq<Item>, last: Item)
    requires Sorted(front + [last], NewestFirst)
    ensures Sorted(front, NewestFirst) && Insert(front, last, NewestFirst) == front + [last]
  {
    var all := front + [last];
    assert all[|front|] == last && forall i :: 0 <= i < |front| ==> all[i] == front[i];
    InsertPastEnd(front, last, NewestFirst);
  }

  lemma {:induction false} SortTail(u: seq<Item>, t: seq<Item>)
    requires Sorted(Sort(u, NewestFirst) + t, NewestFirst)
    ensures Sort(u + t, NewestFirst) == Sort(u, NewestFirst) + t
  {
    if t == [] {
      assert u + t == u && Sort(u, NewestFirst) + t == Sort(u, NewestFirst);
    } else {
      var s, front, last := Sort(u, NewestFirst), t[..|t| - 1], t[|t| - 1];
      assert u + t == u + front + [last] && s + t == s + front + [last];
      SortedSnoc(s + front, last);
      hide Sorted;
      SortTail(u, front);
      SortSnoc(u + front, last, NewestFirst);
    }
  }

  lemma {:induction false} ReplaceAt(s: seq<Item>, i: nat, x: Item)
    requires UniqueIds(s) && i < |s| && s[i].id == x.id
    ensures Put(s, x) == s[i := x]
  {
    assert Has(s, x.id);
    assert forall j :: 0 <= j < |s| && j != i ==> s[j].id != x.id;
  }

  lemma {:induction false} StepFresh(s: seq<Item>, x: Item)
    requires Sorted(s, NewestFirst) && forall i :: 0 <= i < |s| ==> s[i].id != x.id
    ensures Step(s, x) == Insert(s, x, NewestFirst)
  {
    PutFresh(s, x);
    SortSnoc(s, x, NewestFirst);
    SortOfSorted(s, NewestFirst);
  }

  /** A forward move takes the item out of its place and inserts it among those ahead of it. */
  lemma {:induction false} StepForward(s: seq<Item>, i: nat, x: Item)
    requires Sorted(s, NewestFirst) && UniqueIds(s) && i < |s| && s[i].id == x.id && s[i].occurredAt <= x.occurredAt
    ensures Step(s, x) == Insert(s[..i], x, NewestFirst) + s[i + 1..]
    ensures |Insert(s[..i], x, NewestFirst)| == i + 1
  {
    var ahead, rest := s[..i], s[i + 1..];
    ReplaceAt(s, i, x);
    assert s[i := x] == ahead + [x] + rest;
    SortSnoc(ahead, x, NewestFirst);
    SortOfSorted(ahead, NewestFirst);
    InsertPermutes(ahead, x, NewestFirst);
    InsertAhead(s, i, x);
    hide Put, Sort, Insert, Sorted;
    SortTail(ahead + [x], rest);
  }

  lemma {:induction false} InsertAhead(s: seq<Item>, i: nat, x: Item)
    requires Sorted(s, NewestFirst) && i < |s| && s[i].occurredAt <= x.occurredAt
    ensures Sorted(Insert(s[..i], x, NewestFirst) + s[i + 1..], NewestFirst)
  {
    var ahead, rest := s[..i], s[i + 1..];
    var placed := Insert(ahead, x, NewestFirst);
    InsertPermutes(ahead, x, NewestFirst);
    InsertSorted(ahead, x, NewestFirst);
    hide Insert;
    forall a, b | 0 <= a < |placed| && 0 <= b < |rest| ensures NewestFirst(placed[a]) <= NewestFirst(rest[b]) {
      assert placed[a] in multiset(placed);
      assert placed[a] == x || placed[a] in ahead;
    }
    SortedConcat(placed, rest);
  }

  lemma {:induction false} SortedConcat(a: seq<Item>, b: seq<Item>)
    requires Sorted(a, NewestFirst) && Sorted(b, NewestFirst)
    requires forall i, j :: 0 <= i < |a| && 0 <= j < |b| ==> NewestFirst(a[i]) <= NewestFirst(b[j])
    ensures Sorted(a + b, NewestFirst)
  {
  }

  /** A backward move that disturbs nothing leaves the item in its place. */
  lemma {:induction false} StepBackward(s: seq<Item>, i: nat, x: Item)
    requires Sorted(s, NewestFirst) && UniqueIds(s) && Fits(s, x)
    requires i < |s| && s[i].id == x.id && s[i].occurredAt > x.occurredAt
    ensures Step(s, x) == s[i := x]
    ensures forall j :: 0 <= j < i ==> NewestFirst(s[j]) <= NewestFirst(x)
  {
    ReplaceAt(s, i, x);
    var t := s[i := x];
    forall j | 0 <= j < |s| && j != i ensures !(x.occurredAt <= s[j].occurredAt <= s[i].occurredAt) {
      assert !Disturbs(s[i], x, s[j]);
    }
    assert Sorted(t, NewestFirst);
    SortOfSorted(t, NewestFirst);
  }

  lemma {:induction false} StepTruncated(s: seq<Item>, x: Item, k: nat)
    requires Sorted(s, NewestFirst) && UniqueIds(s) && Fits(s, x)
    ensures Take(Step(Take(s, k), x), k) == Take(Step(s, x), k)
  {
    TakeMembers(s, k);
    if i :| 0 <= i < |s| && s[i].id == x.id {
      PresentTruncated(s, i, x, k);
    } else {
      StepFresh(s, x);
      StepFresh(Take(s, k), x);
      InsertTruncated(s, x, NewestFirst, k);
    }
  }

  lemma {:induction false} PresentTruncated(s: seq<Item>, i: nat, x: Item, k: nat)
    requires Sorted(s, NewestFirst) && UniqueIds(s) && Fits(s, x) && i < |s| && s[i].id == x.id
    ensures Take(Step(Take(s, k), x), k) == Take(Step(s, x), k)
  {
    hide Step;
    TakeMembers(s, k);
    if i < k && s[i].occurredAt <= x.occurredAt {
      ForwardKept(s, i, x, k);
    } else if i < k {
      StepBackward(s, i, x);
      StepBackward(Take(s, k), i, x);
    } else if s[i].occurredAt <= x.occurredAt {
      ForwardCut(s, i, x, k);
    } else {
      BackwardCut(s, i, x, k);
    }
  }

  lemma {:induction false} ForwardKept(s: seq<Item>, i: nat, x: Item, k: nat)
    requires Sorted(s, NewestFirst) && UniqueIds(s)
    requires i < k && i < |s| && s[i].id == x.id && s[i].occurredAt <= x.occurredAt
    ensures Take(Step(Take(s, k), x), k) == Take(Step(s, x), k)
  {
    var t := Take(s, k);
    TakeMembers(s, k);
    TakeAround(s, i, k);
    StepForward(s, i, x);
    StepForward(t, i, x);
    hide Step, Insert, Sorted, UniqueIds, Take;
    TakePlaced(Insert(s[..i], x, NewestFirst), s[i + 1..], k - i - 1);
  }

  lemma {:induction false} TakeAround(s: seq<Item>, i: nat, k: nat)
    requires i < k && i < |s|
    ensures i < |Take(s, k)| && Take(s, k)[..i] == s[..i] && Take(s, k)[i] == s[i]
    ensures Take(s, k)[i + 1..] == Take(s[i + 1..], k - i - 1)
  {
  }

  lemma {:induction false} TakePlaced(placed: seq<Item>, rest: seq<Item>, n: nat)
    ensures Take(placed + rest, |placed| + n) == placed + Take(rest, n)
    ensures Take(placed + Take(rest, n), |placed| + n) == placed + Take(rest, n)
  {
  }

  lemma {:induction false} ForwardCut(s: seq<Item>, i: nat, x: Item, k: nat)
    requires Sorted(s, NewestFirst) && UniqueIds(s)
    requires k <= i < |s| && s[i].id == x.id && s[i].occurredAt <= x.occurredAt
    ensures Take(Step(Take(s, k), x), k) == Take(Step(s, x), k)
  {
    var t := Take(s, k);
    TakeMembers(s, k);
    StepFresh(t, x);
    StepForward(s, i, x);
    assert Take(s[..i], k) == t;
    assert Sorted(s[..i], NewestFirst);
    hide Step, Insert, Sorted, UniqueIds, Take;
    InsertTruncated(s[..i], x, NewestFirst, k);
    TakeFront(Insert(s[..i], x, NewestFirst), s[i + 1..], k);
  }

  lemma {:induction false} BackwardCut(s: seq<Item>, i: nat, x: Item, k: nat)
    requires Sorted(s, NewestFirst) && UniqueIds(s) && Fits(s, x)
    requires k <= i < |s| && s[i].id == x.id && s[i].occurredAt > x.occurredAt
    ensures Take(Step(Take(s, k), x), k) == Take(Step(s, x), k)
  {
    var t := Take(s, k);
    TakeMembers(s, k);
    StepFresh(t, x);
    StepBackward(s, i, x);
    InsertPastEnd(t, x, NewestFirst);
    hide Step, Insert, Sorted, UniqueIds, Fits;
    TakeFront(t, [x], k);
  }

  lemma {:induction false} StepAllKeeps(s: seq<Item>, base: seq<Item>, xs: seq<Item>)
    requires Sorted(s, NewestFirst) && UniqueIds(s) && Drawn(s, base)
    ensures Sorted(StepAll(s, xs), NewestFirst) && UniqueIds(StepAll(s, xs)) && Drawn(StepAll(s, xs), base + xs)
  {
    if xs == [] {
      assert base + xs == base;
    } else {
      var front, last := xs[..|xs| - 1], xs[|xs| - 1];
      var t := StepAll(s, front);
      StepAllKeeps(s, base, front);
      PutKeepsUnique(t, last);
      PutDrawn(t, base + front, last);
      assert base + front + [last] == base + xs;
      SortSorted(Put(t, last), NewestFirst);
      SortUnique(Put(t, last));
      SortDrawn(Put(t, last), base + xs);
    }
  }

  lemma {:induction false} StepAllTruncated(s: seq<Item>, base: seq<Item>, xs: seq<Item>, k: nat)
    requires Sorted(s, NewestFirst) && UniqueIds(s) && Drawn(s, base) && Undisturbed(base + xs)
    ensures Take(StepAll(Take(s, k), xs), k) == Take(StepAll(s, xs), k)
  {
    if xs != [] {
      hide Step;
      var front, last := xs[..|xs| - 1], xs[|xs| - 1];
      var a, b := StepAll(Take(s, k), front), StepAll(s, front);
      assert base + xs == base + front + [last];
      TakeMembers(s, k);
      StepAllKeeps(s, base, front);
      StepAllKeeps(Take(s, k), base, front);
      FitsLast(a, base + front, last);
      FitsLast(b, base + front, last);
      StepAllTruncated(s, base, front, k);
      StepTruncated(a, last, k);
      StepTruncated(b, last, k);
    }
  }

  lemma {:induction false} CacheIsPrefix(calls: seq<Call>, k: int)
    requires Undisturbed(Received(calls))
    ensures Refines(calls, k)
  {
    if calls != [] {
      var front, last := calls[..|calls| - 1], calls[|calls| - 1];
      var before := if last.reset then [] else Received(front);
      assert Received(calls) == before + last.page;
      if !last.reset {
        UndisturbedFront(before, last.page);
        CacheIsPrefix(front, k);
      }
      MergeStep(if last.reset then [] else Cache(front, k), before, last.page, Max(0, k));
    }
  }

  lemma UndisturbedFront(a: seq<Item>, b: seq<Item>)
    requires Undisturbed(a + b)
    ensures Undisturbed(a)
  {
    assert forall i :: 0 <= i < |a| ==> (a + b)[i] == a[i];
  }

  lemma {:induction false} MergeStep(held: seq<Item>, before: seq<Item>, page: seq<Item>, n: nat)
    requires held == Take(Sort(PutAll([], before), NewestFirst), n) && Undisturbed(before + page)
    ensures Take(Sort(PutAll(PutAll([], held), page), NewestFirst), n)
         == Take(Sort(PutAll([], before + page), NewestFirst), n)
  {
    hide Sort, PutAll, StepAll, Take, Undisturbed, UniqueIds, Sorted, Drawn;
    var m := PutAll([], before);
    var s := Sort(m, NewestFirst);
    MapInOrder(before);
    TakeInOrder(s, before, n);
    PutUnique(held);
    SortedPuts(held, before, page);
    SortOfSorted(held, NewestFirst);
    StepAllTruncated(s, before, page, n);
    SortedPuts(m, before, page);
    PutAllAppend([], before, page);
  }

  /** The map of what was delivered and its sorted list. */
  lemma {:induction false} MapInOrder(before: seq<Item>)
    ensures var m := PutAll([], before);
            && UniqueIds(m) && Drawn(m, before)
            && InOrder(Sort(m, NewestFirst), before)
  {
    var m := PutAll([], before);
    PutAllUnique([], before);
    PutAllDrawn([], [], before);
    assert [] + before == before;
    SortSorted(m, NewestFirst);
    SortUnique(m);
    SortDrawn(m, before);
  }

  /** Sorted, with distinct ids, and made of what was delivered. */
  predicate InOrder(s: seq<Item>, xs: seq<Item>) {
    Sorted(s, NewestFirst) && UniqueIds(s) && Drawn(s, xs)
  }

  lemma {:induction false} TakeInOrder(s: seq<Item>, xs: seq<Item>, k: nat)
    requires InOrder(s, xs)
    ensures InOrder(Take(s, k), xs)
  {
    TakeMembers(s, k);
  }
}
