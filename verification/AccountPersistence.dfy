/**
 The latest-attempt gate (apps/app/common/latest-attempt.ts) and the helper that saves a
 freshly registered account (apps/app/common/guarded-account-persistence.ts), interleaved
 with every other account action. Storage writes are serialized in the order they are
 issued, as apps/app/universal/stores/connection.ts does, and any of them may fail.
 */
module AccountPersistence {
  import opened Options
  import opened StableSort

  // ----- The gate

  datatype Lease<T> = Lease(token: nat, target: T)

  datatype Gate<T> = Gate(latest: nat, target: Option<T>)

  datatype GateOp<T> = Begin(next: T) | Invalidate

  function Apply<T>(g: Gate<T>, op: GateOp<T>): Gate<T> {
    match op
    case Begin(next) => Gate(g.latest + 1, Some(next))
    case Invalidate => Gate(g.latest + 1, None)
  }

  predicate Current<T>(g: Gate<T>, lease: Lease<T>) {
    lease.token == g.latest
  }

  class LatestAttemptGate<T> {
    var latestToken: nat
    var target: Option<T>

    function State(): Gate<T>
      reads this
    {
      Gate(latestToken, target)
    }

    constructor ()
      ensures State() == Gate(0, None)
    {
      latestToken, target := 0, None;
    }

    method BeginAttempt(next: T) returns (lease: Lease<T>)
      modifies this
      ensures State() == Apply(old(State()), Begin(next))
      ensures lease.target == next && IsCurrent(lease)
    {
      latestToken := latestToken + 1;
      target := Some(next);
      lease := Lease(latestToken, next);
    }

    method InvalidateAttempts()
      modifies this
      ensures State() == Apply(old(State()), Invalidate)
    {
      latestToken := latestToken + 1;
      target := None;
    }

    predicate IsCurrent(lease: Lease<T>)
      reads this
    {
      Current(State(), lease)
    }
  }

  function ApplyAll<T>(g: Gate<T>, ops: seq<GateOp<T>>): Gate<T> {
    if ops == [] then g else Apply(ApplyAll(g, ops[..|ops| - 1]), ops[|ops| - 1])
  }

  /** The leases handed out over a run of the gate. */
  function Leases<T>(g: Gate<T>, ops: seq<GateOp<T>>): seq<Lease<T>> {
    if ops == [] then []
    else
      var last, after := ops[|ops| - 1], ApplyAll(g, ops);
      Leases(g, ops[..|ops| - 1]) + if last.Begin? then [Lease(after.latest, last.next)] else []
  }

  /** A lease that is not the latest never becomes the latest again. */
  lemma {:induction false} StalenessIsPermanent<T>(g: Gate<T>, ops: seq<GateOp<T>>, token: nat)
    requires token < g.latest
    ensures token < ApplyAll(g, ops).latest
  {
    if ops != [] { StalenessIsPermanent(g, ops[..|ops| - 1], token); }
  }

  /** At most one lease is current, it is the last one issued, and the gate's target is its target. */
  lemma {:induction false} AtMostOneCurrent<T>(g: Gate<T>, ops: seq<GateOp<T>>, i: nat)
    requires i < |Leases(g, ops)|
    ensures Leases(g, ops)[i].token <= ApplyAll(g, ops).latest
    ensures Current(ApplyAll(g, ops), Leases(g, ops)[i]) ==>
              i == |Leases(g, ops)| - 1 && ApplyAll(g, ops).target == Some(Leases(g, ops)[i].target)
  {
    var front := ops[..|ops| - 1];
    if i < |Leases(g, front)| { AtMostOneCurrent(g, front, i); }
  }

  // ----- The helper among other actions

  datatype Account = Account(id: string, details: string)

  type Accounts = seq<Account>

  /** One storage write; `own` marks the helper's. */
  datatype Write = Write(payload: Accounts, own: bool)

  /** Where the helper stands. `Failed(landed)` tells whether its first write had landed. */
  datatype Phase = Idle | FirstWrite | Landed | SecondWrite | Settled | Done(current: bool) | Failed(landed: bool)

  /** `gate` issues the attempts of this window, one of which is the helper's `lease`. */
  datatype World = World(memory: Accounts, durable: Accounts, queue: seq<Write>,
                         gate: Gate<string>, lease: Lease<string>, phase: Phase)

  /**
   `Act` is any other account action: it replaces the list in memory, may begin or
   invalidate an attempt at the gate and may issue a write of its own. `Land` and `Fail`
   finish the oldest write.
   */
  datatype Event =
    | Start
    | Act(memory: Accounts, attempt: Option<GateOp<string>>, persists: bool)
    | Land
    | Fail
    | Check
    | Finish

  function OtherThan(id: string): Account -> bool {
    (account: Account) => account.id != id
  }

  function Named(id: string): Account -> bool {
    (account: Account) => account.id == id
  }

  function Without(accounts: Accounts, id: string): Accounts {
    Filter(accounts, OtherThan(id))
  }

  function With(accounts: Accounts, account: Account): Accounts {
    Without(accounts, account.id) + [account]
  }

  /** The world after an event; `None` when the event cannot happen. */
  function Step(w: World, e: Event, account: Account): Option<World> {
    match e
    case Start =>
      if w.phase != Idle then None
      else
        var accounts := With(w.memory, account);
        Some(w.(memory := accounts, queue := w.queue + [Write(accounts, true)], phase := FirstWrite))
    case Act(memory, attempt, persists) =>
      Some(w.(memory := memory,
              gate := if attempt.Some? then Apply(w.gate, attempt.value) else w.gate,
              queue := if persists then w.queue + [Write(memory, false)] else w.queue))
    case Land =>
      if w.queue == [] then None
      else Some(w.(durable := w.queue[0].payload, queue := w.queue[1..],
                   phase := if !w.queue[0].own then w.phase
                            else if w.phase == FirstWrite then Landed else Settled))
    case Fail =>
      if w.queue == [] then None
      else Some(w.(queue := w.queue[1..],
                   phase := if !w.queue[0].own then w.phase else Failed(w.phase != FirstWrite)))
    case Check =>
      if w.phase != Landed then None
      else if Current(w.gate, w.lease) then Some(w.(phase := Done(true)))
      else Some(w.(queue := w.queue + [Write(w.memory, true)], phase := SecondWrite))
    case Finish =>
      if w.phase != Settled then None else Some(w.(phase := Done(false)))
  }

  function Run(w: World, events: seq<Event>, account: Account): Option<World> {
    if events == [] then Some(w)
    else
      var before := Run(w, events[..|events| - 1], account);
      if before.None? then None else Step(before.value, events[|events| - 1], account)
  }

  /** Every action's list satisfies q. */
  ghost predicate ActionsKeep(events: seq<Event>, q: Accounts -> bool) {
    forall i :: 0 <= i < |events| && events[i].Act? ==> q(events[i].memory)
  }

  predicate NoOwnWrites(w: World) {
    forall i :: 0 <= i < |w.queue| ==> !w.queue[i].own
  }

  // ----- What the helper's writes carry

  /** The helper's one outstanding write and everything issued after it satisfies q. */
  ghost predicate Pending(w: World, q: Accounts -> bool) {
    && q(w.memory)
    && exists p :: OwnAt(w.queue, p) && forall i :: p <= i < |w.queue| ==> q(w.queue[i].payload)
  }

  ghost predicate OwnAt(queue: seq<Write>, p: int) {
    0 <= p < |queue| && forall i :: 0 <= i < |queue| ==> (queue[i].own <==> i == p)
  }

  /** The helper's write has landed: storage and everything issued since satisfies q. */
  ghost predicate Secured(w: World, q: Accounts -> bool) {
    q(w.memory) && q(w.durable) && forall i :: 0 <= i < |w.queue| ==> q(w.queue[i].payload)
  }

  ghost predicate FirstInvariant(w: World, q: Accounts -> bool) {
    match w.phase
    case Idle => false
    case FirstWrite => Pending(w, q)
    case Failed(landed) => (landed ==> Secured(w, q)) && NoOwnWrites(w)
    case SecondWrite => Secured(w, q) && exists p :: OwnAt(w.queue, p)
    case _ => Secured(w, q) && NoOwnWrites(w)
  }

  ghost predicate SecondInvariant(w: World, q: Accounts -> bool) {
    match w.phase
    case SecondWrite => Pending(w, q)
    case Settled => Secured(w, q) && NoOwnWrites(w)
    case Done(current) => !current && Secured(w, q) && NoOwnWrites(w)
    case Failed(_) => NoOwnWrites(w)
    case _ => false
  }

  /** Finishing the oldest write leaves the helper's write one place further ahead. */
  lemma PopPending(w: World, w': World, q: Accounts -> bool)
    requires Pending(w, q) && w.queue != [] && w'.queue == w.queue[1..] && w'.memory == w.memory
    ensures !w.queue[0].own ==> Pending(w', q)
    ensures w.queue[0].own ==> q(w.queue[0].payload) && NoOwnWrites(w')
    ensures w.queue[0].own ==> forall i :: 0 <= i < |w'.queue| ==> q(w'.queue[i].payload)
  {
    var p :| OwnAt(w.queue, p) && forall i :: p <= i < |w.queue| ==> q(w.queue[i].payload);
    if !w.queue[0].own {
      assert OwnAt(w'.queue, p - 1);
    }
  }

  lemma PushPending(w: World, w': World, q: Accounts -> bool, memory: Accounts)
    requires Pending(w, q) && q(memory) && w'.memory == memory
    requires w'.queue == w.queue || w'.queue == w.queue + [Write(memory, false)]
    ensures Pending(w', q)
  {
    var p :| OwnAt(w.queue, p) && forall i :: p <= i < |w.queue| ==> q(w.queue[i].payload);
    assert OwnAt(w'.queue, p);
  }

  lemma PushOwn(queue: seq<Write>, payload: Accounts)
    requires forall i :: 0 <= i < |queue| ==> !queue[i].own
    ensures OwnAt(queue + [Write(payload, true)], |queue|)
  {
  }

  lemma PopOwn(queue: seq<Write>, p: int)
    requires OwnAt(queue, p)
    ensures queue[0].own ==> forall i :: 0 <= i < |queue[1..]| ==> !queue[1..][i].own
    ensures !queue[0].own ==> OwnAt(queue[1..], p - 1)
  {
  }

  lemma FirstStep(w: World, e: Event, account: Account, q: Accounts -> bool)
    requires FirstInvariant(w, q) && Step(w, e, account).Some?
    requires e.Act? ==> q(e.memory)
    ensures FirstInvariant(Step(w, e, account).value, q)
  {
    var w' := Step(w, e, account).value;
    match e
    case Act(memory, _, persists) =>
      if w.phase == FirstWrite { PushPending(w, w', q, memory); }
      else if w.phase == SecondWrite { var p :| OwnAt(w.queue, p); assert OwnAt(w'.queue, p); }
    case Land =>
      if w.phase == FirstWrite { PopPending(w, w', q); }
      else if w.phase == SecondWrite { var p :| OwnAt(w.queue, p); PopOwn(w.queue, p); }
    case Fail =>
      if w.phase == FirstWrite { PopPending(w, w', q); }
      else if w.phase == SecondWrite { var p :| OwnAt(w.queue, p); PopOwn(w.queue, p); }
    case Check =>
      if !Current(w.gate, w.lease) { PushOwn(w.queue, w.memory); }
    case _ =>
  }

  lemma SecondStep(w: World, e: Event, account: Account, q: Accounts -> bool)
    requires SecondInvariant(w, q) && Step(w, e, account).Some?
    requires e.Act? ==> q(e.memory)
    ensures SecondInvariant(Step(w, e, account).value, q)
  {
    var w' := Step(w, e, account).value;
    match e
    case Act(memory, _, persists) => if w.phase == SecondWrite { PushPending(w, w', q, memory); }
    case Land => if w.phase == SecondWrite { PopPending(w, w', q); }
    case Fail => if w.phase == SecondWrite { PopPending(w, w', q); }
    case _ =>
  }

  lemma {:induction false} FirstRun(w: World, events: seq<Event>, account: Account, q: Accounts -> bool)
    requires FirstInvariant(w, q) && Run(w, events, account).Some? && ActionsKeep(events, q)
    ensures FirstInvariant(Run(w, events, account).value, q)
  {
    if events != [] {
      var front := events[..|events| - 1];
      FirstRun(w, front, account, q);
      FirstStep(Run(w, front, account).value, events[|events| - 1], account, q);
    }
  }

  lemma {:induction false} SecondRun(w: World, events: seq<Event>, account: Account, q: Accounts -> bool)
    requires SecondInvariant(w, q) && Run(w, events, account).Some? && ActionsKeep(events, q)
    ensures SecondInvariant(Run(w, events, account).value, q)
  {
    if events != [] {
      var front := events[..|events| - 1];
      SecondRun(w, front, account, q);
      SecondStep(Run(w, front, account).value, events[|events| - 1], account, q);
    }
  }

  // ----- Theorems

  predicate Has(accounts: Accounts, id: string) {
    exists i :: 0 <= i < |accounts| && accounts[i].id == id
  }

  function Holds(id: string): Accounts -> bool {
    accounts => Has(accounts, id)
  }

  /** The helper's first write has reached storage. */
  predicate FirstLanded(phase: Phase) {
    phase in {Landed, SecondWrite, Settled} || phase.Done? || phase == Failed(true)
  }

  /**
   Over every interleaving: once the first write has landed, the registered account is in
   storage at every later moment, unless some action removes it from memory.
   */
  lemma RegisteredAccountStaysDurable(idle: World, events: seq<Event>, account: Account)
    requires idle.phase == Idle && NoOwnWrites(idle)
    requires ActionsKeep(events, Holds(account.id))
    requires Run(Step(idle, Start, account).value, events, account).Some?
    ensures var w := Run(Step(idle, Start, account).value, events, account).value;
            FirstLanded(w.phase) ==> Has(w.durable, account.id) && Has(w.memory, account.id)
  {
    var started := Step(idle, Start, account).value;
    var accounts := With(idle.memory, account);
    assert accounts[|accounts| - 1] == account;
    PushOwn(idle.queue, accounts);
    assert Pending(started, Holds(account.id));
    FirstRun(started, events, account, Holds(account.id));
  }

  /**
   When the helper finds itself superseded, whatever holds of the list in memory at that
   moment, and of every list put there afterwards, holds of storage when it returns false.
   */
  lemma SupersedingChangeIsDurable(idle: World, before: seq<Event>, after: seq<Event>, account: Account,
                                   q: Accounts -> bool)
    requires idle.phase == Idle && NoOwnWrites(idle)
    requires Run(Step(idle, Start, account).value, before, account).Some?
    requires var checked := Run(Step(idle, Start, account).value, before, account).value;
             && checked.phase == Landed && !Current(checked.gate, checked.lease) && q(checked.memory)
             && Run(Step(checked, Check, account).value, after, account).Some?
    requires ActionsKeep(after, q)
    ensures var checked := Run(Step(idle, Start, account).value, before, account).value;
            var w := Run(Step(checked, Check, account).value, after, account).value;
            w.phase.Done? ==> w.phase == Done(false) && q(w.durable) && q(w.memory)
  {
    var checked := Run(Step(idle, Start, account).value, before, account).value;
    OwnWritesAccounted(idle, before, account);
    var second := Step(checked, Check, account).value;
    PushOwn(checked.queue, checked.memory);
    assert Pending(second, q);
    SecondRun(second, after, account, q);
  }

  /** By the time of the check the helper has no write outstanding. */
  lemma OwnWritesAccounted(idle: World, events: seq<Event>, account: Account)
    requires idle.phase == Idle && NoOwnWrites(idle)
    requires Run(Step(idle, Start, account).value, events, account).Some?
    ensures var w := Run(Step(idle, Start, account).value, events, account).value;
            w.phase == Landed ==> NoOwnWrites(w)
  {
    PushOwn(idle.queue, With(idle.memory, account));
    assert Pending(Step(idle, Start, account).value, Anything);
    FirstRun(Step(idle, Start, account).value, events, account, Anything);
  }

  predicate Anything(accounts: Accounts) { true }

  /** What the actions do to the gate, in order. */
  function Attempts(events: seq<Event>): seq<GateOp<string>> {
    if events == [] then []
    else
      var last := events[|events| - 1];
      Attempts(events[..|events| - 1]) + if last.Act? && last.attempt.Some? then [last.attempt.value] else []
  }

  /** The gate of the world runs through exactly these operations. */
  lemma {:induction false} GateFollows(w: World, events: seq<Event>, account: Account)
    requires Run(w, events, account).Some?
    ensures Run(w, events, account).value.gate == ApplyAll(w.gate, Attempts(events))
    ensures Run(w, events, account).value.lease == w.lease
  {
    if events != [] {
      var n := |events| - 1;
      GateFollows(w, events[..n], account);
      var ops := Attempts(events[..n]);
      if events[n].Act? && events[n].attempt.Some? {
        assert (ops + [events[n].attempt.value])[..|ops|] == ops;
      } else {
        assert ops + [] == ops;
      }
    }
  }

  /** The helper returns true exactly when no action used the gate before its check. */
  lemma ReturnsTrueIff(begun: World, events: seq<Event>, account: Account)
    requires Current(begun.gate, begun.lease)
    requires Run(begun, events, account).Some? && Run(begun, events, account).value.phase == Landed
    ensures Step(Run(begun, events, account).value, Check, account).value.phase == Done(true)
       <==> Attempts(events) == []
  {
    GateFollows(begun, events, account);
    var ops := Attempts(events);
    if ops != [] {
      assert ops[..1] + ops[1..] == ops;
      ApplyAllAppend(begun.gate, ops[..1], ops[1..]);
      StalenessIsPermanent(ApplyAll(begun.gate, ops[..1]), ops[1..], begun.lease.token);
    }
  }

  lemma {:induction false} ApplyAllAppend<T>(g: Gate<T>, first: seq<GateOp<T>>, second: seq<GateOp<T>>)
    ensures ApplyAll(g, first + second) == ApplyAll(ApplyAll(g, first), second)
  {
    if second == [] {
      assert first + second == first;
    } else {
      var n := |second| - 1;
      ApplyAllAppend(g, first, second[..n]);
      assert (first + second)[..|first| + n] == first + second[..n];
    }
  }

  /** The new list ends with the account, has it once, and keeps all others in their order. */
  lemma WithReplaces(accounts: Accounts, account: Account)
    ensures Filter(With(accounts, account), OtherThan(account.id)) == Filter(accounts, OtherThan(account.id))
    ensures Filter(With(accounts, account), Named(account.id)) == [account]
    ensures With(accounts, account)[|With(accounts, account)| - 1] == account
  {
    var others, p, q := Without(accounts, account.id), OtherThan(account.id), Named(account.id);
    FilterHolds(accounts, p);
    FilterAll(others, p);
    FilterNone(others, q);
    FilterSnoc(others, account, p);
    FilterSnoc(others, account, q);
  }

  /**
   Starting commits and queues one list: the account once, at the end, and all others as
   they were, in order. Storage, gate and lease stay.
   */
  lemma StartCommits(idle: World, account: Account)
    requires idle.phase == Idle
    ensures Step(idle, Start, account).Some?
    ensures var w := Step(idle, Start, account).value;
            && Filter(w.memory, OtherThan(account.id)) == Filter(idle.memory, OtherThan(account.id))
            && Filter(w.memory, Named(account.id)) == [account]
            && w.memory != [] && w.memory[|w.memory| - 1] == account
            && w.queue == idle.queue + [Write(w.memory, true)]
            && w.durable == idle.durable && w.gate == idle.gate && w.lease == idle.lease && w.phase == FirstWrite
  {
    WithReplaces(idle.memory, account);
  }

  function Contains(other: Account): Accounts -> bool {
    (accounts: Accounts) => other in accounts
  }

  /** Whatever holds of the committed list and of every later one holds of storage from the first write on. */
  lemma FirstWriteKeeps(idle: World, events: seq<Event>, account: Account, q: Accounts -> bool)
    requires idle.phase == Idle && NoOwnWrites(idle)
    requires q(Step(idle, Start, account).value.memory) && ActionsKeep(events, q)
    requires Run(Step(idle, Start, account).value, events, account).Some?
    ensures var w := Run(Step(idle, Start, account).value, events, account).value;
            FirstLanded(w.phase) ==> q(w.durable) && q(w.memory)
  {
    var started := Step(idle, Start, account).value;
    PushOwn(idle.queue, started.memory);
    assert Pending(started, q);
    FirstRun(started, events, account, q);
  }

  /**
   Over every interleaving: each other account that was in memory at the start is, exactly
   as it was, in storage from the first landed write on, unless some action removes it.
   */
  lemma OtherAccountsStayDurable(idle: World, events: seq<Event>, account: Account, other: Account)
    requires idle.phase == Idle && NoOwnWrites(idle)
    requires other in idle.memory && other.id != account.id && ActionsKeep(events, Contains(other))
    requires Run(Step(idle, Start, account).value, events, account).Some?
    ensures var w := Run(Step(idle, Start, account).value, events, account).value;
            FirstLanded(w.phase) ==> other in w.durable && other in w.memory
  {
    var started := Step(idle, Start, account).value;
    StartCommits(idle, account);
    FilterMembers(started.memory, OtherThan(account.id));
    FilterMembers(idle.memory, OtherThan(account.id));
    assert other in Filter(idle.memory, OtherThan(account.id));
    assert other in started.memory;
    FirstWriteKeeps(idle, events, account, Contains(other));
  }
}
