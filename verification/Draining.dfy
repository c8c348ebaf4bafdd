/**
 What lets the workers make progress: every appended event fits the table when limits are
 32-bit, and then fault-free rounds empty the stream in a number of rounds known exactly.
 */
module Draining {
  import opened Arithmetic
  import opened Limits
  import opened Events
  import opened Pipeline
  import opened Service
  import Billing
  import History
  import Bucket = RedisBucket

  // ---- Every appended event can be stored ----

  /** An approval reports between zero and the limit remaining. */
  lemma {:induction false} RemainingInRange(p: Policy, stored: Option<Bucket.Bucket>, now: int, cost: int, room: bool)
    requires ValidPolicy(p) && Bucket.WellFormed(Bucket.ScriptPolicy(p), stored)
    requires Allowed(Bucket.Step(p, stored, now, cost, room).1)
    ensures 0 <= Bucket.Step(p, stored, now, cost, room).1.decision.remaining <= p.limit
    ensures 0 < cost <= p.limit
  {
    var sp := Bucket.ScriptPolicy(p);
    Bucket.ScriptPolicyValid(p);
    Bucket.RefillInRange(sp, stored, now);
    var left := Bucket.Refill(sp, stored, now) - cost * sp.window;
    MulMonotone(0, cost, sp.window);
    FloorDivGreatest(left, sp.window, 0);
    FloorDivGreatest(left, sp.window, sp.limit + 1);
    History.DistributeCost(sp.limit, 1, sp.window);
  }

  predicate Int32Limits(c: Config) {
    forall k <- c.policies :: c.policies[k].limit <= MAX_INT32
  }

  lemma {:induction false} ApprovalStorable(c: Config, acts: seq<Action>, key: Key, cost: int)
    requires ValidConfig(c) && Int32Limits(c) && key in c.policies
    requires var s := Run(c, acts); s.clock <= MAX_INT64 && Allowed(Answer(c, s, key, cost))
    ensures var s := Run(c, acts); Storable(ApprovalOf(s, key, cost, Answer(c, s, key, cost).decision))
  {
    var s, p := Run(c, acts), c.policies[key];
    Billing.RunMirrors(c, acts, key);
    Bucket.RunInvariant(p, Billing.Project(c, acts, key), s.clock);
    RunKeepsInv(c, acts);
    RemainingInRange(p, Stored(c, s, key), s.clock, cost, Room(c, s));
  }

  /**
   With 32-bit limits, every event ever appended is one the decoder accepts, so no batch of
   script-made events fails at parsing.
   */
  lemma {:induction false} AppendedEventsStorable(c: Config, acts: seq<Action>, id: nat)
    requires ValidConfig(c) && Int32Limits(c) && Run(c, acts).clock <= MAX_INT64
    requires id < |Run(c, acts).history|
    ensures Storable(Run(c, acts).history[id].event)
  {
    if acts != [] {
      var n := |acts| - 1;
      var s, a := Run(c, acts[..n]), acts[n];
      if id < |s.history| {
        AppendedEventsStorable(c, acts[..n], id);
      } else {
        ApprovalStorable(c, acts[..n], a.key, a.cost);
      }
    }
  }

  /**
   The bound on limits is exact: a policy the validator accepts with a larger limit grants
   a full-limit request on a fresh key, its event does not decode, and every batch that
   holds it leaves the stores untouched, whatever else happens.
   */
  lemma {:induction false} OversizedLimitBlocks(
    p: Policy, key: Key, now: int, s: Store, batch: seq<XMessage>, i: nat, f: PersistFaults)
    requires ValidPolicy(p) && p.limit > MAX_INT32 && i < |batch|
    requires var o := Bucket.Step(p, None, now, p.limit, true).1;
             o.Decided? && batch[i].values == Encode(Event(key.clientID, key.resource, p.limit, now, o.decision.remaining))
    ensures Allowed(Bucket.Step(p, None, now, p.limit, true).1)
    ensures DecodeAll(batch).Bad? && Persist(s, batch, f).store == s
  {
    var o := Bucket.Step(p, None, now, p.limit, true).1;
    CodecRoundTrip(batch[i].id, Event(key.clientID, key.resource, p.limit, now, o.decision.remaining));
    OneBadMessage(batch, i);
  }

  /** An event the decoder rejects takes up the backlog for ever, whatever the workers do. */
  lemma {:induction false} UnstorableStays(c: Config, acts: seq<Action>, id: nat)
    requires ValidConfig(c)
    requires id < |Run(c, acts).history| && !Storable(Run(c, acts).history[id].event)
    ensures id in Run(c, acts).store.stream && id !in Run(c, acts).store.table
  {
    var s := Run(c, acts);
    RunKeepsInv(c, acts);
    assert id in s.store.table ==> RowExact(s.history, id, s.store.table[id]);
  }

  /** After this run, every event appended so far can be stored. */
  predicate AllStorable(c: Config, acts: seq<Action>)
    requires ValidConfig(c)
  {
    forall e <- Run(c, acts).history :: Storable(e.event)
  }

  /** Whatever happens while the clock fits 64 bits, no appended event is rejected. */
  ghost predicate NeverPoisoned(c: Config)
    requires ValidConfig(c)
  {
    forall acts :: Run(c, acts).clock <= MAX_INT64 ==> AllStorable(c, acts)
  }

  /** One full-limit check on an idle service appends an event that cannot be stored. */
  lemma {:induction false} OversizedLimitPoisons(c: Config, key: Key)
    requires ValidConfig(c) && key in c.policies && c.policies[key].limit > MAX_INT32
    ensures var acts := [Check(key, c.policies[key].limit)];
            Run(c, acts).clock == 0 && !AllStorable(c, acts)
  {
    var p := c.policies[key];
    var check := Check(key, p.limit);
    assert [check][..0] == [];
    assert Run(c, []) == START;
    assert Run(c, [check]) == ApplyCheck(c, START, key, p.limit);
    assert Allowed(Answer(c, START, key, p.limit));
    assert Run(c, [check]).history[0].event.cost == p.limit;
  }

  /** The 32-bit bound is exact: a configuration is safe from rejected events iff it keeps it. */
  lemma {:induction false} NeverPoisonedIffInt32(c: Config)
    requires ValidConfig(c)
    ensures NeverPoisoned(c) <==> forall k <- c.policies :: c.policies[k].limit <= 2147483647
  {
    hide Run;
    if Int32Limits(c) {
      forall acts | Run(c, acts).clock <= MAX_INT64 ensures AllStorable(c, acts) {
        var history := Run(c, acts).history;
        forall e | e in history ensures Storable(e.event) {
          var id :| 0 <= id < |history| && history[id] == e;
          AppendedEventsStorable(c, acts, id);
        }
      }
    } else {
      var key :| key in c.policies && c.policies[key].limit > MAX_INT32;
      OversizedLimitPoisons(c, key);
    }
  }

  lemma {:induction false} OneBadMessage(batch: seq<XMessage>, i: nat)
    requires i < |batch| && ApprovalRequest(batch[i].id, batch[i].values).Bad?
    ensures DecodeAll(batch).Bad?
  {
    if DecodeAll(batch[..i]).Ok? {
      DecodeNext(batch, i);
      DecodePrefixBad(batch, i + 1);
    } else {
      DecodePrefixBad(batch, i);
    }
  }

  // ---- Fault-free rounds ----

  predicate Decodable(s: Store, id: nat)
    requires id in s.stream
  {
    ApprovalRequest(id, s.stream[id]).Ok?
  }

  /** A store as the service keeps it, with nothing in it that fails to parse. */
  predicate Tidy(s: Store) {
    && s.grouped
    && GroupSplit(s)
    && forall id <- s.stream :: Decodable(s, id)
  }

  lemma {:induction false} BatchDecodes(s: Store, batch: seq<XMessage>)
    requires forall id <- s.stream :: Decodable(s, id)
    requires forall i :: 0 <= i < |batch| ==> batch[i].id in s.stream && batch[i].values == s.stream[batch[i].id]
    ensures DecodeAll(batch).Ok?
  {
    if batch != [] {
      var n := |batch| - 1;
      BatchDecodes(s, batch[..n]);
      assert Decodable(s, batch[n].id);
      assert batch[..n + 1] == batch;
      DecodeNext(batch, n);
    }
  }

  lemma {:induction false} MessageIds(s: Store, ids: seq<nat>)
    requires forall x <- ids :: x in s.stream
    ensures Ids(Messages(s, ids)) == Range(ids)
  {
    var batch := Messages(s, ids);
    forall x | x in Range(ids) ensures x in Ids(batch) {
      var i :| 0 <= i < |ids| && ids[i] == x;
      assert batch[i] in batch;
    }
  }

  lemma {:induction false} HeldIsMessages(s: Store, ids: seq<nat>)
    requires forall x <- ids :: x in s.stream && x in s.pending
    ensures Held(s, ids) == Messages(s, ids)
  {
    if ids != [] {
      var n := |ids| - 1;
      assert ids[n] in ids;
      forall x | x in ids[..n] ensures x in s.stream && x in s.pending {
        assert x in ids;
      }
      HeldIsMessages(s, ids[..n]);
    }
  }

  /** A fault-free call persists its whole batch and removes exactly it. */
  lemma {:induction false} PersistRemoves(s: Store, ids: seq<nat>)
    requires forall x <- ids :: x in s.stream
    requires forall id <- s.stream :: Decodable(s, id)
    ensures var r := Persist(s, Messages(s, ids), NO_FAULTS);
            && r.error.None? && r.count == |ids|
            && r.store.stream == s.stream - Range(ids) && r.store.pending == s.pending - Range(ids)
            && r.store.cursor == s.cursor && r.store.grouped == s.grouped
            && Stores(s, r.store, Range(ids))
  {
    var batch := Messages(s, ids);
    BatchDecodes(s, batch);
    MessageIds(s, ids);
    StoresBatch(s, batch);
    hide DecodeAll, Ids, Stores, Decodable, InsertAll;
    if batch == [] {
      assert Range(ids) == {} && s.stream - {} == s.stream;
      StoresNothing(s);
    } else {
      PersistIsAtomic(s, batch, NO_FAULTS);
      SameTable(s, Commit(s, DecodeAll(batch).value), Persist(s, batch, NO_FAULTS).store, Range(ids));
    }
  }

  /** The table has gained exactly the rows of these live entries. */
  predicate Stores(s: Store, t: Store, ids: set<nat>) {
    && t.table.Keys == s.table.Keys + ids
    && (forall id <- s.table :: t.table[id] == s.table[id])
    && (forall id <- ids :: id in s.stream && (id !in s.table ==> RowStored(s, t, id)))
  }

  predicate RowStored(s: Store, t: Store, id: nat)
    requires id in s.stream && id in t.table
  {
    ApprovalRequest(id, s.stream[id]) == Ok(t.table[id])
  }

  lemma StoresNothing(s: Store)
    ensures Stores(s, s, {})
  {
  }

  lemma SameTable(s: Store, t: Store, u: Store, ids: set<nat>)
    requires Stores(s, t, ids) && u.table == t.table
    ensures Stores(s, u, ids)
  {
    forall id | id in ids && id !in s.table ensures id in s.stream && RowStored(s, u, id) {
      assert RowStored(s, t, id);
    }
  }

  lemma StoresAlike(s: Store, delivered: Store, t: Store, ids: set<nat>)
    requires s.stream == delivered.stream && s.table == delivered.table && Stores(delivered, t, ids)
    ensures Stores(s, t, ids)
  {
    forall id | id in ids ensures id in s.stream && (id !in s.table ==> RowStored(s, t, id)) {
      assert id !in delivered.table ==> RowStored(delivered, t, id);
    }
  }

  lemma {:induction false} StoresBatch(s: Store, batch: seq<XMessage>)
    requires DecodeAll(batch).Ok?
    requires forall i :: 0 <= i < |batch| ==> batch[i].id in s.stream && batch[i].values == s.stream[batch[i].id]
    ensures Stores(s, Commit(s, DecodeAll(batch).value), Ids(batch))
  {
    hide DecodeAll, ApprovalRequest;
    var rows, t := DecodeAll(batch).value, Commit(s, DecodeAll(batch).value);
    DecodeAllExact(batch);
    forall i | 0 <= i < |batch| ensures rows[i].streamID == batch[i].id {
      Billing.RowKeepsID(batch[i]);
    }
    InsertAllFacts(s.table, rows);
    SameIds(batch, rows);
    forall id | id in Ids(batch) && id !in s.table ensures id in s.stream && RowStored(s, t, id) {
      var i :| 0 <= i < |rows| && rows[i] == t.table[id];
      assert ApprovalRequest(batch[i].id, batch[i].values) == Ok(rows[i]);
    }
  }

  lemma {:induction false} SelectedSize(ids: set<nat>, count: nat)
    ensures var r := Smallest(ids, count);
            && Range(r) <= ids && |r| == Min(count, |ids|) && |ids - Range(r)| == |ids| - |r|
  {
    SmallestInOrder(ids, count);
    IncreasingSize(Smallest(ids, count));
    assert Range(Smallest(ids, count)) <= ids;
  }

  lemma UndeliveredIs(s: Store)
    requires GroupSplit(s)
    ensures Undelivered(s) == s.stream.Keys - s.pending
  {
  }

  /** What a round did: `gone`, the first entries of `pool`, left the stream and are in the table. */
  predicate Took(s: Store, r: Progress, pool: set<nat>, gone: set<nat>, count: nat) {
    && r.error.None? && r.count == Min(count, |pool|)
    && gone <= pool && |pool - gone| == |pool| - r.count
    && (forall x <- pool - gone, y <- gone :: y < x)
    && r.store.stream == s.stream - gone
    && Stores(s, r.store, gone)
    && Tidy(r.store)
  }

  lemma RemoveKeepsTidy(s: Store, t: Store, gone: set<nat>)
    requires Tidy(s)
    requires t.stream == s.stream - gone && t.pending == s.pending - gone
    requires t.cursor == s.cursor && t.grouped
    ensures Tidy(t)
  {
    forall id | id in t.stream ensures Decodable(t, id) {
      assert Decodable(s, id);
    }
  }

  lemma {:induction false} ReadKeepsTidy(s: Store, count: nat)
    requires Tidy(s)
    ensures Tidy(ReadGroup(s, count).0)
  {
    ReadSplits(s, count);
    forall id | id in s.stream ensures Decodable(ReadGroup(s, count).0, id) {
      assert Decodable(s, id);
    }
  }

  /** Persisting a selection, fault-free, from a tidy store. */
  lemma {:induction false} PersistTakes(s: Store, pool: set<nat>, count: nat)
    requires Tidy(s) && pool <= s.stream.Keys
    ensures var ids := Smallest(pool, count);
            var r := Persist(s, Messages(s, ids), NO_FAULTS);
            Took(s, r, pool, Range(ids), count) && r.store.pending == s.pending - Range(ids) && r.store.cursor == s.cursor
  {
    var ids := Smallest(pool, count);
    SelectedSize(pool, count);
    forall x, y | x in pool - Range(ids) && y in Range(ids) ensures y < x {
      SmallestComeFirst(pool, count, x);
    }
    PersistRemoves(s, ids);
    RemoveKeepsTidy(s, Persist(s, Messages(s, ids), NO_FAULTS).store, Range(ids));
  }

  /** One fault-free `ConsumeNew` takes a batch off the undelivered entries and nothing else. */
  lemma {:induction false} ConsumeRound(s: Store, count: nat)
    requires Tidy(s)
    ensures var r, ids := Consume(s, count, Fine, NO_FAULTS), Smallest(Undelivered(s), count);
            Took(s, r, Undelivered(s), Range(ids), count) && r.store.pending == s.pending
  {
    assert s.grouped;
    hide DecodeAll, Decodable, Smallest, Persist, Took, Tidy, Messages;
    var pool := Undelivered(s);
    var ids := Smallest(pool, count);
    var delivered := ReadGroup(s, count).0;
    if ids == [] {
      NothingTaken(s, pool, count);
    } else {
      ReadKeepsTidy(s, count);
      assert Messages(delivered, ids) == Messages(s, ids) by {
        SameMessages(s, delivered, ids);
      }
      PersistTakes(delivered, pool, count);
      TookAlike(s, delivered, Consume(s, count, Fine, NO_FAULTS), pool, Range(ids), count);
      DeliveredPending(s, ids);
    }
  }

  lemma SameMessages(s: Store, delivered: Store, ids: seq<nat>)
    requires s.stream == delivered.stream && forall x <- ids :: x in s.stream
    ensures Messages(delivered, ids) == Messages(s, ids)
  {
  }

  lemma {:induction false} NothingTaken(s: Store, pool: set<nat>, count: nat)
    requires Tidy(s) && Smallest(pool, count) == []
    ensures Range(Smallest(pool, count)) == {} && Took(s, Progress(s, 0, None), pool, {}, count)
    ensures Persist(s, [], NO_FAULTS) == Progress(s, 0, None)
  {
    SelectedSize(pool, count);
    assert Range(Smallest(pool, count)) == {};
    assert s.stream - {} == s.stream;
    StoresNothing(s);
  }

  lemma TookAlike(s: Store, delivered: Store, r: Progress, pool: set<nat>, gone: set<nat>, count: nat)
    requires s.stream == delivered.stream && s.table == delivered.table && Took(delivered, r, pool, gone, count)
    ensures Took(s, r, pool, gone, count)
  {
    hide Stores, Tidy;
    StoresAlike(s, delivered, r.store, gone);
  }

  lemma DeliveredPending(s: Store, ids: seq<nat>)
    requires Tidy(s) && forall x <- ids :: x in Undelivered(s)
    ensures s.pending + Range(ids) - Range(ids) == s.pending
  {
  }

  /**
   One fault-free `RecoverPending` takes a batch off the pending entries that are idle, in
   order, and nothing else, however many of the others are not.
   */
  lemma {:induction false} RecoverRound(s: Store, idle: set<nat>, count: nat)
    requires Tidy(s)
    ensures var r, ids := Recover(s, idle, count, Fine, NO_FAULTS), Smallest(s.pending * idle, count);
            && Took(s, r, s.pending * idle, Range(ids), count)
            && r.store.pending == s.pending - Range(ids)
            && r.store.cursor == s.cursor
  {
    hide DecodeAll, Decodable, Smallest, Held, Stores;
    var ids := Smallest(s.pending * idle, count);
    HeldIsMessages(s, ids);
    assert Claim(s, ids).0 == s;
    PersistTakes(s, s.pending * idle, count);
  }

  datatype Round = New | Abandoned

  function DoRound(s: Store, batch: nat, r: Round): Progress {
    match r
    case New => Consume(s, batch, Fine, NO_FAULTS)
    case Abandoned => Recover(s, s.pending, batch, Fine, NO_FAULTS)
  }

  function Rounds(s: Store, batch: nat, schedule: seq<Round>): Store {
    if schedule == [] then s
    else DoRound(Rounds(s, batch, schedule[..|schedule| - 1]), batch, schedule[|schedule| - 1]).store
  }

  /** How many rounds of a schedule found something to persist. */
  function Busy(s: Store, batch: nat, schedule: seq<Round>): nat {
    if schedule == [] then 0
    else
      var n := |schedule| - 1;
      Busy(s, batch, schedule[..n])
      + (if DoRound(Rounds(s, batch, schedule[..n]), batch, schedule[n]).count > 0 then 1 else 0)
  }

  function Count(schedule: seq<Round>, r: Round): nat {
    if schedule == [] then 0
    else
      var n := |schedule| - 1;
      Count(schedule[..n], r) + (if schedule[n] == r then 1 else 0)
  }

  /** What `k` rounds of size `batch` leave of `size` entries. */
  function Left(size: nat, batch: nat, k: nat): nat {
    Max(0, size - batch * k)
  }

  lemma LeftStep(size: nat, batch: nat, k: nat)
    requires batch > 0
    ensures Left(size, batch, k) - Min(batch, Left(size, batch, k)) == Left(size, batch, k + 1)
    ensures Min(batch, Left(size, batch, k)) > 0 <==> k < CeilDiv(size, batch)
    ensures Left(size, batch, k) == 0 <==> CeilDiv(size, batch) <= k
    ensures 0 <= CeilDiv(size, batch)
  {
    assert batch * (k + 1) == batch * k + batch;
    CeilDivLeast(size, batch, k);
    CeilDivLeast(size, batch, -1);
    assert k * batch == batch * k;
  }

  /** What is left after `k` rounds for new entries and `m` for pending ones. */
  predicate LeftAfter(s: Store, t: Store, batch: nat, k: nat, m: nat) {
    && Tidy(t)
    && |Undelivered(t)| == Left(|Undelivered(s)|, batch, k)
    && |t.pending| == Left(|s.pending|, batch, m)
  }

  lemma {:induction false} NewRoundLeaves(s: Store, t: Store, batch: nat, k: nat, m: nat)
    requires batch > 0 && LeftAfter(s, t, batch, k, m)
    ensures var d := Consume(t, batch, Fine, NO_FAULTS);
            LeftAfter(s, d.store, batch, k + 1, m) && (d.count > 0 <==> k < CeilDiv(|Undelivered(s)|, batch))
  {
    hide Decodable, Smallest, Consume, Left, CeilDiv, Stores;
    var d, gone := Consume(t, batch, Fine, NO_FAULTS), Range(Smallest(Undelivered(t), batch));
    UndeliveredIs(t);
    ConsumeRound(t, batch);
    UndeliveredIs(d.store);
    assert Undelivered(d.store) == Undelivered(t) - gone;
    LeftStep(|Undelivered(s)|, batch, k);
  }

  lemma {:induction false} RecoverRoundLeaves(s: Store, t: Store, batch: nat, k: nat, m: nat)
    requires batch > 0 && LeftAfter(s, t, batch, k, m)
    ensures var d := Recover(t, t.pending, batch, Fine, NO_FAULTS);
            LeftAfter(s, d.store, batch, k, m + 1) && (d.count > 0 <==> m < CeilDiv(|s.pending|, batch))
  {
    hide Decodable, Smallest, Recover, Left, CeilDiv, Stores;
    var d := Recover(t, t.pending, batch, Fine, NO_FAULTS);
    UndeliveredIs(t);
    assert t.pending * t.pending == t.pending;
    RecoverRound(t, t.pending, batch);
    UndeliveredIs(d.store);
    assert Undelivered(d.store) == Undelivered(t);
    LeftStep(|s.pending|, batch, m);
  }

  /** The counts after any schedule of rounds, in any order. */
  lemma {:induction false} ScheduleCounts(s: Store, batch: nat, schedule: seq<Round>)
    requires Tidy(s) && batch > 0
    ensures LeftAfter(s, Rounds(s, batch, schedule), batch, Count(schedule, New), Count(schedule, Abandoned))
    ensures Busy(s, batch, schedule)
            == Min(Count(schedule, New), CeilDiv(|Undelivered(s)|, batch))
               + Min(Count(schedule, Abandoned), CeilDiv(|s.pending|, batch))
  {
    hide Consume, Recover, Tidy, CeilDiv;
    LeftStep(|Undelivered(s)|, batch, 0);
    LeftStep(|s.pending|, batch, 0);
    if schedule != [] {
      var n := |schedule| - 1;
      ScheduleCounts(s, batch, schedule[..n]);
      var t, k, m := Rounds(s, batch, schedule[..n]), Count(schedule[..n], New), Count(schedule[..n], Abandoned);
      match schedule[n]
      case New => NewRoundLeaves(s, t, batch, k, m);
      case Abandoned => RecoverRoundLeaves(s, t, batch, k, m);
    }
  }

  /**
   Draining terminates: with no new approvals and no faults, a schedule of rounds empties the
   stream exactly when it holds enough rounds of each kind, and whatever the order, the
   rounds that find work number at most ceil(undelivered/batch) + ceil(pending/batch).
   */
  lemma {:induction false} DrainExactly(s: Store, batch: nat, schedule: seq<Round>)
    requires Tidy(s) && batch > 0
    ensures Rounds(s, batch, schedule).stream == map[] <==>
            && CeilDiv(|Undelivered(s)|, batch) <= Count(schedule, New)
            && CeilDiv(|s.pending|, batch) <= Count(schedule, Abandoned)
    ensures Busy(s, batch, schedule) <= CeilDiv(|Undelivered(s)|, batch) + CeilDiv(|s.pending|, batch)
  {
    var t := Rounds(s, batch, schedule);
    ScheduleCounts(s, batch, schedule);
    LeftStep(|Undelivered(s)|, batch, Count(schedule, New));
    LeftStep(|s.pending|, batch, Count(schedule, Abandoned));
    assert t.stream.Keys == Undelivered(t) + t.pending;
    assert t.stream == map[] <==> t.stream.Keys == {};
    assert t.stream.Keys == {} <==> Undelivered(t) == {} && t.pending == {};
  }

  /** With the stream empty again, no check is refused for the backlog. */
  lemma DrainedAdmits(c: Config, s: System, key: Key, cost: int)
    requires ValidConfig(c) && s.store.stream == map[]
    ensures Answer(c, s, key, cost) != Refused(EventBacklogFull)
  {
    assert Room(c, s);
  }

  /** Every store the service reaches with 32-bit limits is one that drains. */
  lemma {:induction false} ReachableIsTidy(c: Config, acts: seq<Action>)
    requires ValidConfig(c) && Int32Limits(c) && Run(c, acts).clock <= MAX_INT64
    requires Run(c, acts).store.grouped
    ensures Tidy(Run(c, acts).store)
  {
    var s := Run(c, acts);
    RunKeepsInv(c, acts);
    forall id | id in s.store.stream ensures Decodable(s.store, id) {
      assert WasAppended(s.history, id, s.store.stream[id]);
      AppendedEventsStorable(c, acts, id);
      DecodedRow(s.history, XMessage(id, s.store.stream[id]));
    }
  }

  // ---- Draining as a run of the service ----

  /** What a worker does: create the group, read or claim, insert, clean up. */
  predicate WorkerSteps(steps: seq<Action>) {
    forall i :: 0 <= i < |steps| ==> steps[i].EnsureGroup? || steps[i].Read? || steps[i].Take? || steps[i].Insert? || steps[i].Cleanup?
  }

  /** Nothing but the store differs. */
  predicate OnlyStore(s: System, t: System) {
    t == s.(store := t.store)
  }

  lemma {:induction false} PersistSteps(c: Config, s: System, w: nat, batch: seq<XMessage>)
    requires ValidConfig(c) && w in s.sessions && s.sessions[w] == Holding(batch) && DecodeAll(batch).Ok?
    ensures Billing.ApplyAll(c, s, [Service.Insert(w), Cleanup(w)])
            == s.(store := Persist(s.store, batch, NO_FAULTS).store, sessions := s.sessions - {w})
  {
    hide DecodeAll;
    Billing.ApplyTwo(c, s, Service.Insert(w), Cleanup(w));
    var t := Apply(c, s, Service.Insert(w));
    assert t.sessions - {w} == s.sessions - {w};
    if batch == [] {
      assert DecodeAll([]) == Ok([]) by {
        NothingToDecode();
      }
      assert Ids([]) == {};
      assert t.store.stream - {} == s.store.stream;
    }
  }

  lemma NothingToDecode()
    ensures DecodeAll([]) == Ok([])
  {
  }

  /** A fault-free round is three steps of the service, and leaves no session open. */
  lemma {:induction false} RoundIsSteps(c: Config, s: System, w: nat, batch: nat, r: Round) returns (steps: seq<Action>)
    requires ValidConfig(c) && Tidy(s.store) && w !in s.sessions
    ensures |steps| == 3 && WorkerSteps(steps)
    ensures var t := Billing.ApplyAll(c, s, steps);
            OnlyStore(s, t) && t.store == DoRound(s.store, batch, r).store
  {
    hide DecodeAll, Smallest, Persist, Decodable, Held, Messages;
    var ids := Smallest(s.store.pending, batch);
    assert s.store.pending * s.store.pending == s.store.pending;
    var open, delivered;
    match r {
      case New =>
        open, delivered := Read(w, batch), ReadGroup(s.store, batch);
        ReadDecodes(s.store, batch);
      case Abandoned =>
        open, delivered := Take(w, ids), Claim(s.store, ids);
        ClaimDecodes(s.store, batch);
    }
    var reading := Open(s, w, delivered);
    PersistSteps(c, reading, w, delivered.1);
    steps := [open] + [Service.Insert(w), Cleanup(w)];
    Billing.ApplyAfter(c, s, open, [Service.Insert(w), Cleanup(w)]);
    assert reading.sessions - {w} == s.sessions;
  }

  lemma {:induction false} ReadDecodes(s: Store, count: nat)
    requires Tidy(s)
    ensures DecodeAll(ReadGroup(s, count).1).Ok?
  {
    hide DecodeAll, Smallest, Decodable;
    BatchDecodes(s, ReadGroup(s, count).1);
  }

  lemma {:induction false} ClaimDecodes(s: Store, count: nat)
    requires Tidy(s)
    ensures DecodeAll(Claim(s, Smallest(s.pending, count)).1).Ok?
  {
    hide DecodeAll, Smallest, Decodable;
    var ids := Smallest(s.pending, count);
    HeldIsMessages(s, ids);
    BatchDecodes(s, Messages(s, ids));
  }

  lemma {:induction false} ApplyConcat(c: Config, s: System, first: seq<Action>, second: seq<Action>)
    requires ValidConfig(c)
    ensures Billing.ApplyAll(c, s, first + second) == Billing.ApplyAll(c, Billing.ApplyAll(c, s, first), second)
  {
    hide Apply;
    if second == [] {
      assert first + second == first;
    } else {
      var n := |second| - 1;
      ApplyConcat(c, s, first, second[..n]);
      assert (first + second)[..|first + second| - 1] == first + second[..n];
    }
  }

  lemma {:induction false} RunThen(c: Config, acts: seq<Action>, steps: seq<Action>)
    requires ValidConfig(c)
    ensures Run(c, acts + steps) == Billing.ApplyAll(c, Run(c, acts), steps)
  {
    hide Apply;
    if steps == [] {
      assert acts + steps == acts;
    } else {
      var n := |steps| - 1;
      RunThen(c, acts, steps[..n]);
      assert (acts + steps)[..|acts + steps| - 1] == acts + steps[..n];
    }
  }

  /** A schedule of fault-free rounds, played by one worker on the service. */
  lemma {:induction false} ScheduleIsRun(c: Config, s: System, w: nat, batch: nat, schedule: seq<Round>)
    returns (steps: seq<Action>)
    requires ValidConfig(c) && Tidy(s.store) && w !in s.sessions && batch > 0
    ensures |steps| == 3 * |schedule| && WorkerSteps(steps)
    ensures var t := Billing.ApplyAll(c, s, steps);
            OnlyStore(s, t) && t.store == Rounds(s.store, batch, schedule)
  {
    hide Apply, DoRound, Tidy;
    if schedule == [] {
      steps := [];
    } else {
      var n := |schedule| - 1;
      var before := ScheduleIsRun(c, s, w, batch, schedule[..n]);
      ScheduleCounts(s.store, batch, schedule[..n]);
      var last := RoundIsSteps(c, Billing.ApplyAll(c, s, before), w, batch, schedule[n]);
      ApplyConcat(c, s, before, last);
      steps := before + last;
    }
  }

  /** `k` rounds for new entries and `m` for abandoned ones. */
  function Enough(k: nat, m: nat): seq<Round> {
    if m > 0 then Enough(k, m - 1) + [Abandoned]
    else if k > 0 then Enough(k - 1, 0) + [New]
    else []
  }

  lemma {:induction false} EnoughCounts(k: nat, m: nat)
    ensures |Enough(k, m)| == k + m && Count(Enough(k, m), New) == k && Count(Enough(k, m), Abandoned) == m
  {
    if m > 0 {
      EnoughCounts(k, m - 1);
      assert Enough(k, m)[..|Enough(k, m)| - 1] == Enough(k, m - 1);
    } else if k > 0 {
      EnoughCounts(k - 1, 0);
      assert Enough(k, 0)[..|Enough(k, 0)| - 1] == Enough(k - 1, 0);
    }
  }

  lemma {:induction false} FreshSession(used: set<nat>) returns (w: nat)
    ensures forall x <- used :: x < w
  {
    if used == {} {
      w := 0;
    } else {
      var x :| x in used;
      var bound := FreshSession(used - {x});
      w := if x < bound then bound else x + 1;
      forall y | y in used ensures y < w {
        assert y == x || y in used - {x};
      }
    }
  }

  /**
   Every reachable state drains: with 32-bit limits, a worker that makes sure of the group
   and then reads, claims, inserts and cleans up, three steps for each of
   ceil(undelivered/batch) + ceil(pending/batch) rounds, reaches an empty stream and a table
   that is the whole history.
   */
  lemma {:induction false} EveryStateDrains(c: Config, acts: seq<Action>, batch: nat) returns (steps: seq<Action>)
    requires ValidConfig(c) && Int32Limits(c) && Run(c, acts).clock <= MAX_INT64 && batch > 0
    ensures WorkerSteps(steps)
    ensures var s := Run(c, acts).store;
            |steps| == 1 + 3 * (CeilDiv(|Undelivered(s)|, batch) + CeilDiv(|s.pending|, batch))
    ensures var s, t := Run(c, acts), Run(c, acts + steps);
            && t.history == s.history
            && t.store.stream == map[]
            && t.store.table == map id | 0 <= id < |s.history| :: RowOf(id, s.history[id].event)
  {
    hide Run, Apply, Tidy, CeilDiv;
    var s := Run(c, acts);
    RunThen(c, acts, [EnsureGroup]);
    ApplyOne(c, s, EnsureGroup);
    EnvironmentActs(c, s, 0, "", 0);
    var grouped := acts + [EnsureGroup];
    var g := Run(c, grouped);
    assert Undelivered(g.store) == Undelivered(s.store);
    var rest := GroupedStateDrains(c, grouped, batch);
    steps := [EnsureGroup] + rest;
    assert grouped + rest == acts + steps;
  }

  lemma ApplyOne(c: Config, s: System, a: Action)
    requires ValidConfig(c)
    ensures Billing.ApplyAll(c, s, [a]) == Apply(c, s, a)
  {
    hide Apply;
    assert [a][..0] == [];
    assert Billing.ApplyAll(c, s, []) == s;
  }

  lemma {:induction false} GroupedStateDrains(c: Config, acts: seq<Action>, batch: nat) returns (steps: seq<Action>)
    requires ValidConfig(c) && Int32Limits(c) && Run(c, acts).clock <= MAX_INT64
    requires Run(c, acts).store.grouped && batch > 0
    ensures WorkerSteps(steps)
    ensures var s := Run(c, acts).store;
            |steps| == 3 * (CeilDiv(|Undelivered(s)|, batch) + CeilDiv(|s.pending|, batch))
    ensures var s, t := Run(c, acts), Run(c, acts + steps);
            && t.history == s.history
            && t.store.stream == map[]
            && t.store.table == map id | 0 <= id < |s.history| :: RowOf(id, s.history[id].event)
  {
    hide Run, Apply, Tidy, CeilDiv, Rounds, Billing.ApplyAll;
    var s := Run(c, acts);
    ReachableIsTidy(c, acts);
    LeftStep(|Undelivered(s.store)|, batch, 0);
    LeftStep(|s.store.pending|, batch, 0);
    var k, m := CeilDiv(|Undelivered(s.store)|, batch), CeilDiv(|s.store.pending|, batch);
    EnoughCounts(k, m);
    DrainExactly(s.store, batch, Enough(k, m));
    var w := FreshSession(s.sessions.Keys);
    steps := ScheduleIsRun(c, s, w, batch, Enough(k, m));
    RunThen(c, acts, steps);
    Billing.DrainedTableIsHistory(c, acts + steps);
  }
}
