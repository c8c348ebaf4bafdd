/** What holds of the service end to end, over every run of its transition system. */
module Billing {
  import opened Arithmetic
  import opened Limits
  import opened History
  import opened Events
  import opened Pipeline
  import opened Service
  import RedisKeys
  import Bucket = RedisBucket

  // ---- Delivery ----

  /**
   No loss and no duplication, in every reachable state: each event ever appended is in
   the stream or in the table, an event gone from the stream is in the table, the row of an
   ID is exactly the event appended under it, and no row has an ID that was never appended.
   */
  lemma NoLossNoDuplication(c: Config, acts: seq<Action>, id: nat)
    requires ValidConfig(c) && id < |Run(c, acts).history|
    ensures var s := Run(c, acts);
            && (id in s.store.stream || id in s.store.table)
            && (id in s.store.table ==> s.store.table[id] == RowOf(id, s.history[id].event))
            && (id in s.store.stream ==> s.store.stream[id] == Encode(s.history[id].event))
            && (forall i <- s.store.table :: i < |s.history|)
            && (forall i <- s.store.stream :: i < |s.history|)
  {
    var s := Run(c, acts);
    RunKeepsInv(c, acts);
    forall i | i in s.store.table ensures i < |s.history| {
      assert RowExact(s.history, i, s.store.table[i]);
    }
    forall i | i in s.store.stream ensures i < |s.history| {
      assert WasAppended(s.history, i, s.store.stream[i]);
    }
    assert EncodedAt(s.history, id);
    if id in s.store.stream {
      assert WasAppended(s.history, id, s.store.stream[id]);
    }
    if id in s.store.table {
      assert RowExact(s.history, id, s.store.table[id]);
    }
  }

  /** Once the stream is empty, the table is the history: every event once, nothing else. */
  lemma DrainedTableIsHistory(c: Config, acts: seq<Action>)
    requires ValidConfig(c) && Run(c, acts).store.stream == map[]
    ensures var s := Run(c, acts);
            s.store.table == map id | 0 <= id < |s.history| :: RowOf(id, s.history[id].event)
  {
    var s := Run(c, acts);
    RunKeepsInv(c, acts);
    forall id | id in s.store.table ensures id < |s.history| && s.store.table[id] == RowOf(id, s.history[id].event) {
      assert RowExact(s.history, id, s.store.table[id]);
    }
  }

  /**
   Stream bookkeeping, in every reachable state: live entries are either undelivered or
   pending and never both, nothing else is pending, and the stream never outgrows the
   backlog limit, however many instances append.
   */
  lemma StreamBookkeeping(c: Config, acts: seq<Action>)
    requires ValidConfig(c)
    ensures var s := Run(c, acts).store;
            && s.stream.Keys == Undelivered(s) + s.pending
            && Undelivered(s) !! s.pending
            && |s.stream| <= c.maxBacklog
  {
    RunKeepsInv(c, acts);
  }

  /**
   An approval and its event are one step: a check is answered "allowed" exactly when its
   event enters the stream with it, and otherwise nothing is appended. A check refused for
   the backlog changes nothing at all.
   */
  lemma {:induction false} ApprovedIffAppended(c: Config, s: System, key: Key, cost: int)
    requires ValidConfig(c)
    ensures var t, o := Apply(c, s, Check(key, cost)), Answer(c, s, key, cost);
            && (Allowed(o) <==> |t.history| == |s.history| + 1)
            && (Allowed(o) ==>
                  && t.history[..|s.history|] == s.history
                  && t.history[|s.history|].event == Event(key.clientID, key.resource, cost, s.clock, o.decision.remaining)
                  && t.store.stream == s.store.stream[|s.history| := t.history[|s.history|].fields])
            && (!Allowed(o) ==> t.history == s.history && t.store == s.store)
            && (o == Refused(EventBacklogFull) ==> t == s)
  {
    hide Encode, Bucket.Refill, CeilDiv;
    if key in c.policies {
      var name := RedisKeys.RedisKey(c.prefix, key);
      assert Put(s.buckets, name, Stored(c, s, key)) == s.buckets;
    }
  }

  function ApplyAll(c: Config, s: System, acts: seq<Action>): System
    requires ValidConfig(c)
  {
    if acts == [] then s else Apply(c, ApplyAll(c, s, acts[..|acts| - 1]), acts[|acts| - 1])
  }

  lemma {:induction false} ApplyTwo(c: Config, s: System, a: Action, b: Action)
    requires ValidConfig(c)
    ensures ApplyAll(c, s, [a, b]) == Apply(c, Apply(c, s, a), b)
  {
    assert [a, b][..1] == [a] && [a][..0] == [];
    assert ApplyAll(c, s, []) == s;
    assert ApplyAll(c, s, [a]) == Apply(c, s, a);
  }

  /** A worker's call, whatever faults it meets, is the insert and cleanup steps it performs. */
  lemma {:induction false} PersistIsSteps(c: Config, s: System, w: nat, batch: seq<XMessage>, f: PersistFaults)
    requires ValidConfig(c) && w in s.sessions && s.sessions[w] == Holding(batch)
    ensures ApplyAll(c, s, [Service.Insert(w), Cleanup(w)][..Performed(batch, f)]).store == Persist(s.store, batch, f).store
  {
    hide DecodeAll, Ids;
    var steps := [Service.Insert(w), Cleanup(w)];
    ApplyTwo(c, s, Service.Insert(w), Cleanup(w));
    if batch != [] {
      PersistIsAtomic(s.store, batch, f);
    }
    match Performed(batch, f)
    case 0 => assert steps[..0] == [];
    case 1 =>
      assert steps[..1] == [Service.Insert(w)] && steps[..1][..0] == [];
      assert ApplyAll(c, s, []) == s;
    case 2 => assert steps[..2] == steps;
  }

  /**
   `ConsumeNew` and `RecoverPending`, whatever faults they meet, are runs of the system: the
   read or claim unless it was lost or there is no group, then as much of insert and cleanup as
   the faults allow. They report success exactly when nothing failed.
   */
  lemma {:induction false} WorkerCallsAreRuns(
    c: Config, s: System, w: nat, idle: set<nat>, count: nat, read: Fault, f: PersistFaults)
    returns (consume: seq<Action>, recover: seq<Action>)
    requires ValidConfig(c) && w !in s.sessions
    ensures var batch := ReadGroup(s.store, count).1;
            consume == [Read(w, count), Service.Insert(w), Cleanup(w)][..Reached(s.store, read, batch, f)]
    ensures var ids := Smallest(s.store.pending * idle, count);
            recover == [Take(w, ids), Service.Insert(w), Cleanup(w)][..Reached(s.store, read, Claim(s.store, ids).1, f)]
    ensures ApplyAll(c, s, consume).store == Consume(s.store, count, read, f).store
    ensures ApplyAll(c, s, recover).store == Recover(s.store, idle, count, read, f).store
    ensures Consume(s.store, count, read, f).error.None? <==> Succeeds(s.store, read, ReadGroup(s.store, count).1, f)
    ensures Recover(s.store, idle, count, read, f).error.None? <==>
            Succeeds(s.store, read, Claim(s.store, Smallest(s.store.pending * idle, count)).1, f)
  {
    hide DecodeAll, Smallest, Ids, Persist, Performed, ReadGroup, Claim;
    var ids := Smallest(s.store.pending * idle, count);
    consume := CallIsSteps(c, s, w, Read(w, count), ReadGroup(s.store, count), read, f);
    recover := CallIsSteps(c, s, w, Take(w, ids), Claim(s.store, ids), read, f);
  }

  /** How many of read, insert and cleanup a call performs. */
  function Reached(s: Store, read: Fault, batch: seq<XMessage>, f: PersistFaults): (n: nat)
    ensures n <= 3
  {
    if read == Lost || !s.grouped then 0
    else if read == Misreported then 1
    else 1 + Performed(batch, f)
  }

  predicate Succeeds(s: Store, read: Fault, batch: seq<XMessage>, f: PersistFaults) {
    s.grouped && read == Fine && (batch == [] || (Removes(batch, f) && f.cleanup == Fine))
  }

  lemma {:induction false} CallIsSteps(
    c: Config, s: System, w: nat, first: Action, delivered: (Store, seq<XMessage>), read: Fault, f: PersistFaults)
    returns (steps: seq<Action>)
    requires ValidConfig(c) && w !in s.sessions && Apply(c, s, first) == Open(s, w, delivered)
    ensures steps == [first, Service.Insert(w), Cleanup(w)][..Reached(s.store, read, delivered.1, f)]
    ensures var persisted := Persist(delivered.0, delivered.1, f);
            && ApplyAll(c, s, steps).store
               == (if read == Lost || !s.store.grouped then s.store
                   else if read == Misreported then delivered.0 else persisted.store)
            && (Succeeds(s.store, read, delivered.1, f) <==> s.store.grouped && read == Fine && persisted.error.None?)
  {
    hide DecodeAll, Ids, Performed, Apply;
    var all, rest := [first, Service.Insert(w), Cleanup(w)], [Service.Insert(w), Cleanup(w)];
    if delivered.1 != [] {
      PersistIsAtomic(delivered.0, delivered.1, f);
    }
    if read == Lost || !s.store.grouped {
      steps := [];
    } else {
      var n := if read == Fine then Performed(delivered.1, f) else 0;
      steps := [first] + rest[..n];
      ApplyAfter(c, s, first, rest[..n]);
      if read == Fine {
        PersistIsSteps(c, Open(s, w, delivered), w, delivered.1, f);
      }
      assert steps == all[..1 + n];
    }
  }

  /** `EnsureGroup`, unless its command is lost, is the group's step, and the group exists after it. */
  lemma EnsureGroupIsStep(c: Config, s: System, create: Fault)
    requires ValidConfig(c)
    ensures var t := if create == Lost then s else Apply(c, s, EnsureGroup);
            && t.store == s.store.(grouped := s.store.grouped || create != Lost)
            && (create != Lost ==> t.store.grouped)
  {
    EnvironmentActs(c, s, s.clock, "", 0);
  }

  /** How many messages the batches hold. */
  function Sizes(batches: seq<seq<XMessage>>): nat {
    if batches == [] then 0 else Sizes(batches[..|batches| - 1]) + |batches[|batches| - 1]|
  }

  /** The message has left the stream and its row is stored. */
  predicate Settled(s: Store, m: XMessage) {
    m.id !in s.stream && m.id in s.table
  }

  predicate AllSettled(s: Store, batch: seq<XMessage>) {
    forall m <- batch :: Settled(s, m)
  }

  /** Nothing enters the stream and no row is lost. */
  predicate OnlyForward(s: Store, t: Store) {
    t.stream.Keys <= s.stream.Keys && s.table.Keys <= t.table.Keys
  }

  lemma {:induction false} PersistForward(s: Store, batch: seq<XMessage>, f: PersistFaults)
    ensures var r := Persist(s, batch, f);
            && OnlyForward(s, r.store)
            && (r.error.None? ==> r.count == |batch| && AllSettled(r.store, batch))
  {
    hide DecodeAll, ApprovalRequest;
    var rows := DecodeAll(batch);
    if batch != [] && rows.Ok? {
      PersistIsAtomic(s, batch, f);
      DecodeAllExact(batch);
      forall i | 0 <= i < |batch| ensures rows.value[i].streamID == batch[i].id {
        RowKeepsID(batch[i]);
      }
      InsertAllFacts(s.table, rows.value);
      SameIds(batch, rows.value);
    }
  }

  lemma RowKeepsID(m: XMessage)
    ensures ApprovalRequest(m.id, m.values).Ok? ==> ApprovalRequest(m.id, m.values).value.streamID == m.id
  {
    DecodeExact(m.id, m.values);
  }

  /**
   The batches of one reply, in order: some number of them, from the first on, are persisted
   and counted, and all of them exactly when no error is reported.
   */
  lemma {:induction false} PersistEachExact(s: Store, batches: seq<seq<XMessage>>, f: seq<PersistFaults>) returns (n: nat)
    requires |batches| == |f|
    ensures n <= |batches|
    ensures var r := PersistEach(s, batches, f);
            && (r.error.None? <==> n == |batches|)
            && r.count == Sizes(batches[..n])
            && OnlyForward(s, r.store)
            && (forall i :: 0 <= i < n ==> AllSettled(r.store, batches[i]))
  {
    hide Persist;
    if batches == [] {
      n := 0;
    } else {
      var k := |batches| - 1;
      n := PersistEachExact(s, batches[..k], f[..k]);
      var before := PersistEach(s, batches[..k], f[..k]);
      assert batches[..k][..n] == batches[..n];
      forall i | 0 <= i < n ensures AllSettled(PersistEach(s, batches, f).store, batches[i]) {
        PersistForward(before.store, batches[k], f[k]);
        assert AllSettled(before.store, batches[..k][i]);
      }
      if before.error.None? {
        PersistForward(before.store, batches[k], f[k]);
        assert batches[..k + 1] == batches;
        if Persist(before.store, batches[k], f[k]).error.None? {
          n := k + 1;
        }
      }
    }
  }

  lemma {:induction false} ApplyAfter(c: Config, s: System, a: Action, rest: seq<Action>)
    requires ValidConfig(c)
    ensures ApplyAll(c, s, [a] + rest) == ApplyAll(c, Apply(c, s, a), rest)
  {
    var all := [a] + rest;
    if rest == [] {
      assert all[..0] == [] && all == [a];
    } else {
      ApplyAfter(c, s, a, rest[..|rest| - 1]);
      assert all[..|all| - 1] == [a] + rest[..|rest| - 1];
    }
  }

  // ---- One key at a time ----

  /** What the actions of a run did to one bucket key. */
  function Project(c: Config, acts: seq<Action>, key: Key): seq<Bucket.Action>
    requires ValidConfig(c)
  {
    if acts == [] then []
    else
      var before := acts[..|acts| - 1];
      Project(c, before, key) + ProjectOne(c, Run(c, before), acts[|acts| - 1], key)
  }

  function ProjectOne(c: Config, s: System, a: Action, key: Key): seq<Bucket.Action>
    requires ValidConfig(c)
  {
    match a
    case Check(k, cost) => if k == key then [Bucket.Check(s.clock, cost, |s.store.stream| < c.maxBacklog)] else []
    case Expire(name) => if name == RedisKeys.RedisKey(c.prefix, key) then [Bucket.Expire(s.clock)] else []
    case _ => []
  }

  predicate IsFor(e: Event, key: Key) {
    e.clientID == key.clientID && e.resource == key.resource
  }

  /** The charges recorded for one key, in order of approval. */
  function KeyCharges(history: seq<Appended>, key: Key): seq<Charge> {
    if history == [] then []
    else
      var e := history[|history| - 1].event;
      KeyCharges(history[..|history| - 1], key) + (if IsFor(e, key) then [Charge(e.approvedAtMS, e.cost)] else [])
  }

  lemma {:induction false} KeyChargesAppend(history: seq<Appended>, a: Appended, key: Key)
    ensures KeyCharges(history + [a], key)
            == KeyCharges(history, key) + (if IsFor(a.event, key) then [Charge(a.event.approvedAtMS, a.event.cost)] else [])
  {
    assert (history + [a])[..|history|] == history;
  }

  /** A state agrees with a single-key run: same bucket, same charges, times in order. */
  predicate Mirrors(c: Config, s: System, key: Key, acts: seq<Bucket.Action>)
    requires ValidConfig(c) && key in c.policies
  {
    var tr := Bucket.Run(c.policies[key], acts);
    && Stored(c, s, key) == tr.bucket
    && KeyCharges(s.history, key) == Approved(tr.charges)
    && Bucket.OrderedActions(acts)
    && Bucket.ActionsUpTo(acts, s.clock)
  }

  lemma {:induction false} OrderedAppend(acts: seq<Bucket.Action>, a: Bucket.Action)
    requires Bucket.OrderedActions(acts) && Bucket.ActionsUpTo(acts, a.at)
    ensures Bucket.OrderedActions(acts + [a]) && Bucket.ActionsUpTo(acts + [a], a.at)
  {
  }

  lemma PutThenStored(c: Config, s: System, key: Key, b: Option<Bucket.Bucket>)
    ensures Stored(c, s.(buckets := Put(s.buckets, RedisKeys.RedisKey(c.prefix, key), b)), key) == b
  {
  }

  /** One check on the service is one check on the key's own run. */
  lemma {:induction false} CheckBucket(c: Config, s: System, key: Key, cost: int)
    requires ValidConfig(c) && key in c.policies
    ensures var t, o := ApplyCheck(c, s, key, cost), Answer(c, s, key, cost);
            && Stored(c, t, key) == Bucket.Step(c.policies[key], Stored(c, s, key), s.clock, cost, Room(c, s)).0
            && t.clock == s.clock
            && KeyCharges(t.history, key)
               == KeyCharges(s.history, key) + (if Allowed(o) then [Charge(s.clock, cost)] else [])
            && (Allowed(o) ==> 0 < cost)
  {
    var (b, o) := Bucket.Step(c.policies[key], Stored(c, s, key), s.clock, cost, Room(c, s));
    PutThenStored(c, s, key, b);
    if Allowed(o) {
      var e := ApprovalOf(s, key, cost, o.decision);
      KeyChargesAppend(s.history, Appended(e, Encode(e)), key);
    }
  }

  lemma {:induction false} CheckMirrors(c: Config, s: System, key: Key, cost: int, acts: seq<Bucket.Action>)
    requires ValidConfig(c) && key in c.policies && Mirrors(c, s, key, acts)
    ensures Mirrors(c, ApplyCheck(c, s, key, cost), key, acts + [Bucket.Check(s.clock, cost, Room(c, s))])
  {
    var p, a := c.policies[key], Bucket.Check(s.clock, cost, Room(c, s));
    var before, o := Bucket.Run(p, acts), Answer(c, s, key, cost);
    CheckBucket(c, s, key, cost);
    OrderedAppend(acts, a);
    Bucket.RunAppend(p, acts, a);
    ApprovedAppend(before.charges, Charge(s.clock, Charged(o, cost)));
  }

  lemma {:induction false} ExpireMirrors(c: Config, s: System, key: Key, acts: seq<Bucket.Action>)
    requires ValidConfig(c) && key in c.policies && Mirrors(c, s, key, acts)
    ensures Mirrors(c, ApplyExpire(s, RedisKeys.RedisKey(c.prefix, key)), key, acts + [Bucket.Expire(s.clock)])
  {
    var before := Bucket.Run(c.policies[key], acts);
    assert Stored(c, ApplyExpire(s, RedisKeys.RedisKey(c.prefix, key)), key) == Bucket.Removed(before.bucket, s.clock) by {
      PutThenStored(c, s, key, Bucket.Removed(before.bucket, s.clock));
    }
    OrderedAppend(acts, Bucket.Expire(s.clock));
    Bucket.RunAppend(c.policies[key], acts, Bucket.Expire(s.clock));
    ApprovedAppend(before.charges, Charge(s.clock, 0));
  }

  /** Another key's actions touch neither this key's bucket nor its charges. */
  lemma {:induction false} OtherMirrors(c: Config, s: System, a: Action, key: Key, acts: seq<Bucket.Action>)
    requires ValidConfig(c) && key in c.policies && Mirrors(c, s, key, acts)
    requires ProjectOne(c, s, a, key) == []
    ensures Mirrors(c, Apply(c, s, a), key, acts)
  {
    hide Apply, Bucket.Run, Approved, RedisKeys.RedisKey;
    if a.Check? {
      OtherCheck(c, s, a.key, a.cost, key);
    } else if a.Expire? {
      OtherExpire(c, s, a.name, key);
    } else {
      QuietAction(c, s, a);
    }
  }

  lemma {:induction false} OtherCheck(c: Config, s: System, other: Key, cost: int, key: Key)
    requires ValidConfig(c) && other != key
    ensures var t := Apply(c, s, Check(other, cost));
            Stored(c, t, key) == Stored(c, s, key) && KeyCharges(t.history, key) == KeyCharges(s.history, key) && t.clock == s.clock
  {
    hide Encode, Bucket.Step, RedisKeys.RedisKey;
    if other in c.policies {
      if RedisKeys.RedisKey(c.prefix, other) == RedisKeys.RedisKey(c.prefix, key) {
        RedisKeys.RedisKeyInjective(c.prefix, other, key);
      }
      var o := Bucket.Step(c.policies[other], Stored(c, s, other), s.clock, cost, Room(c, s)).1;
      if Allowed(o) {
        var e := ApprovalOf(s, other, cost, o.decision);
        assert !IsFor(e, key);
        KeyChargesAppend(s.history, Appended(e, Encode(e)), key);
      }
    }
  }

  lemma OtherExpire(c: Config, s: System, name: string, key: Key)
    requires ValidConfig(c) && name != RedisKeys.RedisKey(c.prefix, key)
    ensures var t := Apply(c, s, Expire(name));
            Stored(c, t, key) == Stored(c, s, key) && t.history == s.history && t.clock == s.clock
  {
    hide RedisKeys.RedisKey;
  }

  /** Only checks and expiries touch buckets, and only checks the history. */
  lemma QuietAction(c: Config, s: System, a: Action)
    requires ValidConfig(c) && !a.Check? && !a.Expire?
    ensures var t := Apply(c, s, a);
            t.buckets == s.buckets && t.history == s.history && s.clock <= t.clock
  {
    hide ReadGroup, Claim, DecodeAll, InsertAll;
  }

  /** Every run of the service, seen from one key, is a single-key run of the script. */
  lemma {:induction false} RunMirrors(c: Config, acts: seq<Action>, key: Key)
    requires ValidConfig(c) && key in c.policies
    ensures Mirrors(c, Run(c, acts), key, Project(c, acts, key))
  {
    if acts != [] {
      var n := |acts| - 1;
      var s, a, before := Run(c, acts[..n]), acts[n], Project(c, acts[..n], key);
      RunMirrors(c, acts[..n], key);
      if a.Check? && a.key == key {
        CheckMirrors(c, s, key, a.cost, before);
      } else if a.Expire? && a.name == RedisKeys.RedisKey(c.prefix, key) {
        ExpireMirrors(c, s, key, before);
      } else {
        OtherMirrors(c, s, a, key, before);
        assert Project(c, acts, key) == before;
      }
    }
  }

  /**
   Key isolation: the answer to a check, in any mixed run, is the answer its own key's
   projected run gives; other keys matter only through room in the stream.
   */
  lemma {:induction false} KeyIsolation(c: Config, acts: seq<Action>, key: Key, cost: int)
    requires ValidConfig(c) && key in c.policies
    ensures var s := Run(c, acts);
            var now := Bucket.Check(s.clock, cost, |s.store.stream| < c.maxBacklog);
            var tr := Bucket.Run(c.policies[key], Project(c, acts, key) + [now]);
            tr.outcomes[|tr.outcomes| - 1] == Some(Answer(c, s, key, cost))
  {
    var s := Run(c, acts);
    RunMirrors(c, acts, key);
    Bucket.RunAppend(c.policies[key], Project(c, acts, key), Bucket.Check(s.clock, cost, Room(c, s)));
  }

  /**
   The admission law of the whole service. In every reachable state, whichever instances
   approved before, a check is allowed exactly when its cost is within the limit, the stream
   has room, and from each earlier approval of its key on, the cost approved since plus this
   cost is at most the limit plus what the elapsed time refills. It is refused for the backlog
   exactly when only the room is missing.
   */
  lemma {:induction false} ServiceAdmissionLaw(c: Config, acts: seq<Action>, key: Key, cost: int)
    requires ValidConfig(c) && key in c.policies
    ensures var s, p := Run(c, acts), Bucket.ScriptPolicy(c.policies[key]);
            Allowed(Answer(c, s, key, cost)) <==>
            && 0 < cost
            && |s.store.stream| < c.maxBacklog
            && Fits(p, KeyCharges(s.history, key), s.clock, cost)
    ensures var s, p := Run(c, acts), Bucket.ScriptPolicy(c.policies[key]);
            Answer(c, s, key, cost) == Refused(EventBacklogFull) <==>
            && 0 < cost
            && |s.store.stream| >= c.maxBacklog
            && Fits(p, KeyCharges(s.history, key), s.clock, cost)
  {
    hide Run, Approved, Level, Fits;
    var s, q := Run(c, acts), c.policies[key];
    var p := Bucket.ScriptPolicy(q);
    var local := Project(c, acts, key);
    var charges := Bucket.Run(q, local).charges;
    RunMirrors(c, acts, key);
    Bucket.ScriptPolicyValid(q);
    Bucket.BalanceIsHistory(q, local, s.clock);
    ApprovedLevel(p, charges, s.clock);
    LevelCoversIffFits(p, KeyCharges(s.history, key), s.clock, cost);
    LevelWithinCap(p, KeyCharges(s.history, key), s.clock, cost);
  }

  /**
   Every answer there is. In every reachable state: an error for a cost that is not positive,
   a key without a policy, a cost above the limit, or a covered check with the backlog full;
   otherwise a decision, allowed exactly when the envelope has room.
   */
  lemma {:induction false} AnswerExact(c: Config, acts: seq<Action>, key: Key, cost: int)
    requires ValidConfig(c)
    ensures var s := Run(c, acts);
            var o := Answer(c, s, key, cost);
            if cost <= 0 then o == Refused(InvalidCost)
            else if key !in c.policies then o == Refused(NoPolicy)
            else if cost > c.policies[key].limit then o == Refused(CostExceedsLimit)
            else
              var fits := Fits(Bucket.ScriptPolicy(c.policies[key]), KeyCharges(s.history, key), s.clock, cost);
              if fits && |s.store.stream| >= c.maxBacklog then o == Refused(EventBacklogFull)
              else o.Decided? && o.decision.allowed == fits && o.decision.limit == c.policies[key].limit
  {
    hide Run, Fits, Bucket.Step;
    var s := Run(c, acts);
    if key in c.policies {
      Bucket.AnswerForm(c.policies[key], Stored(c, s, key), s.clock, cost, Room(c, s));
      ServiceAdmissionLaw(c, acts, key, cost);
    }
  }

  lemma LevelWithinCap(p: Policy, h: seq<Charge>, t: int, cost: int)
    requires ValidPolicy(p)
    ensures cost * p.window <= Level(p, h, t) ==> cost <= p.limit
  {
    CoveredByCap(p, cost);
  }

  // ---- Billing ----

  predicate Bills(row: Row, key: Key, lo: int, hi: int) {
    row.clientID == key.clientID && row.resource == key.resource && lo <= row.approvedAtMS <= hi
  }

  /** The cost of the rows with IDs below `n`, for one key, approved in [lo, hi]. */
  function Billed(table: map<nat, Row>, n: nat, key: Key, lo: int, hi: int): int {
    if n == 0 then 0
    else
      Billed(table, n - 1, key, lo, hi)
      + (if n - 1 in table && Bills(table[n - 1], key, lo, hi) then table[n - 1].cost else 0)
  }

  /** Rows that are events of the history bill no more than the history charged. */
  lemma {:induction false} BilledWithinCharges(history: seq<Appended>, table: map<nat, Row>, key: Key, lo: int, hi: int)
    requires forall id <- table :: id < |history| ==> RowExact(history, id, table[id])
    requires forall id :: 0 <= id < |history| ==> 0 < history[id].event.cost
    ensures Billed(table, |history|, key, lo, hi) <= CostIn(KeyCharges(history, key), lo, hi)
  {
    if history != [] {
      var n := |history| - 1;
      forall id | id in table && id < n ensures RowExact(history[..n], id, table[id]) {
        assert RowExact(history, id, table[id]);
      }
      BilledWithinCharges(history[..n], table, key, lo, hi);
      var e := history[n].event;
      assert n in table ==> RowExact(history, n, table[n]);
      KeyChargesAppend(history[..n], history[n], key);
      assert history[..n] + [history[n]] == history;
      if IsFor(e, key) {
        CostInAppend(KeyCharges(history[..n], key), Charge(e.approvedAtMS, e.cost), lo, hi);
      } else {
        assert KeyCharges(history, key) == KeyCharges(history[..n], key);
      }
    }
  }

  /** A table with a row for every event bills exactly what was charged. */
  lemma {:induction false} BilledIsCharges(history: seq<Appended>, table: map<nat, Row>, key: Key, lo: int, hi: int)
    requires forall id :: 0 <= id < |history| ==> id in table && RowExact(history, id, table[id])
    ensures Billed(table, |history|, key, lo, hi) == CostIn(KeyCharges(history, key), lo, hi)
  {
    if history != [] {
      var n := |history| - 1;
      forall id | 0 <= id < n ensures id in table && RowExact(history[..n], id, table[id]) {
        assert RowExact(history, id, table[id]);
      }
      BilledIsCharges(history[..n], table, key, lo, hi);
      var e := history[n].event;
      assert RowExact(history, n, table[n]);
      KeyChargesAppend(history[..n], history[n], key);
      assert history[..n] + [history[n]] == history;
      if IsFor(e, key) {
        CostInAppend(KeyCharges(history[..n], key), Charge(e.approvedAtMS, e.cost), lo, hi);
      } else {
        assert KeyCharges(history, key) == KeyCharges(history[..n], key);
      }
    }
  }

  /** Conservation: once the stream is empty, what is billed is exactly what was approved. */
  lemma {:induction false} DrainedBillsCharges(c: Config, acts: seq<Action>, key: Key, lo: int, hi: int)
    requires ValidConfig(c) && Run(c, acts).store.stream == map[]
    ensures var s := Run(c, acts);
            BilledIn(s, key, lo, hi) == CostIn(KeyCharges(s.history, key), lo, hi)
  {
    hide Run, Billed, KeyCharges;
    var s := Run(c, acts);
    RunKeepsInv(c, acts);
    forall id | 0 <= id < |s.history| ensures id in s.store.table && RowExact(s.history, id, s.store.table[id]) {
      NoLossNoDuplication(c, acts, id);
    }
    BilledIsCharges(s.history, s.store.table, key, lo, hi);
  }

  /** Only positive costs are ever appended. */
  lemma {:induction false} CostsPositive(c: Config, acts: seq<Action>, id: nat)
    requires ValidConfig(c) && id < |Run(c, acts).history|
    ensures 0 < Run(c, acts).history[id].event.cost
  {
    hide Encode, Bucket.Respond, Bucket.Settle;
    if acts != [] {
      var n := |acts| - 1;
      var s := Run(c, acts[..n]);
      if id < |s.history| {
        CostsPositive(c, acts[..n], id);
      }
    }
  }

  /** An envelope over a window rounded up to milliseconds is within the unrounded one. */
  lemma UnroundedEnvelope(limit: int, window: int, windowMS: int, cost: int, lengthMS: int)
    requires limit > 0 && window > 0 && window <= windowMS * MS && 0 <= lengthMS
    requires cost * windowMS <= limit * windowMS + limit * lengthMS
    ensures cost * window <= limit * window + limit * (lengthMS * MS)
  {
    var over := cost - limit;
    DistributeCost(limit, over, windowMS);
    DistributeCost(limit, over, window);
    MulMonotone(0, lengthMS * MS, limit);
    if over <= 0 {
      MulMonotone(over, 0, window);
    } else {
      MulMonotone(window, windowMS * MS, over);
      assert over * (windowMS * MS) == (over * windowMS) * MS;
      assert limit * (lengthMS * MS) == (limit * lengthMS) * MS;
    }
  }

  /** What the durable rows of a key, approved in [lo, hi], cost. */
  function BilledIn(s: System, key: Key, lo: int, hi: int): int {
    Billed(s.store.table, |s.history|, key, lo, hi)
  }

  /** The envelope in the script's terms: milliseconds, with the window rounded up. */
  lemma {:induction false} ScriptEnvelope(c: Config, acts: seq<Action>, key: Key, lo: int, hi: int)
    requires ValidConfig(c) && key in c.policies && lo <= hi
    ensures var p := Bucket.ScriptPolicy(c.policies[key]);
            BilledIn(Run(c, acts), key, lo, hi) * p.window <= p.limit * p.window + p.limit * (hi - lo)
  {
    var s, p := Run(c, acts), Bucket.ScriptPolicy(c.policies[key]);
    RunKeepsInv(c, acts);
    forall id | id in s.store.table ensures RowExact(s.history, id, s.store.table[id]) {
    }
    forall id | 0 <= id < |s.history| ensures 0 < s.history[id].event.cost {
      CostsPositive(c, acts, id);
    }
    BilledWithinCharges(s.history, s.store.table, key, lo, hi);
    ChargesEnvelope(c, acts, key, lo, hi);
    Bucket.ScriptPolicyValid(c.policies[key]);
    MulMonotone(Billed(s.store.table, |s.history|, key, lo, hi), CostIn(KeyCharges(s.history, key), lo, hi), p.window);
  }

  /**
   The billing envelope. In every reachable state, for any key and any interval [lo, hi] of
   milliseconds, the durable rows approved in it cost at most the limit plus the refill of
   the interval, whichever instances approved and however often workers redelivered: over
   the window the policy configures, and over the longer one the script rounds it up to.
   */
  lemma {:induction false} BillingEnvelope(c: Config, acts: seq<Action>, key: Key, lo: int, hi: int)
    requires ValidConfig(c) && key in c.policies && lo <= hi
    ensures var s, p, windowMS := Run(c, acts), c.policies[key], CeilDiv(c.policies[key].window, MS);
            && (forall id <- s.store.table :: id < |s.history|)
            && BilledIn(s, key, lo, hi) * windowMS <= p.limit * windowMS + p.limit * (hi - lo)
            && BilledIn(s, key, lo, hi) * p.window <= p.limit * p.window + p.limit * ((hi - lo) * MS)
  {
    hide Run, CeilDiv, BilledIn;
    var s, p := Run(c, acts), c.policies[key];
    RunKeepsInv(c, acts);
    forall id | id in s.store.table ensures id < |s.history| {
      assert RowExact(s.history, id, s.store.table[id]);
    }
    ScriptEnvelope(c, acts, key, lo, hi);
    CeilDivBounds(p.window, MS);
    UnroundedEnvelope(p.limit, p.window, CeilDiv(p.window, MS), BilledIn(s, key, lo, hi), hi - lo);
  }

  /** The same envelope holds of everything approved, persisted yet or not. */
  lemma {:induction false} ChargesEnvelope(c: Config, acts: seq<Action>, key: Key, lo: int, hi: int)
    requires ValidConfig(c) && key in c.policies && lo <= hi
    ensures var s, p := Run(c, acts), Bucket.ScriptPolicy(c.policies[key]);
            CostIn(KeyCharges(s.history, key), lo, hi) * p.window <= p.limit * p.window + p.limit * (hi - lo)
  {
    var charges := Bucket.Run(c.policies[key], Project(c, acts, key)).charges;
    RunMirrors(c, acts, key);
    Bucket.RunIsBacked(c.policies[key], Project(c, acts, key));
    Bucket.ScriptPolicyValid(c.policies[key]);
    Envelope(Bucket.ScriptPolicy(c.policies[key]), charges, lo, hi);
    ApprovedCost(charges, lo, hi);
  }
}
