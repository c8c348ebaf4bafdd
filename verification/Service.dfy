/**
 The whole service as one transition system: any number of API instances running the
 script, Redis expiring keys, and any number of workers moving events to the table.

 A call of `persistMessages` is a session. A session may stop at any point (a crash, an
 error, a lost reply), several sessions may hold the same entries, and a command whose
 sender gave up may still take effect later: every interleaving of these steps is a run.
 A check's reply may be lost as well; its effect on the state is the same, and its caller is
 answered with an error (`LimiterAnswer`).
 */
module Service {
  import opened Arithmetic
  import opened Limits
  import opened History
  import opened Events
  import opened Pipeline
  import RedisKeys
  import Bucket = RedisBucket

  /** Shared by every API instance. */
  datatype Config = Config(policies: map<Key, Policy>, maxBacklog: int, prefix: string)

  predicate ValidConfig(c: Config) {
    ValidPolicies(c.policies) && c.maxBacklog > 0
  }

  datatype Session = Holding(batch: seq<XMessage>) | Committed(ids: set<nat>)

  /** An event and the fields it was appended with. */
  datatype Appended = Appended(event: Event, fields: Message)

  /** `history` records every event ever appended; an event's stream ID is its index. */
  datatype System = System(
    clock: int,
    buckets: map<string, Bucket.Bucket>,
    history: seq<Appended>,
    store: Store,
    sessions: map<nat, Session>)

  datatype Action =
    | Tick(to: int)
    | Check(key: Key, cost: int)
    | Expire(name: string)
    | EnsureGroup
    | Read(session: nat, count: nat)
    | Take(session: nat, ids: seq<nat>)
    | Insert(session: nat)
    | Cleanup(session: nat)
    | Crash(session: nat)

  function Stored(c: Config, s: System, key: Key): Option<Bucket.Bucket> {
    var name := RedisKeys.RedisKey(c.prefix, key);
    if name in s.buckets then Some(s.buckets[name]) else None
  }

  function Put(buckets: map<string, Bucket.Bucket>, name: string, b: Option<Bucket.Bucket>): map<string, Bucket.Bucket> {
    if b.Some? then buckets[name := b.value] else buckets - {name}
  }

  predicate Room(c: Config, s: System) {
    |s.store.stream| < c.maxBacklog
  }

  /** What an API instance answers to a check in this state. */
  function Answer(c: Config, s: System, key: Key, cost: int): Outcome
    requires ValidConfig(c)
  {
    if key in c.policies then Bucket.Step(c.policies[key], Stored(c, s, key), s.clock, cost, Room(c, s)).1
    else Refused(if cost <= 0 then InvalidCost else NoPolicy)
  }

  /**
   What becomes of one call of the Redis limiter: its context has already ended, the script
   never runs, the script runs and the reply is lost, or the reply arrives.
   */
  datatype Fate = ContextEnded | NeverRan | ReplyLost | Replied

  /** Refused by the instance itself, before Redis is called. */
  predicate Rejected(c: Config, key: Key, cost: int) {
    cost <= 0 || key !in c.policies || cost > c.policies[key].limit
  }

  /** What the Redis limiter returns to its caller. */
  function LimiterAnswer(c: Config, s: System, key: Key, cost: int, fate: Fate): Outcome
    requires ValidConfig(c)
  {
    if fate == ContextEnded then Refused(Cancelled)
    else if fate == Replied || Rejected(c, key, cost) then Answer(c, s, key, cost)
    else Refused(CallFailed)
  }

  /** What the call does to the service: the script's step whenever the script ran. */
  function LimiterEffect(c: Config, s: System, key: Key, cost: int, fate: Fate): System
    requires ValidConfig(c)
  {
    if fate == ReplyLost || fate == Replied then Apply(c, s, Check(key, cost)) else s
  }

  function Append(s: System, e: Event): System {
    s.(history := s.history + [Appended(e, Encode(e))],
       store := s.store.(stream := s.store.stream[|s.history| := Encode(e)]))
  }

  function ApprovalOf(s: System, key: Key, cost: int, d: Decision): Event {
    Event(key.clientID, key.resource, cost, s.clock, d.remaining)
  }

  function ApplyCheck(c: Config, s: System, key: Key, cost: int): System
    requires ValidConfig(c)
  {
    if key !in c.policies then s
    else
      var (b, o) := Bucket.Step(c.policies[key], Stored(c, s, key), s.clock, cost, Room(c, s));
      var written := s.(buckets := Put(s.buckets, RedisKeys.RedisKey(c.prefix, key), b));
      if Allowed(o) then Append(written, ApprovalOf(s, key, cost, o.decision)) else written
  }

  function ApplyExpire(s: System, name: string): System {
    if name in s.buckets then
      s.(buckets := Put(s.buckets, name, Bucket.Removed(Some(s.buckets[name]), s.clock)))
    else s
  }

  /** A fresh session receives a batch. */
  function Open(s: System, session: nat, delivered: (Store, seq<XMessage>)): System {
    if session in s.sessions then s
    else s.(store := delivered.0, sessions := s.sessions[session := Holding(delivered.1)])
  }

  function ApplyInsert(s: System, session: nat): System {
    if session in s.sessions && s.sessions[session].Holding? then
      var batch := s.sessions[session].batch;
      var rows := DecodeAll(batch);
      if rows.Bad? then s
      else s.(store := Commit(s.store, rows.value), sessions := s.sessions[session := Committed(Ids(batch))])
    else s
  }

  function ApplyCleanup(s: System, session: nat): System {
    if session in s.sessions && s.sessions[session].Committed? then
      s.(store := Remove(s.store, s.sessions[session].ids), sessions := s.sessions - {session})
    else s
  }

  /** One atomic step; an action that is not enabled leaves the state unchanged. */
  function Apply(c: Config, s: System, a: Action): System
    requires ValidConfig(c)
  {
    match a
    case Tick(to) => s.(clock := Max(s.clock, to))
    case Check(key, cost) => ApplyCheck(c, s, key, cost)
    case Expire(name) => ApplyExpire(s, name)
    case EnsureGroup => s.(store := s.store.(grouped := true))
    case Read(session, count) => Open(s, session, ReadGroup(s.store, count))
    case Take(session, ids) => Open(s, session, Claim(s.store, ids))
    case Insert(session) => ApplyInsert(s, session)
    case Cleanup(session) => ApplyCleanup(s, session)
    case Crash(session) => s.(sessions := s.sessions - {session})
  }

  const START: System := System(0, map[], [], EMPTY, map[])

  function Run(c: Config, acts: seq<Action>): System
    requires ValidConfig(c)
  {
    if acts == [] then START else Apply(c, Run(c, acts[..|acts| - 1]), acts[|acts| - 1])
  }

  /** What happens around the checks and the workers: time, expiry, the group, crashes. */
  lemma EnvironmentActs(c: Config, s: System, to: int, name: string, session: nat)
    requires ValidConfig(c)
    ensures s.clock <= to ==> Apply(c, s, Tick(to)) == s.(clock := to)
    ensures to < s.clock ==> Apply(c, s, Tick(to)) == s
    ensures var expired := name in s.buckets && s.buckets[name].expireAtMS <= s.clock;
            Apply(c, s, Expire(name)) == if expired then s.(buckets := s.buckets - {name}) else s
    ensures var t := Apply(c, s, EnsureGroup);
            t.store.grouped && t == s.(store := s.store.(grouped := true))
    ensures Apply(c, s, Crash(session)) == s.(sessions := s.sessions - {session})
  {
    if name in s.buckets {
      assert s.buckets[name := s.buckets[name]] == s.buckets;
    }
  }

  // ---- What every step keeps ----

  /** Entry `id` was appended with these fields. */
  predicate WasAppended(history: seq<Appended>, id: nat, fields: Message) {
    id < |history| && fields == history[id].fields
  }

  /** A row is exactly the decoded event with its ID. */
  predicate RowExact(history: seq<Appended>, id: nat, row: Row) {
    id < |history| && Storable(history[id].event) && row == RowOf(id, history[id].event)
  }

  predicate HistoryEncoded(history: seq<Appended>) {
    forall id :: 0 <= id < |history| ==> EncodedAt(history, id)
  }

  predicate EncodedAt(history: seq<Appended>, id: nat)
    requires id < |history|
  {
    history[id].fields == Encode(history[id].event)
  }

  /** A live entry is the event with its ID. */
  predicate StreamExact(s: System) {
    forall id <- s.store.stream :: WasAppended(s.history, id, s.store.stream[id])
  }

  predicate TableExact(s: System) {
    forall id <- s.store.table :: RowExact(s.history, id, s.store.table[id])
  }

  /** Every event ever appended is in the stream or in the table. */
  predicate NothingLost(s: System) {
    forall id :: 0 <= id < |s.history| ==> id in s.store.stream || id in s.store.table
  }

  /** Live entries are pending below the cursor and undelivered from it on. */
  predicate GroupSplit(s: Store) {
    && s.pending <= s.stream.Keys
    && forall id <- s.stream :: id < s.cursor <==> id in s.pending
  }

  predicate BatchSound(history: seq<Appended>, batch: seq<XMessage>) {
    forall i :: 0 <= i < |batch| ==> WasAppended(history, batch[i].id, batch[i].values)
  }

  predicate SessionSound(s: System, session: Session) {
    match session
    case Holding(batch) => BatchSound(s.history, batch)
    case Committed(ids) => ids <= s.store.table.Keys
  }

  predicate SessionsSound(s: System) {
    forall w <- s.sessions :: SessionSound(s, s.sessions[w])
  }

  predicate Inv(c: Config, s: System) {
    && HistoryEncoded(s.history)
    && StreamExact(s)
    && TableExact(s)
    && NothingLost(s)
    && GroupSplit(s.store)
    && s.store.cursor <= |s.history|
    && SessionsSound(s)
    && |s.store.stream| <= c.maxBacklog
  }

  /** Sessions stay sound when the history and the table only grow. */
  lemma SessionStaysSound(s: System, t: System, session: Session)
    requires SessionSound(s, session)
    requires s.history <= t.history && s.store.table.Keys <= t.store.table.Keys
    ensures SessionSound(t, session)
  {
    if session.Holding? {
      var batch := session.batch;
      forall i | 0 <= i < |batch| ensures WasAppended(t.history, batch[i].id, batch[i].values) {
        assert WasAppended(s.history, batch[i].id, batch[i].values);
      }
    }
  }

  lemma SessionsStaySound(s: System, t: System)
    requires SessionsSound(s)
    requires s.history <= t.history && s.store.table.Keys <= t.store.table.Keys
    requires forall w <- t.sessions :: (w in s.sessions && t.sessions[w] == s.sessions[w]) || SessionSound(t, t.sessions[w])
    ensures SessionsSound(t)
  {
    forall w | w in t.sessions ensures SessionSound(t, t.sessions[w]) {
      if w in s.sessions && t.sessions[w] == s.sessions[w] {
        SessionStaysSound(s, t, s.sessions[w]);
      }
    }
  }

  lemma AppendExact(s: System, e: Event)
    requires HistoryEncoded(s.history) && StreamExact(s) && TableExact(s)
    ensures var t := Append(s, e); HistoryEncoded(t.history) && StreamExact(t) && TableExact(t)
  {
    var t := Append(s, e);
    forall id | 0 <= id < |t.history| ensures EncodedAt(t.history, id) {
      assert id < |s.history| ==> EncodedAt(s.history, id);
    }
    forall id | id in t.store.stream ensures WasAppended(t.history, id, t.store.stream[id]) {
      assert id in s.store.stream ==> WasAppended(s.history, id, s.store.stream[id]);
    }
    forall id | id in t.store.table ensures RowExact(t.history, id, t.store.table[id]) {
      assert RowExact(s.history, id, s.store.table[id]);
    }
  }

  lemma AppendKeepsInv(c: Config, s: System, e: Event)
    requires Inv(c, s) && Room(c, s)
    ensures Inv(c, Append(s, e))
  {
    var t := Append(s, e);
    AppendExact(s, e);
    SessionsStaySound(s, t);
    assert t.store.stream.Keys == s.store.stream.Keys + {|s.history|};
  }

  lemma CheckKeepsInv(c: Config, s: System, key: Key, cost: int)
    requires ValidConfig(c) && Inv(c, s)
    ensures Inv(c, ApplyCheck(c, s, key, cost))
  {
    if key in c.policies {
      var (b, o) := Bucket.Step(c.policies[key], Stored(c, s, key), s.clock, cost, Room(c, s));
      var written := s.(buckets := Put(s.buckets, RedisKeys.RedisKey(c.prefix, key), b));
      assert Inv(c, written) by {
        SameStoreKeepsInv(c, s, written);
      }
      if Allowed(o) {
        AppendKeepsInv(c, written, ApprovalOf(s, key, cost, o.decision));
      }
    }
  }

  lemma SameStoreKeepsInv(c: Config, s: System, t: System)
    requires Inv(c, s) && t.history == s.history && t.store == s.store
    requires forall w <- t.sessions :: w in s.sessions && t.sessions[w] == s.sessions[w]
    ensures Inv(c, t)
  {
    SessionsStaySound(s, t);
  }

  predicate Increasing(r: seq<nat>) {
    forall i, j :: 0 <= i < j < |r| ==> r[i] < r[j]
  }

  lemma {:induction false} IncreasingSize(r: seq<nat>)
    requires Increasing(r)
    ensures |Range(r)| == |r|
  {
    if r == [] {
      assert Range(r) == {};
    } else {
      var n := |r| - 1;
      IncreasingSize(r[..n]);
      assert r[n] !in Range(r[..n]);
      assert Range(r) == Range(r[..n]) + {r[n]};
    }
  }

  /** What COUNT selects: the right number of IDs, in increasing order. */
  lemma {:induction false} SmallestInOrder(ids: set<nat>, count: nat)
    ensures |Smallest(ids, count)| == Min(count, |ids|)
    ensures Increasing(Smallest(ids, count))
  {
    if count > 0 && ids != {} {
      var m := Least(ids);
      SmallestInOrder(ids - {m}, count - 1);
      var tail := Smallest(ids - {m}, count - 1);
      forall i | 0 <= i < |tail| ensures m < tail[i] {
        assert tail[i] in ids - {m};
      }
    }
  }

  /** ... and every ID not selected is above all that were. */
  lemma {:induction false} SmallestComeFirst(ids: set<nat>, count: nat, x: nat)
    requires x in ids && x !in Smallest(ids, count)
    ensures forall y <- Smallest(ids, count) :: y < x
  {
    if count > 0 && ids != {} {
      var m := Least(ids);
      var tail := Smallest(ids - {m}, count - 1);
      assert Smallest(ids, count) == [m] + tail;
      assert ([m] + tail)[0] == m;
      assert x != m;
      SmallestComeFirst(ids - {m}, count - 1, x);
    }
  }

  /** A read hands out entries from the cursor on and keeps the split. */
  lemma ReadSplits(s: Store, count: nat)
    requires GroupSplit(s)
    ensures GroupSplit(ReadGroup(s, count).0)
  {
    var t := ReadGroup(s, count).0;
    var ids := Smallest(Undelivered(s), count);
    if t != s {
      var last := ids[|ids| - 1];
      SmallestInOrder(Undelivered(s), count);
      assert last in Undelivered(s);
      forall id | id in s.stream ensures id < t.cursor <==> id in t.pending {
        if id in ids {
          var i :| 0 <= i < |ids| && ids[i] == id;
        } else if s.cursor <= id {
          SmallestComeFirst(Undelivered(s), count, id);
          assert last in ids;
        }
      }
    }
  }

  lemma ReadSound(s: System, count: nat)
    requires StreamExact(s) && s.store.cursor <= |s.history|
    ensures BatchSound(s.history, ReadGroup(s.store, count).1)
    ensures ReadGroup(s.store, count).0.cursor <= |s.history|
  {
    var ids := Smallest(Undelivered(s.store), count);
    if s.store.grouped && ids != [] {
      forall i | 0 <= i < |ids|
        ensures ids[i] in s.store.stream && WasAppended(s.history, ids[i], s.store.stream[ids[i]])
      {
        assert ids[i] in Undelivered(s.store);
      }
    }
  }

  lemma ReadKeepsInv(c: Config, s: System, session: nat, count: nat)
    requires Inv(c, s)
    ensures Inv(c, Open(s, session, ReadGroup(s.store, count)))
  {
    ReadSplits(s.store, count);
    ReadSound(s, count);
    SessionsStaySound(s, Open(s, session, ReadGroup(s.store, count)));
  }

  lemma {:induction false} HeldSound(s: System, ids: seq<nat>)
    requires StreamExact(s)
    ensures BatchSound(s.history, Held(s.store, ids))
  {
    if ids != [] {
      HeldSound(s, ids[..|ids| - 1]);
    }
  }

  lemma TakeKeepsInv(c: Config, s: System, session: nat, ids: seq<nat>)
    requires Inv(c, s)
    ensures Inv(c, Open(s, session, Claim(s.store, ids)))
  {
    HeldSound(s, ids);
    assert Claim(s.store, ids).0.pending == s.store.pending;
    SessionsStaySound(s, Open(s, session, Claim(s.store, ids)));
  }

  /** A message that was appended decodes exactly when its event fits the table. */
  lemma DecodedRow(history: seq<Appended>, m: XMessage)
    requires HistoryEncoded(history) && WasAppended(history, m.id, m.values)
    ensures ApprovalRequest(m.id, m.values).Ok? <==> Storable(history[m.id].event)
    ensures ApprovalRequest(m.id, m.values).Ok? ==> RowExact(history, m.id, ApprovalRequest(m.id, m.values).value)
  {
    assert EncodedAt(history, m.id);
    CodecRoundTrip(m.id, history[m.id].event);
  }

  /** Decoding a sound batch yields the rows of its events. */
  lemma {:induction false} DecodedRows(history: seq<Appended>, batch: seq<XMessage>)
    requires HistoryEncoded(history) && BatchSound(history, batch) && DecodeAll(batch).Ok?
    ensures forall i :: 0 <= i < |batch| ==> RowExact(history, batch[i].id, DecodeAll(batch).value[i])
  {
    hide ApprovalRequest, Storable, RowOf;
    if batch != [] {
      var n := |batch| - 1;
      assert batch[..n + 1] == batch;
      DecodeNext(batch, n);
      DecodedRows(history, batch[..n]);
      DecodedRow(history, batch[n]);
    }
  }

  /** Idempotent inserts keep every row there was and add exactly the new IDs. */
  lemma {:induction false} InsertAllFacts(table: map<nat, Row>, rows: seq<Row>)
    ensures var t := InsertAll(table, rows);
            && t.Keys == table.Keys + (set r <- rows :: r.streamID)
            && (forall id <- table :: t[id] == table[id])
            && (forall id <- t :: id in table || (t[id] in rows && t[id].streamID == id))
  {
    if rows != [] {
      var n := |rows| - 1;
      InsertAllFacts(table, rows[..n]);
      assert rows == rows[..n] + [rows[n]];
      assert (set r <- rows :: r.streamID) == (set r <- rows[..n] :: r.streamID) + {rows[n].streamID};
    }
  }

  lemma {:induction false} SameIds(batch: seq<XMessage>, rows: seq<Row>)
    requires |rows| == |batch| && forall i :: 0 <= i < |batch| ==> rows[i].streamID == batch[i].id
    ensures (set r <- rows :: r.streamID) == Ids(batch)
  {
    forall i | 0 <= i < |batch| ensures batch[i].id in (set r <- rows :: r.streamID) {
      assert rows[i] in rows;
    }
    forall r | r in rows ensures r.streamID in Ids(batch) {
      var i :| 0 <= i < |rows| && rows[i] == r;
      assert batch[i] in batch;
    }
  }

  lemma {:induction false} InsertExact(history: seq<Appended>, table: map<nat, Row>, batch: seq<XMessage>, rows: seq<Row>)
    requires forall id <- table :: RowExact(history, id, table[id])
    requires |rows| == |batch| && forall i :: 0 <= i < |batch| ==> RowExact(history, batch[i].id, rows[i])
    ensures InsertAll(table, rows).Keys == table.Keys + Ids(batch)
    ensures forall id <- InsertAll(table, rows) :: RowExact(history, id, InsertAll(table, rows)[id])
  {
    var t := InsertAll(table, rows);
    InsertAllFacts(table, rows);
    SameIds(batch, rows);
    forall id | id in t ensures RowExact(history, id, t[id]) {
      if id !in table {
        var i :| 0 <= i < |rows| && rows[i] == t[id];
        assert RowExact(history, batch[i].id, rows[i]);
      }
    }
  }

  lemma InsertKeepsInv(c: Config, s: System, session: nat)
    requires Inv(c, s)
    ensures Inv(c, ApplyInsert(s, session))
  {
    if session in s.sessions && s.sessions[session].Holding? {
      var batch := s.sessions[session].batch;
      var rows := DecodeAll(batch);
      if rows.Ok? {
        assert SessionSound(s, s.sessions[session]);
        DecodedRows(s.history, batch);
        InsertExact(s.history, s.store.table, batch, rows.value);
        SessionsStaySound(s, ApplyInsert(s, session));
      }
    }
  }

  lemma CleanupKeepsInv(c: Config, s: System, session: nat)
    requires Inv(c, s)
    ensures Inv(c, ApplyCleanup(s, session))
  {
    var t := ApplyCleanup(s, session);
    if session in s.sessions && s.sessions[session].Committed? {
      assert SessionSound(s, s.sessions[session]);
      assert t.store.stream.Keys == s.store.stream.Keys - s.sessions[session].ids;
      SessionsStaySound(s, t);
    }
  }

  lemma StepKeepsInv(c: Config, s: System, a: Action)
    requires ValidConfig(c) && Inv(c, s)
    ensures Inv(c, Apply(c, s, a))
  {
    match a
    case Tick(to) => SameStoreKeepsInv(c, s, Apply(c, s, a));
    case Check(key, cost) => CheckKeepsInv(c, s, key, cost);
    case Expire(name) => SameStoreKeepsInv(c, s, Apply(c, s, a));
    case EnsureGroup =>
      SessionsStaySound(s, Apply(c, s, a));
    case Read(session, count) => ReadKeepsInv(c, s, session, count);
    case Take(session, ids) => TakeKeepsInv(c, s, session, ids);
    case Insert(session) => InsertKeepsInv(c, s, session);
    case Cleanup(session) => CleanupKeepsInv(c, s, session);
    case Crash(session) => SameStoreKeepsInv(c, s, Apply(c, s, a));
  }

  lemma ClockAdvances(c: Config, s: System, a: Action)
    requires ValidConfig(c)
    ensures s.clock <= Apply(c, s, a).clock
  {
    hide Bucket.Step, Encode, ReadGroup, Claim, DecodeAll;
  }

  lemma StartKeepsInv(c: Config)
    requires ValidConfig(c)
    ensures Inv(c, START)
  {
  }

  /** The invariant holds in every reachable state, and the clock never goes below its start. */
  lemma {:induction false} RunKeepsInv(c: Config, acts: seq<Action>)
    requires ValidConfig(c)
    ensures Inv(c, Run(c, acts)) && 0 <= Run(c, acts).clock
  {
    hide Inv, Apply;
    StartKeepsInv(c);
    if acts != [] {
      RunKeepsInv(c, acts[..|acts| - 1]);
      StepKeepsInv(c, Run(c, acts[..|acts| - 1]), acts[|acts| - 1]);
      ClockAdvances(c, Run(c, acts[..|acts| - 1]), acts[|acts| - 1]);
    }
  }
}
