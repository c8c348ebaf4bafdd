/**
 The stores behind the approval pipeline and the worker that moves events between them
 (internal/events/persist.go, internal/events/processor.go, sql/queries/approved_requests.sql).

 Stream IDs are the naturals in order of appending: only their order and equality matter.
 */
module Pipeline {
  import opened Arithmetic
  import opened Limits
  import opened Events

  datatype XMessage = XMessage(id: nat, values: Message)

  /**
   Redis' stream with its one consumer group, and the PostgreSQL table. The group has
   delivered every ID below `cursor`; `pending` holds those not acknowledged.
   */
  datatype Store = Store(
    stream: map<nat, Message>,
    grouped: bool,
    cursor: nat,
    pending: set<nat>,
    table: map<nat, Row>)

  const EMPTY: Store := Store(map[], false, 0, {}, map[])

  function Undelivered(s: Store): set<nat> {
    set id | id in s.stream && s.cursor <= id
  }

  predicate IsLeast(m: nat, ids: set<nat>) {
    m in ids && forall x <- ids :: m <= x
  }

  lemma {:induction false} LeastExists(ids: set<nat>)
    requires ids != {}
    ensures exists m :: IsLeast(m, ids)
  {
    var a :| a in ids;
    var rest := ids - {a};
    assert ids == rest + {a};
    if rest == {} {
      assert IsLeast(a, ids);
    } else {
      LeastExists(rest);
      var b :| IsLeast(b, rest);
      assert IsLeast(if a <= b then a else b, ids);
    }
  }

  function Least(ids: set<nat>): (m: nat)
    requires ids != {}
    ensures IsLeast(m, ids)
  {
    LeastExists(ids);
    var m :| IsLeast(m, ids);
    m
  }

  /** The `count` smallest IDs, in order: how COUNT limits a read or a claim. */
  function Smallest(ids: set<nat>, count: nat): (r: seq<nat>)
    ensures forall x <- r :: x in ids
  {
    if count == 0 || ids == {} then []
    else
      var m := Least(ids);
      [m] + Smallest(ids - {m}, count - 1)
  }

  function Range(ids: seq<nat>): set<nat> {
    set x <- ids
  }

  function Messages(s: Store, ids: seq<nat>): seq<XMessage>
    requires forall x <- ids :: x in s.stream
  {
    seq(|ids|, i requires 0 <= i < |ids| => XMessage(ids[i], s.stream[ids[i]]))
  }

  function Ids(batch: seq<XMessage>): set<nat> {
    set m <- batch :: m.id
  }

  /** XREADGROUP with ">": the next entries go to the reader and become pending. */
  function ReadGroup(s: Store, count: nat): (r: (Store, seq<XMessage>))
    ensures r.0.stream == s.stream && r.0.table == s.table
  {
    var ids := if s.grouped then Smallest(Undelivered(s), count) else [];
    if ids == [] then (s, [])
    else (s.(cursor := ids[|ids| - 1] + 1, pending := s.pending + Range(ids)), Messages(s, ids))
  }

  /** The pending, live entries among `ids`, as a claim returns them. */
  function Held(s: Store, ids: seq<nat>): seq<XMessage> {
    if ids == [] then []
    else
      var id := ids[|ids| - 1];
      Held(s, ids[..|ids| - 1])
      + (if id in s.pending && id in s.stream then [XMessage(id, s.stream[id])] else [])
  }

  /** XAUTOCLAIM over `ids`: entries whose message is gone leave the pending list. */
  function Claim(s: Store, ids: seq<nat>): (Store, seq<XMessage>) {
    (s.(pending := s.pending - (set id | id in ids && id !in s.stream)), Held(s, ids))
  }

  /** A claim returns exactly the pending, live entries it names, and forgets those that are gone. */
  lemma {:induction false} ClaimExact(s: Store, ids: seq<nat>)
    ensures var (t, batch) := Claim(s, ids);
            && (forall id, values :: XMessage(id, values) in batch <==>
                                     id in ids && id in s.pending && id in s.stream && s.stream[id] == values)
            && (forall id :: id in t.pending <==> id in s.pending && !(id in ids && id !in s.stream))
            && t == s.(pending := t.pending)
  {
    if ids != [] {
      var n := |ids| - 1;
      ClaimExact(s, ids[..n]);
      assert ids == ids[..n] + [ids[n]];
    }
  }

  /** Rows for a whole batch, or the first message's error. */
  function DecodeAll(batch: seq<XMessage>): (r: Decoded<seq<Row>>)
    ensures r.Ok? ==> |r.value| == |batch|
  {
    if batch == [] then Ok([])
    else
      var m := batch[|batch| - 1];
      var before := DecodeAll(batch[..|batch| - 1]);
      if before.Bad? then before
      else
        var row := ApprovalRequest(m.id, m.values);
        if row.Bad? then Bad(row.error) else Ok(before.value + [row.value])
  }

  lemma {:induction false} DecodeNext(batch: seq<XMessage>, i: nat)
    requires i < |batch| && DecodeAll(batch[..i]).Ok?
    ensures var row := ApprovalRequest(batch[i].id, batch[i].values);
            DecodeAll(batch[..i + 1])
            == if row.Bad? then Bad(row.error) else Ok(DecodeAll(batch[..i]).value + [row.value])
    ensures Ids(batch[..i + 1]) == Ids(batch[..i]) + {batch[i].id}
  {
    assert batch[..i + 1][..i] == batch[..i];
  }

  lemma {:induction false} DecodePrefixBad(batch: seq<XMessage>, n: nat)
    requires n <= |batch| && DecodeAll(batch[..n]).Bad?
    ensures DecodeAll(batch) == DecodeAll(batch[..n])
  {
    if n == |batch| {
      assert batch[..n] == batch;
    } else {
      assert batch[..|batch| - 1][..n] == batch[..n];
      DecodePrefixBad(batch[..|batch| - 1], n);
    }
  }

  /** INSERT ... ON CONFLICT (stream_id) DO NOTHING. */
  function Insert(table: map<nat, Row>, row: Row): map<nat, Row> {
    if row.streamID in table then table else table[row.streamID := row]
  }

  function InsertAll(table: map<nat, Row>, rows: seq<Row>): map<nat, Row> {
    if rows == [] then table else Insert(InsertAll(table, rows[..|rows| - 1]), rows[|rows| - 1])
  }

  function Commit(s: Store, rows: seq<Row>): Store {
    s.(table := InsertAll(s.table, rows))
  }

  /** XACK and XDEL of the same IDs, as one transaction. */
  function Remove(s: Store, ids: set<nat>): Store {
    s.(stream := s.stream - ids, pending := s.pending - ids)
  }

  /** A command can succeed, be lost, or take effect and still be reported as failed. */
  datatype Fault = Fine | Lost | Misreported

  datatype PersistFaults = PersistFaults(beginFails: bool, insertFails: Option<nat>, commit: Fault, cleanup: Fault)

  const NO_FAULTS: PersistFaults := PersistFaults(false, None, Fine, Fine)

  datatype WorkerError =
    | ReadFailed
    | DecodeFailed(cause: DecodeError)
    | BeginFailed
    | InsertFailed
    | CommitFailed
    | CleanupFailed

  datatype Progress = Progress(store: Store, count: nat, error: Option<WorkerError>)

  function Persist(s: Store, batch: seq<XMessage>, f: PersistFaults): Progress {
    if batch == [] then Progress(s, 0, None) else PersistDecoded(s, batch, DecodeAll(batch), f)
  }

  function PersistDecoded(s: Store, batch: seq<XMessage>, rows: Decoded<seq<Row>>, f: PersistFaults): Progress {
    if rows.Bad? then Progress(s, 0, Some(DecodeFailed(rows.error)))
    else if f.beginFails then Progress(s, 0, Some(BeginFailed))
    else if f.insertFails.Some? && f.insertFails.value < |rows.value| then Progress(s, 0, Some(InsertFailed))
    else if f.commit == Lost then Progress(s, 0, Some(CommitFailed))
    else
      var committed := Commit(s, rows.value);
      if f.commit == Misreported then Progress(committed, 0, Some(CommitFailed))
      else if f.cleanup == Lost then Progress(committed, 0, Some(CleanupFailed))
      else
        var removed := Remove(committed, Ids(batch));
        if f.cleanup == Misreported then Progress(removed, 0, Some(CleanupFailed))
        else Progress(removed, |batch|, None)
  }

  /** The batches of one reply in order, stopping at the first that fails. */
  function PersistEach(s: Store, batches: seq<seq<XMessage>>, f: seq<PersistFaults>): Progress
    requires |batches| == |f|
  {
    if batches == [] then Progress(s, 0, None)
    else
      var n := |batches| - 1;
      var before := PersistEach(s, batches[..n], f[..n]);
      if before.error.Some? then before
      else
        var last := Persist(before.store, batches[n], f[n]);
        Progress(last.store, before.count + (if last.error.Some? then 0 else last.count), last.error)
  }

  lemma {:induction false} PersistEachStops(s: Store, batches: seq<seq<XMessage>>, f: seq<PersistFaults>, n: nat)
    requires |batches| == |f| && n <= |batches|
    requires PersistEach(s, batches[..n], f[..n]).error.Some?
    ensures PersistEach(s, batches, f) == PersistEach(s, batches[..n], f[..n])
  {
    if n == |batches| {
      assert batches[..n] == batches && f[..n] == f;
    } else {
      var k := |batches| - 1;
      assert batches[..k][..n] == batches[..n] && f[..k][..n] == f[..n];
      PersistEachStops(s, batches[..k], f[..k], n);
    }
  }

  /** Reading for a group that does not exist is an error. */
  function Consume(s: Store, count: nat, read: Fault, f: PersistFaults): Progress {
    if read == Lost || !s.grouped then Progress(s, 0, Some(ReadFailed))
    else
      var (delivered, batch) := ReadGroup(s, count);
      if read == Misreported then Progress(delivered, 0, Some(ReadFailed))
      else Persist(delivered, batch, f)
  }

  /** Recovery of pending entries among `idle`, those last delivered at least `ClaimIdle` ago. */
  function Recover(s: Store, idle: set<nat>, count: nat, claim: Fault, f: PersistFaults): Progress {
    if claim == Lost || !s.grouped then Progress(s, 0, Some(ReadFailed))
    else
      var (claimed, batch) := Claim(s, Smallest(s.pending * idle, count));
      if claim == Misreported then Progress(claimed, 0, Some(ReadFailed))
      else Persist(claimed, batch, f)
  }

  datatype ProcessorConfig = ProcessorConfig(
    stream: string, group: string, consumer: string, batchSize: int, block: int, claimIdle: int)

  class Processor {
    const batchSize: nat
    var stream: map<nat, Message>
    var grouped: bool
    var cursor: nat
    var pending: set<nat>
    var table: map<nat, Row>

    constructor (batchSize: nat, s: Store)
      requires batchSize > 0
      ensures this.batchSize == batchSize && View() == s
    {
      this.batchSize := batchSize;
      stream, grouped, cursor, pending, table := s.stream, s.grouped, s.cursor, s.pending, s.table;
    }

    /** A worker, unless a name is missing or a size or duration is not positive. */
    static method New(config: ProcessorConfig, s: Store) returns (r: Option<Processor>)
      ensures r.Some? <==>
              && config.stream != "" && config.group != "" && config.consumer != ""
              && config.batchSize > 0 && config.block > 0 && config.claimIdle > 0
      ensures r.Some? ==> fresh(r.value) && r.value.batchSize == config.batchSize && r.value.View() == s
    {
      if config.stream == "" || config.group == "" || config.consumer == "" {
        return None;
      }
      if config.batchSize <= 0 || config.block <= 0 || config.claimIdle <= 0 {
        return None;
      }
      var processor := new Processor(config.batchSize, s);
      return Some(processor);
    }

    /** The stores as this worker sees them. */
    function View(): Store
      reads this
    {
      Store(stream, grouped, cursor, pending, table)
    }

    /** Creates the group at the start of the stream; one that exists is kept as it is. */
    method EnsureGroup(create: Fault) returns (failed: bool)
      modifies this`grouped
      ensures View() == old(View()).(grouped := old(grouped) || create != Lost)
      ensures failed <==> create != Fine
    {
      if create != Lost {
        grouped := true;
      }
      failed := create != Fine;
    }

    /** Parses every message, or stops at the first that does not parse. */
    static method ParseMessages(messages: seq<XMessage>) returns (rows: Decoded<seq<Row>>, ids: set<nat>)
      ensures rows == DecodeAll(messages)
      ensures rows.Ok? ==> ids == Ids(messages)
    {
      var requests: seq<Row> := [];
      ids := {};
      var i := 0;
      while i < |messages|
        invariant 0 <= i <= |messages|
        invariant DecodeAll(messages[..i]) == Ok(requests)
        invariant ids == Ids(messages[..i])
      {
        DecodeNext(messages, i);
        var request := ApprovalRequest(messages[i].id, messages[i].values);
        if request.Bad? {
          DecodePrefixBad(messages, i + 1);
          return Bad(request.error), ids;
        }
        requests := requests + [request.value];
        ids := ids + {messages[i].id};
        i := i + 1;
      }
      assert messages[..i] == messages;
      rows := Ok(requests);
    }

    /** Inserts every row in the open transaction, or fails at the one that cannot be. */
    static method InsertRows(table: map<nat, Row>, requests: seq<Row>, insertFails: Option<nat>)
      returns (tx: map<nat, Row>, ok: bool)
      ensures ok <==> !(insertFails.Some? && insertFails.value < |requests|)
      ensures ok ==> tx == InsertAll(table, requests)
    {
      tx := table;
      var i := 0;
      while i < |requests|
        invariant 0 <= i <= |requests|
        invariant tx == InsertAll(table, requests[..i])
        invariant insertFails.Some? ==> i <= insertFails.value
      {
        if insertFails == Some(i) {
          return tx, false;
        }
        assert requests[..i + 1][..i] == requests[..i];
        tx := Insert(tx, requests[i]);
        i := i + 1;
      }
      assert requests[..i] == requests;
      ok := true;
    }

    /** Parses all, inserts all in one transaction, commits, then removes exactly those IDs. */
    method PersistMessages(messages: seq<XMessage>, f: PersistFaults) returns (count: nat, error: Option<WorkerError>)
      modifies this`stream, this`pending, this`table
      ensures Progress(View(), count, error) == Persist(old(View()), messages, f)
    {
      count, error := 0, None;
      if |messages| == 0 {
        return;
      }
      var rows, ids := ParseMessages(messages);
      if rows.Bad? {
        error := Some(DecodeFailed(rows.error));
        return;
      }
      if f.beginFails {
        error := Some(BeginFailed);
        return;
      }
      var tx, ok := InsertRows(table, rows.value, f.insertFails);
      if !ok {
        error := Some(InsertFailed);
        return;
      }
      if f.commit != Lost {
        table := tx;
      }
      if f.commit != Fine {
        error := Some(CommitFailed);
        return;
      }
      if f.cleanup != Lost {
        pending := pending - ids;
        stream := stream - ids;
      }
      if f.cleanup != Fine {
        error := Some(CleanupFailed);
        return;
      }
      count := |messages|;
    }

    method PersistStreams(streams: seq<seq<XMessage>>, f: seq<PersistFaults>)
      returns (processed: nat, error: Option<WorkerError>)
      requires |streams| == |f|
      modifies this`stream, this`pending, this`table
      ensures Progress(View(), processed, error) == PersistEach(old(View()), streams, f)
    {
      hide Persist;
      processed, error := 0, None;
      var i := 0;
      while i < |streams|
        invariant 0 <= i <= |streams|
        invariant Progress(View(), processed, None) == PersistEach(old(View()), streams[..i], f[..i])
      {
        assert streams[..i + 1][..i] == streams[..i] && f[..i + 1][..i] == f[..i];
        var count, failure := PersistMessages(streams[i], f[i]);
        if failure.Some? {
          error := failure;
          PersistEachStops(old(View()), streams, f, i + 1);
          return;
        }
        processed := processed + count;
        i := i + 1;
      }
      assert streams[..i] == streams && f[..i] == f;
    }

    /** Reads up to a batch of new events and persists them. */
    method ConsumeNew(read: Fault, f: PersistFaults) returns (count: nat, error: Option<WorkerError>)
      modifies this
      ensures Progress(View(), count, error) == Consume(old(View()), batchSize, read, f)
    {
      count, error := 0, None;
      if read == Lost || !grouped {
        error := Some(ReadFailed);
        return;
      }
      var (delivered, batch) := ReadGroup(View(), batchSize);
      cursor, pending := delivered.cursor, delivered.pending;
      if read == Misreported {
        error := Some(ReadFailed);
        return;
      }
      if |batch| == 0 {
        return;
      }
      count, error := PersistStreams([batch], [f]);
      SingleBatch(delivered, batch, f);
    }

    /** Claims up to a batch of abandoned events and persists them. */
    method RecoverPending(idle: set<nat>, claim: Fault, f: PersistFaults) returns (count: nat, error: Option<WorkerError>)
      modifies this
      ensures Progress(View(), count, error) == Recover(old(View()), idle, batchSize, claim, f)
    {
      count, error := 0, None;
      if claim == Lost || !grouped {
        error := Some(ReadFailed);
        return;
      }
      var (claimed, batch) := Claim(View(), Smallest(pending * idle, batchSize));
      pending := claimed.pending;
      if claim == Misreported {
        error := Some(ReadFailed);
        return;
      }
      if |batch| == 0 {
        return;
      }
      count, error := PersistMessages(batch, f);
    }
  }

  lemma SingleBatch(s: Store, batch: seq<XMessage>, f: PersistFaults)
    ensures PersistEach(s, [batch], [f]) == Persist(s, batch, f)
  {
    assert [batch][..0] == [] && [f][..0] == [];
    assert PersistEach(s, [], []) == Progress(s, 0, None);
  }

  /** Each message's row in order, or the error of the first message that has none. */
  lemma {:induction false} DecodeAllExact(batch: seq<XMessage>)
    ensures match DecodeAll(batch)
            case Ok(rows) =>
              |rows| == |batch| && forall i :: 0 <= i < |batch| ==> ApprovalRequest(batch[i].id, batch[i].values) == Ok(rows[i])
            case Bad(error) =>
              exists i :: 0 <= i < |batch| && ApprovalRequest(batch[i].id, batch[i].values) == Bad(error)
                          && forall j :: 0 <= j < i ==> ApprovalRequest(batch[j].id, batch[j].values).Ok?
  {
    hide ApprovalRequest;
    if batch != [] {
      var n := |batch| - 1;
      DecodeAllExact(batch[..n]);
      assert forall i :: 0 <= i < n ==> batch[..n][i] == batch[i];
    }
  }

  /** The batch is inserted: it parses, no statement fails, and the commit is not lost. */
  predicate Commits(batch: seq<XMessage>, f: PersistFaults) {
    && DecodeAll(batch).Ok?
    && !f.beginFails
    && (f.insertFails.Some? ==> f.insertFails.value >= |batch|)
    && f.commit != Lost
  }

  /** The batch is then removed: the commit was reported, and the cleanup is not lost. */
  predicate Removes(batch: seq<XMessage>, f: PersistFaults) {
    Commits(batch, f) && f.commit == Fine && f.cleanup != Lost
  }

  /**
   Which effect goes with which fault. One call leaves the stores as it found them, or with
   the whole batch inserted, or with the whole batch inserted and then removed from the
   stream: never a part of a batch, and never a removal without the insert. It reports
   success exactly when nothing failed, and counts messages only then.
   */
  lemma {:induction false} PersistIsAtomic(s: Store, batch: seq<XMessage>, f: PersistFaults)
    requires batch != []
    ensures var r, rows := Persist(s, batch, f), DecodeAll(batch);
            && (!Commits(batch, f) ==> r.store == s)
            && (Commits(batch, f) && !Removes(batch, f) ==> r.store == Commit(s, rows.value))
            && (Removes(batch, f) ==> r.store == Remove(Commit(s, rows.value), Ids(batch)))
            && (r.error.None? <==> Removes(batch, f) && f.cleanup == Fine)
            && r.count == (if r.error.None? then |batch| else 0)
  {
  }

  /** How many of insert and cleanup a call performs. */
  function Performed(batch: seq<XMessage>, f: PersistFaults): (n: nat)
    ensures n <= 2
  {
    if batch == [] || !Commits(batch, f) then 0 else if Removes(batch, f) then 2 else 1
  }
}
