/**
 Approval events: what the script appends to the stream, and the decoder that turns a
 stream message into a table row (internal/events/event.go).
 */
module Events {
  import opened Limits

  /** What the script knows when it appends. */
  datatype Event = Event(clientID: Text, resource: Text, cost: int, approvedAtMS: int, remaining: int)

  /** The names "client_id", "resource", "cost", "approved_at_ms" and "remaining". */
  datatype Field = ClientID | Resource | Cost | ApprovedAtMS | Remaining

  /** The field values of a stream entry; fields under other names are never read. */
  type Message = map<Field, Text>

  datatype Row = Row(streamID: nat, clientID: Text, resource: Text, cost: int, approvedAtMS: int, remaining: int)

  datatype DecodeError = MissingField(field: Field) | InvalidField(field: Field) | OutOfRange(field: Field)

  datatype Decoded<+T> = Ok(value: T) | Bad(error: DecodeError)

  const MAX_INT32: int := 0x7fff_ffff
  const MAX_INT64: int := 0x7fff_ffff_ffff_ffff

  predicate Digit(b: byte) {
    48 <= b < 58
  }

  /** The decimal digits of a number. */
  function Digits(n: nat): Text {
    var last := [(48 + n % 10) as byte];
    if n < 10 then last else Digits(n / 10) + last
  }

  /** `tostring` of a whole number. */
  function Decimal(n: int): Text {
    if n < 0 then [45] + Digits(-n) else Digits(n)
  }

  function Value(digits: Text): int
    requires forall b <- digits :: Digit(b)
  {
    if digits == [] then 0
    else 10 * Value(digits[..|digits| - 1]) + (digits[|digits| - 1] as int - 48)
  }

  /** `strconv.ParseInt(s, 10, 64)`: an optional sign, then digits, within 64 bits. */
  function ParseInt(s: Text): Option<int> {
    if s == [] then None
    else
      var signed := s[0] == 43 || s[0] == 45;
      var digits := if signed then s[1..] else s;
      if digits == [] || exists b <- digits :: !Digit(b) then None
      else
        var n := if s[0] == 45 then -Value(digits) else Value(digits);
        if -MAX_INT64 - 1 <= n <= MAX_INT64 then Some(n) else None
  }

  /** A missing field and an empty one are the same error. */
  function StringField(m: Message, field: Field): Decoded<Text> {
    if field !in m || m[field] == [] then Bad(MissingField(field)) else Ok(m[field])
  }

  function IntegerField(m: Message, field: Field): Decoded<int> {
    var text := StringField(m, field);
    if text.Bad? then Bad(text.error)
    else
      var n := ParseInt(text.value);
      if n.None? then Bad(InvalidField(field)) else Ok(n.value)
  }

  function ApprovalRequest(id: nat, m: Message): Decoded<Row> {
    var cost := IntegerField(m, Cost);
    if cost.Bad? then Bad(cost.error) else
    var approvedAt := IntegerField(m, ApprovedAtMS);
    if approvedAt.Bad? then Bad(approvedAt.error) else
    var remaining := IntegerField(m, Remaining);
    if remaining.Bad? then Bad(remaining.error) else
    var clientID := StringField(m, ClientID);
    if clientID.Bad? then Bad(clientID.error) else
    var resource := StringField(m, Resource);
    if resource.Bad? then Bad(resource.error) else
    if cost.value <= 0 || cost.value > MAX_INT32 then Bad(OutOfRange(Cost))
    else if remaining.value < 0 || remaining.value > MAX_INT32 then Bad(OutOfRange(Remaining))
    else Ok(Row(id, clientID.value, resource.value, cost.value, approvedAt.value, remaining.value))
  }

  /** The fields of the script's XADD. */
  function Encode(e: Event): Message {
    map[ClientID := e.clientID,
        Resource := e.resource,
        Cost := Decimal(e.cost),
        ApprovedAtMS := Decimal(e.approvedAtMS),
        Remaining := Decimal(e.remaining)]
  }

  function RowOf(id: nat, e: Event): Row {
    Row(id, e.clientID, e.resource, e.cost, e.approvedAtMS, e.remaining)
  }

  /** Exactly the events whose row fits the table's columns. */
  predicate Storable(e: Event) {
    && e.clientID != [] && e.resource != []
    && 0 < e.cost <= MAX_INT32
    && 0 <= e.remaining <= MAX_INT32
    && -MAX_INT64 - 1 <= e.approvedAtMS <= MAX_INT64
  }

  lemma {:induction false} DigitsRoundTrip(n: nat)
    ensures Digits(n) != [] && (forall b <- Digits(n) :: Digit(b))
    ensures Value(Digits(n)) == n
  {
    var last := [(48 + n % 10) as byte];
    if n < 10 {
      assert last[..0] == [];
    } else {
      DigitsRoundTrip(n / 10);
      assert Digits(n)[..|Digits(n)| - 1] == Digits(n / 10);
    }
  }

  /** Parsing undoes printing, except that 64 bits may not hold the number. */
  lemma DecimalRoundTrip(n: int)
    ensures ParseInt(Decimal(n)) == if -9223372036854775808 <= n <= 9223372036854775807 then Some(n) else None
    ensures Decimal(n) != []
  {
    if n < 0 {
      DigitsRoundTrip(-n);
      assert ([45] + Digits(-n))[1..] == Digits(-n);
    } else {
      DigitsRoundTrip(n);
      assert Digit(Digits(n)[0]);
    }
  }

  /** Signs, leading zeros, no digits and strange characters: "-120", "+07", "-" and "1x". */
  lemma DecimalExamples()
    ensures Decimal(-120) == [45, 49, 50, 48]
    ensures ParseInt([45, 49, 50, 48]) == Some(-120) && ParseInt([43, 48, 55]) == Some(7)
    ensures ParseInt([45]) == None && ParseInt([49, 120]) == None
  {
    DecimalRoundTrip(-120);
    assert Digits(120) == Digits(12) + [48] && Digits(12) == Digits(1) + [50];
    var seven: Text := [43, 48, 55];
    assert seven[1..] == [48, 55];
    assert Value([48, 55]) == 10 * Value([48, 55][..1]) + 7 && Value([48]) == 10 * Value([48][..0]) + 0;
    assert [48, 55][..1] == [48];
    var odd: Text := [49, 120];
    assert !Digit(odd[1]);
  }

  /** The order in which fields are read. */
  const READ_ORDER: seq<Field> := [Cost, ApprovedAtMS, Remaining, ClientID, Resource]

  /** The field is there, is not empty, and is a 64-bit number where one is wanted. */
  predicate Readable(m: Message, field: Field) {
    && field in m && m[field] != []
    && (field == Cost || field == ApprovedAtMS || field == Remaining ==> ParseInt(m[field]).Some?)
  }

  /**
   What the decoder makes of any message: a row of the named fields if all are readable
   and cost and remaining are in range, and otherwise the error of the first that is not.
   */
  lemma DecodeExact(id: nat, m: Message)
    ensures var r := ApprovalRequest(id, m);
            match r
            case Ok(row) =>
              && (forall f <- READ_ORDER :: Readable(m, f))
              && row.streamID == id && row.clientID == m[ClientID] && row.resource == m[Resource]
              && Some(row.cost) == ParseInt(m[Cost]) && 0 < row.cost <= 2147483647
              && Some(row.approvedAtMS) == ParseInt(m[ApprovedAtMS])
              && Some(row.remaining) == ParseInt(m[Remaining]) && 0 <= row.remaining <= 2147483647
            case Bad(OutOfRange(f)) =>
              && (forall g <- READ_ORDER :: Readable(m, g))
              && (f == Cost <==> !(0 < ParseInt(m[Cost]).value <= 2147483647))
              && (f != Cost ==> f == Remaining && !(0 <= ParseInt(m[Remaining]).value <= 2147483647))
            case Bad(MissingField(f)) => FirstUnreadable(m, f) && (f in m ==> m[f] == [])
            case Bad(InvalidField(f)) => FirstUnreadable(m, f) && f in m && m[f] != []
  {
    hide ParseInt;
    var r := ApprovalRequest(id, m);
    if r.Bad? && !r.error.OutOfRange? {
      var i := match r.error.field case Cost => 0 case ApprovedAtMS => 1 case Remaining => 2 case ClientID => 3 case Resource => 4;
      assert READ_ORDER[i] == r.error.field && !Readable(m, r.error.field);
      assert forall j :: 0 <= j < i ==> Readable(m, READ_ORDER[j]);
    }
  }

  predicate FirstUnreadable(m: Message, field: Field) {
    exists i :: 0 <= i < |READ_ORDER| && READ_ORDER[i] == field && !Readable(m, field)
                && forall j :: 0 <= j < i ==> Readable(m, READ_ORDER[j])
  }

  /**
   The codec round trip: the decoder accepts what the script encodes if and only if the
   event fits the table, and then yields the same client, resource, cost, time and
   remaining.
   */
  lemma CodecRoundTrip(id: nat, e: Event)
    ensures ApprovalRequest(id, Encode(e)).Ok? <==> Storable(e)
    ensures Storable(e) <==>
            && e.clientID != [] && e.resource != []
            && 0 < e.cost <= 2147483647 && 0 <= e.remaining <= 2147483647
            && -9223372036854775808 <= e.approvedAtMS <= 9223372036854775807
    ensures Storable(e) ==> ApprovalRequest(id, Encode(e)) == Ok(RowOf(id, e))
  {
    DecimalRoundTrip(e.cost);
    DecimalRoundTrip(e.approvedAtMS);
    DecimalRoundTrip(e.remaining);
  }
}
