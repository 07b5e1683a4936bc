/**
 The request protocol: what a byte string at the front of a connection's buffer means, as one
 function of those bytes and the connection's mode.
 */
module Wire {
  import opened Basics
  import opened Decimal
  import opened Text
  import opened StoreSpec

  const U32_MAX: nat := 0xFFFF_FFFF
  const MAX_ROSTER_LINE_LEN: nat := 64
  const MAX_ROSTER_ENTRIES: nat := 65536

  datatype Member = Member(name: Bytes, addr: Bytes)

  datatype Command =
    | Auth(secret: Bytes, tagging: bool, retryCapable: bool)
    | GetKey(key: Key)
    | DeleteKey(key: Key)
    | SetKey(key: Key, value: Bytes, ttl: Option<nat>)
    | IncrKey(key: Key, delta: int)
    | CasSetKey(key: Key, condition: Condition, value: Bytes, ttl: Option<nat>)
    | CasDeleteKey(key: Key, expected: Bytes)
    | TouchKey(key: Key, ttl: Option<nat>, get: bool)
    | MultiGet(ns: Bytes, keys: seq<Bytes>)
    | MultiTouch(ns: Bytes, keys: seq<Bytes>, ttl: Option<nat>, get: bool)
    | MultiSet(ns: Bytes, keys: seq<Bytes>, values: seq<Bytes>, ttl: Option<nat>)
    | ClearNs(ns: Bytes)
    | ClearEverything
    | HandoffDeleteKey(key: Key, token: Bytes)
    | HandoffClear(all: bool, ns: Bytes, token: Bytes)
    | HandoffSetKey(key: Key, value: Bytes, ttl: Option<nat>, ifAbsent: bool, token: Bytes)
    | CancelMigration(token: Bytes, joiningName: Bytes)
    | Migrate(token: Bytes, joiningName: Bytes, joiningAddr: Bytes, joiningToken: Bytes, joined: seq<Member>,
              replication: nat, generation: Option<nat>)

  datatype Error = InvalidCommand | InvalidLength | EmptyKey | EmptySecret | EmptyField | InvalidUtf8

  datatype Result<+T> = Ok(value: T) | Fail(error: Error) {
    predicate IsFailure() {
      Fail?
    }

    function PropagateFailure<U>(): Result<U>
      requires Fail?
    {
      Fail(error)
    }

    function Extract(): T
      requires Ok?
    {
      value
    }
  }

  datatype Check = Pass | Stop(error: Error) {
    predicate IsFailure() {
      Stop?
    }

    function PropagateFailure<U>(): Result<U>
      requires Stop?
    {
      Fail(error)
    }
  }

  function Need(holds: bool, error: Error): Check {
    if holds then Pass else Stop(error)
  }

  // ---- header fields ----

  /** What a header line says apart from the lengths of the body's fields. */
  datatype Shape =
    | AuthShape(tagging: bool, retryCapable: bool)
    | GetShape
    | DeleteShape
    | SetShape(ttl: Option<nat>)
    | IncrShape(delta: int)
    | CasSetShape(condition: Condition, ttl: Option<nat>)
    | CasDeleteShape(expected: Bytes)
    | TouchShape(ttl: Option<nat>, get: bool)
    | MultiGetShape
    | MultiTouchShape(ttl: Option<nat>, get: bool)
    | MultiSetShape(ttl: Option<nat>)
    | ClearShape
    | ClearAllShape
    | HandoffDeleteShape
    | HandoffClearShape(all: bool)
    | HandoffSetShape(ttl: Option<nat>, ifAbsent: bool)
    | CancelShape
    | MigrateShape(joinedCount: nat, replication: nat, generation: Option<nat>)

  /** A parsed header: its shape, its tag, and the lengths of the body's fields in wire order. */
  datatype Head = Head(shape: Shape, tag: Option<nat>, lengths: seq<nat>)

  predicate MultiKey(shape: Shape) {
    shape.MultiGetShape? || shape.MultiTouchShape? || shape.MultiSetShape?
  }

  function KeyCount(head: Head): nat
    requires MultiKey(head.shape) && Fits(head)
  {
    if head.shape.MultiSetShape? then (|head.lengths| - 1) / 2 else |head.lengths| - 1
  }

  /** How many body fields each shape has. */
  predicate Fits(head: Head) {
    match head.shape
    case AuthShape(_, _) => |head.lengths| == 1
    case SetShape(_) => |head.lengths| == 3
    case CasSetShape(_, _) => |head.lengths| == 3
    case MultiGetShape => |head.lengths| >= 2
    case MultiTouchShape(_, _) => |head.lengths| >= 2
    case MultiSetShape(_) => |head.lengths| >= 3 && |head.lengths| % 2 == 1
    case ClearShape => |head.lengths| == 1
    case ClearAllShape => |head.lengths| == 0
    case HandoffDeleteShape => |head.lengths| == 3
    case HandoffSetShape(_, _) => |head.lengths| == 4
    case MigrateShape(_, _, _) => |head.lengths| == 4
    case _ => |head.lengths| == 2
  }

  function Field(parts: seq<Bytes>, at: nat): Result<Bytes> {
    if at < |parts| then Ok(parts[at]) else Fail(InvalidLength)
  }

  function Length(field: Bytes): Result<nat> {
    match ParseLength(field)
    case Some(n) => Ok(n)
    case None => Fail(InvalidLength)
  }

  function LengthAt(parts: seq<Bytes>, at: nat): Result<nat> {
    var field :- Field(parts, at);
    Length(field)
  }

  function Tag(field: Bytes): Result<nat> {
    var n :- Length(field);
    if n <= U32_MAX then Ok(n) else Fail(InvalidLength)
  }

  function TrailingTag(parts: seq<Bytes>, at: nat, tagged: bool): Result<Option<nat>> {
    if !tagged then Ok(None) else
      var field :- Field(parts, at);
      var tag :- Tag(field);
      Ok(Some(tag))
  }

  function EndsAt(parts: seq<Bytes>, at: nat, tagged: bool): Check {
    Need(|parts| <= at + (if tagged then 1 else 0), InvalidLength)
  }

  function OptionalLength(field: Option<Bytes>): Result<Option<nat>> {
    match field
    case None => Ok(None)
    case Some(f) =>
      var n :- Length(f);
      Ok(Some(n))
  }

  /** The `[ttl] [tag]` tail: the mode says what a single trailing field is. */
  function TtlAndTag(parts: seq<Bytes>, at: nat, tagged: bool): Result<(Option<Bytes>, Option<nat>)> {
    if tagged then
      var first :- Field(parts, at);
      if at + 1 < |parts| then
        var tag :- Tag(parts[at + 1]);
        :- Need(|parts| <= at + 2, InvalidLength);
        Ok((Some(first), Some(tag)))
      else
        var tag :- Tag(first);
        Ok((None, Some(tag)))
    else
      :- Need(|parts| <= at + 1, InvalidLength);
      Ok((if at < |parts| then Some(parts[at]) else None, None))
  }

  /** The `[ttl] [G] [tag]` tail of a touch, read from its end. */
  function TouchTail(fields: seq<Bytes>, tagged: bool): Result<(Option<nat>, bool, Option<nat>)> {
    var tail := if |fields| > 4 then fields[..4] else fields;
    :- Need(tagged ==> tail != [], InvalidLength);
    var tag :- if tagged then (var t :- Tag(tail[|tail| - 1]); Ok(Some(t))) else Ok(None);
    var untagged := if tagged then tail[..|tail| - 1] else tail;
    var get := untagged != [] && untagged[|untagged| - 1] == [71];
    var rest := if get then untagged[..|untagged| - 1] else untagged;
    :- Need(|rest| <= 1, InvalidLength);
    var ttl :- OptionalLength(if rest == [] then None else Some(rest[0]));
    Ok((ttl, get, tag))
  }

  function HexNibble(b: byte): Result<nat> {
    if 48 <= b <= 57 then Ok(b as int - 48)
    else if 97 <= b <= 102 then Ok(b as int - 97 + 10)
    else Fail(InvalidCommand)
  }

  function HexBytes(field: Bytes): Result<Bytes> {
    if |field| < 2 then Ok([]) else
      var high :- HexNibble(field[0]);
      var low :- HexNibble(field[1]);
      var rest :- HexBytes(field[2..]);
      assert high < 16 && low < 16;
      Ok([(16 * high + low) as byte] + rest)
  }

  function CasCondition(field: Bytes, allowAbsentPresent: bool): Result<Condition> {
    if allowAbsentPresent && field == [65] then Ok(Absent)
    else if allowAbsentPresent && field == [80] then Ok(Present)
    else if |field| == 32 then
      var digest :- HexBytes(field);
      Ok(Matches(digest))
    else Fail(InvalidCommand)
  }

  // ---- one function per command letter ----

  function AuthHead(parts: seq<Bytes>): (r: Result<Head>)
    ensures r.Ok? ==> Fits(r.value) && r.value.shape.AuthShape?
  {
    var secret :- Field(parts, 1);
    var (tagging, retry, used) :-
      if |parts| <= 2 then Ok((false, false, 2))
      else if parts[2] == [84] then
        if |parts| <= 3 then Ok((true, false, 3))
        else if parts[3] == [82] then Ok((true, true, 4))
        else Fail(InvalidCommand)
      else if parts[2] == [82] then Ok((false, true, 3))
      else Fail(InvalidCommand);
    :- Need(|parts| <= used, InvalidLength);
    var n :- Length(secret);
    :- Need(n != 0, EmptySecret);
    Ok(Head(AuthShape(tagging, retry), None, [n]))
  }

  function KeyHead(parts: seq<Bytes>, tagged: bool, namespaced: bool, shape: Shape): (r: Result<Head>)
    requires shape == GetShape || shape == DeleteShape
    ensures r.Ok? ==> Fits(r.value) && r.value.shape == shape
  {
    var at := if namespaced then 2 else 1;
    var ns :- if namespaced then LengthAt(parts, 1) else Ok(0);
    var keyField :- Field(parts, at);
    var tag :- TrailingTag(parts, at + 1, tagged);
    :- EndsAt(parts, at + 1, tagged);
    var key :- Length(keyField);
    :- Need(key != 0, EmptyKey);
    Ok(Head(shape, tag, [ns, key]))
  }

  function HandoffDeleteHead(parts: seq<Bytes>, tagged: bool): (r: Result<Head>)
    ensures r.Ok? ==> Fits(r.value) && r.value.shape.HandoffDeleteShape?
  {
    var nsField :- Field(parts, 1);
    var keyField :- Field(parts, 2);
    var tokenField :- Field(parts, 3);
    var tag :- TrailingTag(parts, 4, tagged);
    :- EndsAt(parts, 4, tagged);
    var ns :- Length(nsField);
    var key :- Length(keyField);
    var token :- Length(tokenField);
    :- Need(key != 0, EmptyKey);
    :- Need(token != 0, EmptyField);
    Ok(Head(HandoffDeleteShape, tag, [token, ns, key]))
  }

  function KeyLengths(parts: seq<Bytes>, at: nat, count: nat): (r: Result<seq<nat>>)
    ensures r.Ok? ==> |r.value| == count && at + count <= |parts| + (if count == 0 then at else 0)
    decreases count
  {
    if count == 0 then Ok([]) else
      var key :- LengthAt(parts, at);
      :- Need(key != 0, EmptyKey);
      var rest :- KeyLengths(parts, at + 1, count - 1);
      Ok([key] + rest)
  }

  function PairLengths(parts: seq<Bytes>, at: nat, count: nat): (r: Result<seq<nat>>)
    ensures r.Ok? ==> |r.value| == 2 * count && (count > 0 ==> at + 2 * count <= |parts|)
    decreases count
  {
    if count == 0 then Ok([]) else
      var key :- LengthAt(parts, at);
      var value :- LengthAt(parts, at + 1);
      :- Need(key != 0, EmptyKey);
      var rest :- PairLengths(parts, at + 2, count - 1);
      Ok([key, value] + rest)
  }

  function MultiGetHead(parts: seq<Bytes>, tagged: bool): (r: Result<Head>)
    ensures r.Ok? ==> Fits(r.value) && r.value.shape.MultiGetShape?
  {
    var ns :- LengthAt(parts, 1);
    var count :- LengthAt(parts, 2);
    :- Need(count != 0, InvalidLength);
    var keys :- KeyLengths(parts, 3, count);
    var tag :- TrailingTag(parts, 3 + count, tagged);
    :- EndsAt(parts, 3 + count, tagged);
    Ok(Head(MultiGetShape, tag, [ns] + keys))
  }

  function MultiTouchHead(parts: seq<Bytes>, tagged: bool): (r: Result<Head>)
    ensures r.Ok? ==> Fits(r.value) && r.value.shape.MultiTouchShape?
  {
    var ns :- LengthAt(parts, 1);
    var count :- LengthAt(parts, 2);
    :- Need(count != 0, InvalidLength);
    var keys :- KeyLengths(parts, 3, count);
    var (ttl, get, tag) :- TouchTail(parts[3 + count..], tagged);
    Ok(Head(MultiTouchShape(ttl, get), tag, [ns] + keys))
  }

  function MultiSetHead(parts: seq<Bytes>, tagged: bool): (r: Result<Head>)
    ensures r.Ok? ==> Fits(r.value) && r.value.shape.MultiSetShape?
  {
    var ns :- LengthAt(parts, 1);
    var count :- LengthAt(parts, 2);
    :- Need(count != 0, InvalidLength);
    var pairs :- PairLengths(parts, 3, count);
    var (ttlField, tag) :- TtlAndTag(parts, 3 + 2 * count, tagged);
    var ttl :- OptionalLength(ttlField);
    Ok(Head(MultiSetShape(ttl), tag, [ns] + pairs))
  }

  function IncrHead(parts: seq<Bytes>, tagged: bool): (r: Result<Head>)
    ensures r.Ok? ==> Fits(r.value) && r.value.shape.IncrShape?
  {
    var ns :- LengthAt(parts, 1);
    var keyField :- Field(parts, 2);
    var deltaField :- Field(parts, 3);
    var tag :- TrailingTag(parts, 4, tagged);
    :- EndsAt(parts, 4, tagged);
    var key :- Length(keyField);
    :- Need(key != 0, EmptyKey);
    :- Need(ParseI64(deltaField).Some?, InvalidLength);
    Ok(Head(IncrShape(ParseI64(deltaField).value), tag, [ns, key]))
  }

  function CasSetHead(parts: seq<Bytes>, tagged: bool): (r: Result<Head>)
    ensures r.Ok? ==> Fits(r.value) && r.value.shape.CasSetShape?
  {
    var ns :- LengthAt(parts, 1);
    var keyField :- Field(parts, 2);
    var valueField :- Field(parts, 3);
    var condField :- Field(parts, 4);
    var condition :- CasCondition(condField, true);
    var (ttlField, tag) :- TtlAndTag(parts, 5, tagged);
    var key :- Length(keyField);
    var value :- Length(valueField);
    :- Need(key != 0, EmptyKey);
    var ttl :- OptionalLength(ttlField);
    Ok(Head(CasSetShape(condition, ttl), tag, [ns, key, value]))
  }

  function CasDeleteHead(parts: seq<Bytes>, tagged: bool): (r: Result<Head>)
    ensures r.Ok? ==> Fits(r.value) && r.value.shape.CasDeleteShape?
  {
    var ns :- LengthAt(parts, 1);
    var keyField :- Field(parts, 2);
    var condField :- Field(parts, 3);
    var condition :- CasCondition(condField, false);
    var tag :- TrailingTag(parts, 4, tagged);
    :- EndsAt(parts, 4, tagged);
    var key :- Length(keyField);
    :- Need(key != 0, EmptyKey);
    Ok(Head(CasDeleteShape(condition.digest), tag, [ns, key]))
  }

  function TouchHead(parts: seq<Bytes>, tagged: bool): (r: Result<Head>)
    ensures r.Ok? ==> Fits(r.value) && r.value.shape.TouchShape?
  {
    var ns :- LengthAt(parts, 1);
    var keyField :- Field(parts, 2);
    var (ttl, get, tag) :- TouchTail(parts[3..], tagged);
    var key :- Length(keyField);
    :- Need(key != 0, EmptyKey);
    Ok(Head(TouchShape(ttl, get), tag, [ns, key]))
  }

  function ClearHead(parts: seq<Bytes>, tagged: bool): (r: Result<Head>)
    ensures r.Ok? ==> Fits(r.value) && r.value.shape.ClearShape?
  {
    var nsField :- Field(parts, 1);
    var tag :- TrailingTag(parts, 2, tagged);
    :- EndsAt(parts, 2, tagged);
    var ns :- Length(nsField);
    Ok(Head(ClearShape, tag, [ns]))
  }

  function ClearAllHead(parts: seq<Bytes>, tagged: bool): (r: Result<Head>)
    ensures r.Ok? ==> Fits(r.value) && r.value.shape.ClearAllShape?
  {
    var tag :- TrailingTag(parts, 1, tagged);
    :- EndsAt(parts, 1, tagged);
    Ok(Head(ClearAllShape, tag, []))
  }

  function HandoffClearHead(parts: seq<Bytes>, tagged: bool): (r: Result<Head>)
    ensures r.Ok? ==> Fits(r.value) && r.value.shape.HandoffClearShape?
  {
    var nsField :- Field(parts, 1);
    var tokenField :- Field(parts, 2);
    var trailing := parts[3..];
    :- Need(|trailing| <= 2, InvalidLength);
    :- Need(tagged ==> trailing != [], InvalidLength);
    var tag :- if tagged then (var t :- Tag(trailing[|trailing| - 1]); Ok(Some(t))) else Ok(None);
    var untagged := if tagged then trailing[..|trailing| - 1] else trailing;
    var all := untagged != [] && untagged[|untagged| - 1] == [65];
    :- Need(untagged == [] || (all && |untagged| == 1), InvalidLength);
    var ns :- Length(nsField);
    var token :- Length(tokenField);
    :- Need(token != 0, EmptyField);
    :- Need(all ==> ns == 0, InvalidLength);
    Ok(Head(HandoffClearShape(all), tag, [token, ns]))
  }

  function SetHead(parts: seq<Bytes>, tagged: bool, namespaced: bool): (r: Result<Head>)
    ensures r.Ok? ==> Fits(r.value) && r.value.shape.SetShape?
  {
    var at := if namespaced then 2 else 1;
    var ns :- if namespaced then LengthAt(parts, 1) else Ok(0);
    var keyField :- Field(parts, at);
    var valueField :- Field(parts, at + 1);
    var (ttlField, tag) :- TtlAndTag(parts, at + 2, tagged);
    var key :- Length(keyField);
    var value :- Length(valueField);
    :- Need(key != 0, EmptyKey);
    var ttl :- OptionalLength(ttlField);
    Ok(Head(SetShape(ttl), tag, [ns, key, value]))
  }

  function HandoffSetHead(parts: seq<Bytes>, tagged: bool): (r: Result<Head>)
    ensures r.Ok? ==> Fits(r.value) && r.value.shape.HandoffSetShape?
  {
    var nsField :- Field(parts, 1);
    var keyField :- Field(parts, 2);
    var valueField :- Field(parts, 3);
    var tokenField :- Field(parts, 4);
    var trailing := parts[5..];
    :- Need(|trailing| <= 3, InvalidLength);
    :- Need(tagged ==> trailing != [], InvalidLength);
    var tag :- if tagged then (var t :- Tag(trailing[|trailing| - 1]); Ok(Some(t))) else Ok(None);
    var untagged := if tagged then trailing[..|trailing| - 1] else trailing;
    var ifAbsent := untagged != [] && untagged[|untagged| - 1] == [65];
    var rest := if ifAbsent then untagged[..|untagged| - 1] else untagged;
    :- Need(|rest| <= 1, InvalidLength);
    var ns :- Length(nsField);
    var key :- Length(keyField);
    var value :- Length(valueField);
    var token :- Length(tokenField);
    :- Need(key != 0, EmptyKey);
    :- Need(token != 0, EmptyField);
    var ttl :- OptionalLength(if rest == [] then None else Some(rest[0]));
    Ok(Head(HandoffSetShape(ttl, ifAbsent), tag, [token, ns, key, value]))
  }

  function CancelHead(parts: seq<Bytes>): (r: Result<Head>)
    ensures r.Ok? ==> Fits(r.value) && r.value.shape.CancelShape?
  {
    var nameField :- Field(parts, 1);
    var tokenField :- Field(parts, 2);
    :- Need(|parts| <= 3, InvalidLength);
    var name :- Length(nameField);
    var token :- Length(tokenField);
    :- Need(name != 0 && token != 0, EmptyField);
    Ok(Head(CancelShape, None, [token, name]))
  }

  function MigrateHead(parts: seq<Bytes>): (r: Result<Head>)
    ensures r.Ok? ==> Fits(r.value) && r.value.shape.MigrateShape?
  {
    var tokenField :- Field(parts, 6);
    :- Need(|parts| <= 8, InvalidLength);
    var name :- Length(parts[1]);
    var addr :- Length(parts[2]);
    var joiningToken :- Length(parts[3]);
    var joinedCount :- Length(parts[4]);
    var replication :- Length(parts[5]);
    var token :- Length(tokenField);
    var generation :- OptionalLength(if |parts| == 8 then Some(parts[7]) else None);
    :- Need(joinedCount <= MAX_ROSTER_ENTRIES, InvalidLength);
    :- Need(replication != 0, InvalidLength);
    :- Need(token != 0 && name != 0 && addr != 0 && joiningToken != 0, EmptyField);
    Ok(Head(MigrateShape(joinedCount, replication, generation), None, [token, name, addr, joiningToken]))
  }

  function ParseHead(parts: seq<Bytes>, tagged: bool): (r: Result<Head>)
    requires |parts| >= 1
    ensures r.Ok? ==> Fits(r.value)
  {
    if |parts[0]| != 1 then Fail(InvalidCommand) else
      match parts[0][0]
      case 65 => AuthHead(parts)
      case 71 => KeyHead(parts, tagged, false, GetShape)
      case 68 => KeyHead(parts, tagged, false, DeleteShape)
      case 103 => KeyHead(parts, tagged, true, GetShape)
      case 100 => KeyHead(parts, tagged, true, DeleteShape)
      case 117 => HandoffDeleteHead(parts, tagged)
      case 109 => MultiGetHead(parts, tagged)
      case 121 => MultiTouchHead(parts, tagged)
      case 111 => MultiSetHead(parts, tagged)
      case 105 => IncrHead(parts, tagged)
      case 107 => CasSetHead(parts, tagged)
      case 120 => CasDeleteHead(parts, tagged)
      case 116 => TouchHead(parts, tagged)
      case 99 => ClearHead(parts, tagged)
      case 70 => ClearAllHead(parts, tagged)
      case 102 => HandoffClearHead(parts, tagged)
      case 83 => SetHead(parts, tagged, false)
      case 115 => SetHead(parts, tagged, true)
      case 85 => HandoffSetHead(parts, tagged)
      case 88 => CancelHead(parts)
      case 77 => MigrateHead(parts)
      case _ => Fail(InvalidCommand)
  }

  // ---- bodies ----

  function Total(lengths: seq<nat>): nat {
    if lengths == [] then 0 else lengths[0] + Total(lengths[1..])
  }

  /** The body's fields, one after another from `start`. */
  function Fields(input: Bytes, start: nat, lengths: seq<nat>): (fields: seq<Bytes>)
    requires start + Total(lengths) <= |input|
    ensures |fields| == |lengths|
    ensures forall i :: 0 <= i < |fields| ==> |fields[i]| == lengths[i]
    decreases |lengths|
  {
    if lengths == [] then []
    else [input[start..start + lengths[0]]] + Fields(input, start + lengths[0], lengths[1..])
  }

  /** Every other field, from the first. */
  function Alternate(fields: seq<Bytes>): seq<Bytes> {
    if fields == [] then [] else if |fields| == 1 then [fields[0]] else [fields[0]] + Alternate(fields[2..])
  }

  predicate AllUtf8(fields: seq<Bytes>) {
    forall i :: 0 <= i < |fields| ==> ValidUtf8(fields[i])
  }

  /** The command a header and its body's fields make; only text fields can still be refused. */
  function Build(head: Head, fields: seq<Bytes>): Result<Command>
    requires Fits(head) && |fields| == |head.lengths| && !head.shape.MigrateShape?
  {
    match head.shape
    case AuthShape(tagging, retry) => Ok(Auth(fields[0], tagging, retry))
    case GetShape => Ok(GetKey(Key(fields[0], fields[1])))
    case DeleteShape => Ok(DeleteKey(Key(fields[0], fields[1])))
    case SetShape(ttl) => Ok(SetKey(Key(fields[0], fields[1]), fields[2], ttl))
    case IncrShape(delta) => Ok(IncrKey(Key(fields[0], fields[1]), delta))
    case CasSetShape(condition, ttl) => Ok(CasSetKey(Key(fields[0], fields[1]), condition, fields[2], ttl))
    case CasDeleteShape(expected) => Ok(CasDeleteKey(Key(fields[0], fields[1]), expected))
    case TouchShape(ttl, get) => Ok(TouchKey(Key(fields[0], fields[1]), ttl, get))
    case MultiGetShape => Ok(MultiGet(fields[0], fields[1..]))
    case MultiTouchShape(ttl, get) => Ok(MultiTouch(fields[0], fields[1..], ttl, get))
    case MultiSetShape(ttl) => Ok(MultiSet(fields[0], Alternate(fields[1..]), Alternate(fields[2..]), ttl))
    case ClearShape => Ok(ClearNs(fields[0]))
    case ClearAllShape => Ok(ClearEverything)
    case HandoffDeleteShape =>
      :- Need(ValidUtf8(fields[0]), InvalidUtf8);
      Ok(HandoffDeleteKey(Key(fields[1], fields[2]), fields[0]))
    case HandoffClearShape(all) =>
      :- Need(ValidUtf8(fields[0]), InvalidUtf8);
      Ok(HandoffClear(all, fields[1], fields[0]))
    case HandoffSetShape(ttl, ifAbsent) =>
      :- Need(ValidUtf8(fields[0]), InvalidUtf8);
      Ok(HandoffSetKey(Key(fields[1], fields[2]), fields[3], ttl, ifAbsent, fields[0]))
    case CancelShape =>
      :- Need(AllUtf8(fields), InvalidUtf8);
      Ok(CancelMigration(fields[0], fields[1]))
  }

  // ---- the roster of a migration ----

  /** A scan that may need bytes that have not arrived. */
  datatype Scan<+T> = Found(value: T, end: nat) | Hungry | Broken(error: Error)

  function EntryLengths(parts: seq<Bytes>): Result<(nat, nat)>
    requires |parts| >= 1
  {
    var addrField :- Field(parts, 1);
    :- Need(|parts| <= 2, InvalidLength);
    var name :- Length(parts[0]);
    var addr :- Length(addrField);
    :- Need(name != 0 && addr != 0, EmptyField);
    Ok((name, addr))
  }

  function NextEntry(input: Bytes, cursor: nat): (r: Scan<Member>)
    requires cursor <= |input|
    ensures r.Found? ==> cursor < r.end <= |input|
  {
    var window := if |input| < cursor + MAX_ROSTER_LINE_LEN + 1 then |input| else cursor + MAX_ROSTER_LINE_LEN + 1;
    match Find(input[cursor..window], LF)
    case None => if |input| - cursor > MAX_ROSTER_LINE_LEN then Broken(InvalidLength) else Hungry
    case Some(offset) =>
      match EntryLengths(Split(input[cursor..cursor + offset], SP))
      case Fail(e) => Broken(e)
      case Ok((name, addr)) =>
        var start := cursor + offset + 1;
        var end := start + name + addr;
        if end > U64_MAX then Broken(InvalidLength)
        else if |input| < end then Hungry
        else Found(Member(input[start..start + name], input[start + name..end]), end)
  }

  /** `count` entries in a row; the first that is missing or malformed decides. */
  function Roster(input: Bytes, cursor: nat, count: nat): (r: Scan<seq<Member>>)
    requires cursor <= |input|
    ensures r.Found? ==> cursor <= r.end <= |input| && |r.value| == count
    decreases count
  {
    if count == 0 then Found([], cursor) else
      match NextEntry(input, cursor)
      case Hungry => Hungry
      case Broken(e) => Broken(e)
      case Found(first, next) =>
        match Roster(input, next, count - 1)
        case Hungry => Hungry
        case Broken(e) => Broken(e)
        case Found(rest, end) => Found([first] + rest, end)
  }

  predicate RosterUtf8(members: seq<Member>) {
    forall i :: 0 <= i < |members| ==> ValidUtf8(members[i].name) && ValidUtf8(members[i].addr)
  }

  // ---- the whole request ----

  /** What the front of the buffer is: a request, a malformed one, or the start of one. */
  datatype Outcome =
    | Done(command: Command, tag: Option<nat>, used: nat)
    | Bad(error: Error, used: nat)
    | More

  function ParseBody(input: Bytes, headerEnd: nat, head: Head): (r: Outcome)
    requires headerEnd < |input| && Fits(head)
    ensures r.Done? ==> headerEnd < r.used <= |input|
    ensures r.Bad? ==> r.used <= |input|
  {
    var start := headerEnd + 1;
    var end := start + Total(head.lengths);
    if end > U64_MAX then Bad(InvalidLength, 0)
    else if |input| < end then More
    else
      var fields := Fields(input, start, head.lengths);
      match head.shape
      case MigrateShape(count, replication, generation) => (
        match Roster(input, end, count)
        case Hungry => More
        case Broken(e) => Bad(e, 0)
        case Found(joined, rosterEnd) =>
          if AllUtf8(fields) && RosterUtf8(joined)
          then Done(Migrate(fields[0], fields[1], fields[2], fields[3], joined, replication, generation), None,
                    rosterEnd)
          else Bad(InvalidUtf8, rosterEnd)
      )
      case _ =>
        match Build(head, fields)
        case Ok(command) => Done(command, head.tag, end)
        case Fail(e) => Bad(e, end)
  }

  function Parse(input: Bytes, tagged: bool): (r: Outcome)
    ensures r.Done? ==> 0 < r.used <= |input|
    ensures r.Bad? ==> r.used <= |input|
  {
    match Find(input, LF)
    case None => More
    case Some(headerEnd) =>
      match ParseHead(Split(input[..headerEnd], SP), tagged)
      case Fail(e) => Bad(e, 0)
      case Ok(head) => ParseBody(input, headerEnd, head)
  }

  // ---- appending bytes changes nothing that is already decided ----

  lemma {:induction false} FieldsStable(input: Bytes, more: Bytes, start: nat, lengths: seq<nat>)
    requires start + Total(lengths) <= |input|
    ensures Fields(input + more, start, lengths) == Fields(input, start, lengths)
    decreases |lengths|
  {
    if lengths != [] {
      assert (input + more)[start..start + lengths[0]] == input[start..start + lengths[0]];
      FieldsStable(input, more, start + lengths[0], lengths[1..]);
    }
  }

  lemma NextEntryStable(input: Bytes, more: Bytes, cursor: nat)
    requires cursor <= |input| && !NextEntry(input, cursor).Hungry?
    ensures NextEntry(input + more, cursor) == NextEntry(input, cursor)
  {
    hide EntryLengths, Split, Find;
    var both := input + more;
    var limit := cursor + MAX_ROSTER_LINE_LEN + 1;
    var w, v := if |input| < limit then |input| else limit, if |both| < limit then |both| else limit;
    match Find(input[cursor..w], LF)
    case None =>
      assert both[cursor..v] == input[cursor..w];
    case Some(offset) =>
      assert both[cursor..v] == input[cursor..w] + both[w..v];
      FindStable(input[cursor..w], LF, both[w..v]);
      assert both[cursor..cursor + offset] == input[cursor..cursor + offset];
      match EntryLengths(Split(input[cursor..cursor + offset], SP))
      case Fail(_) =>
      case Ok((name, addr)) =>
        var start := cursor + offset + 1;
        if start + name + addr <= |input| {
          assert both[start..start + name] == input[start..start + name];
          assert both[start + name..start + name + addr] == input[start + name..start + name + addr];
        }
  }

  lemma {:induction false} RosterStable(input: Bytes, more: Bytes, cursor: nat, count: nat)
    requires cursor <= |input| && !Roster(input, cursor, count).Hungry?
    ensures Roster(input + more, cursor, count) == Roster(input, cursor, count)
    decreases count
  {
    hide NextEntry;
    if count != 0 {
      NextEntryStable(input, more, cursor);
      match NextEntry(input, cursor)
      case Found(_, next) => RosterStable(input, more, next, count - 1);
      case Broken(_) =>
    }
  }

  lemma BodyStable(input: Bytes, more: Bytes, headerEnd: nat, head: Head)
    requires headerEnd < |input| && Fits(head) && !ParseBody(input, headerEnd, head).More?
    ensures ParseBody(input + more, headerEnd, head) == ParseBody(input, headerEnd, head)
  {
    hide Fields, Roster, Build, AllUtf8, RosterUtf8;
    var end := headerEnd + 1 + Total(head.lengths);
    if end <= U64_MAX {
      FieldsStable(input, more, headerEnd + 1, head.lengths);
      if head.shape.MigrateShape? {
        RosterStable(input, more, end, head.shape.joinedCount);
      }
    }
  }

  /** A decided request stays decided, and the same, whatever arrives after it. */
  lemma ParseStable(input: Bytes, more: Bytes, tagged: bool)
    requires !Parse(input, tagged).More?
    ensures Parse(input + more, tagged) == Parse(input, tagged)
  {
    hide Find, ParseHead, ParseBody, Split;
    FindStable(input, LF, more);
    var headerEnd := Find(input, LF).value;
    assert (input + more)[..headerEnd] == input[..headerEnd];
    match ParseHead(Split(input[..headerEnd], SP), tagged)
    case Fail(_) =>
    case Ok(head) => BodyStable(input, more, headerEnd, head);
  }
}
