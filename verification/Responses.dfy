/** The node's replies and their encoding on the wire, tagged or not. */
module Responses {
  import opened Basics
  import opened Decimal
  import opened Text

  const NANOS: nat := 1_000_000_000

  datatype MultiEntry = Hit(value: Bytes) | Miss | Elsewhere

  datatype AckEntry = Kept | KeptElsewhere

  datatype TouchEntry = Refreshed | NothingThere | TouchElsewhere

  /** What a client can be answered; a TTL is what remains of it, in nanoseconds. */
  datatype Reply =
    | Value(value: Bytes)
    | TouchedValue(value: Bytes, ttl: Option<nat>)
    | Incremented(value: Bytes, ttl: Option<nat>)
    | Multi(entries: seq<MultiEntry>)
    | MultiAck(acks: seq<AckEntry>)
    | MultiTouched(touches: seq<TouchEntry>)
    | Stored
    | Deleted
    | Missing
    | WrongNode
    | Cleared
    | NotACounter
    | TryAgain
    | Busy
    | Rejected

  /** Whole seconds on the wire, rounded up. */
  function WireSeconds(nanos: nat): nat {
    nanos / NANOS + (if nanos % NANOS > 0 then 1 else 0)
  }

  /** The least number of seconds that covers the TTL; zero only for a TTL that has run out. */
  lemma WireSecondsRoundsUp(nanos: nat)
    ensures WireSeconds(nanos) * NANOS >= nanos
    ensures forall s: nat :: s * NANOS >= nanos ==> s >= WireSeconds(nanos)
    ensures WireSeconds(nanos) == 0 <==> nanos == 0
    ensures WireSeconds(nanos) * NANOS < nanos + NANOS
  {
  }

  /** `fields`, each after a space. */
  function Spaced(fields: seq<Bytes>): Bytes {
    if fields == [] then [] else [SP] + fields[0] + Spaced(fields[1..])
  }

  lemma {:induction false} SpacedAppend(fields: seq<Bytes>, last: Bytes)
    ensures Spaced(fields + [last]) == Spaced(fields) + [SP] + last
  {
    if fields == [] {
      assert fields + [last] == [last] && [last][1..] == [];
    } else {
      assert (fields + [last])[1..] == fields[1..] + [last];
      SpacedAppend(fields[1..], last);
    }
  }

  function MultiToken(entry: MultiEntry): Bytes {
    match entry
    case Hit(value) => Print(|value|)
    case Miss => [45]
    case Elsewhere => [87]
  }

  function AckToken(entry: AckEntry): Bytes {
    match entry
    case Kept => [83]
    case KeptElsewhere => [87]
  }

  function TouchToken(entry: TouchEntry): Bytes {
    match entry
    case Refreshed => [83]
    case NothingThere => [78]
    case TouchElsewhere => [87]
  }

  function MultiTokens(entries: seq<MultiEntry>): (tokens: seq<Bytes>)
    ensures |tokens| == |entries|
  {
    seq(|entries|, i requires 0 <= i < |entries| => MultiToken(entries[i]))
  }

  function AckTokens(entries: seq<AckEntry>): (tokens: seq<Bytes>)
    ensures |tokens| == |entries|
  {
    seq(|entries|, i requires 0 <= i < |entries| => AckToken(entries[i]))
  }

  function TouchTokens(entries: seq<TouchEntry>): (tokens: seq<Bytes>)
    ensures |tokens| == |entries|
  {
    seq(|entries|, i requires 0 <= i < |entries| => TouchToken(entries[i]))
  }

  /** The values of the hits, in order. */
  function HitBytes(entries: seq<MultiEntry>): Bytes {
    if entries == [] then []
    else (if entries[0].Hit? then entries[0].value else []) + HitBytes(entries[1..])
  }

  function TtlFields(ttl: Option<nat>): seq<Bytes> {
    if ttl.Some? then [Print(WireSeconds(ttl.value))] else []
  }

  function Letter(reply: Reply): byte {
    match reply
    case Value(_) => 86
    case TouchedValue(_, _) => 86
    case Incremented(_, _) => 73
    case Multi(_) => 77
    case MultiAck(_) => 79
    case MultiTouched(_) => 89
    case Stored => 83
    case Deleted => 68
    case Missing => 78
    case WrongNode => 87
    case Cleared => 67
    case NotACounter => 84
    case TryAgain => 82
    case Busy => 66
    case Rejected => 69
  }

  function Fields(reply: Reply): seq<Bytes> {
    match reply
    case Value(value) => [Print(|value|)]
    case TouchedValue(value, ttl) => [Print(|value|)] + TtlFields(ttl)
    case Incremented(value, ttl) => [Print(|value|)] + TtlFields(ttl)
    case Multi(entries) => [Print(|entries|)] + MultiTokens(entries)
    case MultiAck(entries) => [Print(|entries|)] + AckTokens(entries)
    case MultiTouched(entries) => [Print(|entries|)] + TouchTokens(entries)
    case _ => []
  }

  function Body(reply: Reply): Bytes {
    match reply
    case Value(value) => value
    case TouchedValue(value, _) => value
    case Incremented(value, _) => value
    case Multi(entries) => HitBytes(entries)
    case _ => []
  }

  /** Busy and a rejection belong to the connection, not to a request: they never carry a tag. */
  predicate Taggable(reply: Reply) {
    !reply.Busy? && !reply.Rejected?
  }

  function TagFields(tag: Option<nat>): seq<Bytes> {
    if tag.Some? then [Print(tag.value)] else []
  }

  /** The header after its letter, without the line end. */
  function Line(reply: Reply, tag: Option<nat>): Bytes {
    if reply.Rejected? then [110] else Spaced(Fields(reply) + TagFields(tag))
  }

  function Encoded(reply: Reply, tag: Option<nat>): Bytes
    requires tag.Some? ==> Taggable(reply)
  {
    [Letter(reply)] + Line(reply, tag) + [LF] + Body(reply)
  }

  // ---- the encoder ----

  method AppendTag(header: Bytes, tag: Option<nat>, ghost lead: Bytes, ghost fields: seq<Bytes>) returns (next: Bytes)
    requires header == lead + Spaced(fields)
    ensures next == lead + Spaced(fields + TagFields(tag)) + [LF]
  {
    next := header;
    if tag.Some? {
      SpacedAppend(fields, Print(tag.value));
      next := next + [SP] + Print(tag.value);
    } else {
      assert fields + TagFields(tag) == fields;
    }
    next := next + [LF];
  }

  lemma OneField(field: Bytes)
    ensures Spaced([field]) == [SP] + field
  {
    assert [field][1..] == [];
  }

  lemma TokensGrow(entries: seq<MultiEntry>, i: nat)
    requires i < |entries|
    ensures MultiTokens(entries[..i + 1]) == MultiTokens(entries[..i]) + [MultiToken(entries[i])]
  {
  }

  lemma {:induction false} HitBytesAppend(entries: seq<MultiEntry>, last: MultiEntry)
    ensures HitBytes(entries + [last]) == HitBytes(entries) + (if last.Hit? then last.value else [])
  {
    if entries == [] {
      assert entries + [last] == [last] && [last][1..] == [];
      assert HitBytes([last]) == (if last.Hit? then last.value else []) + HitBytes([]);
    } else {
      assert (entries + [last])[1..] == entries[1..] + [last];
      HitBytesAppend(entries[1..], last);
    }
  }

  /** The batched get's reply: a token per key, then the hits' values. */
  method EncodeMulti(entries: seq<MultiEntry>, tag: Option<nat>) returns (encoded: Bytes)
    ensures encoded == Encoded(Multi(entries), tag)
  {
    hide Print, Spaced, MultiToken, MultiTokens, HitBytes;
    ghost var count := [Print(|entries|)];
    OneField(Print(|entries|));
    var header := [77, SP] + Print(|entries|);
    assert header == [77] + Spaced(count);
    assert count + MultiTokens(entries[..0]) == count;
    for i := 0 to |entries|
      invariant header == [77] + Spaced(count + MultiTokens(entries[..i]))
    {
      SpacedAppend(count + MultiTokens(entries[..i]), MultiToken(entries[i]));
      TokensGrow(entries, i);
      assert count + MultiTokens(entries[..i]) + [MultiToken(entries[i])] == count + MultiTokens(entries[..i + 1]);
      header := header + [SP] + MultiToken(entries[i]);
    }
    assert entries[..|entries|] == entries;
    encoded := AppendTag(header, tag, [77], count + MultiTokens(entries));
    ghost var line := encoded;
    assert line + HitBytes(entries[..0]) == line by {
      NoHits();
    }
    for i := 0 to |entries|
      invariant encoded == line + HitBytes(entries[..i])
    {
      assert entries[..i + 1] == entries[..i] + [entries[i]];
      HitBytesAppend(entries[..i], entries[i]);
      if entries[i].Hit? {
        encoded := encoded + entries[i].value;
      }
    }
  }

  lemma NoHits()
    ensures HitBytes([]) == []
  {
  }

  method EncodeMultiAck(entries: seq<AckEntry>, tag: Option<nat>) returns (encoded: Bytes)
    ensures encoded == Encoded(MultiAck(entries), tag)
  {
    hide Print, Spaced;
    ghost var count := [Print(|entries|)];
    OneField(Print(|entries|));
    var header := [79, SP] + Print(|entries|);
    assert header == [79] + Spaced(count);
    assert count + AckTokens(entries[..0]) == count;
    for i := 0 to |entries|
      invariant header == [79] + Spaced(count + AckTokens(entries[..i]))
    {
      SpacedAppend(count + AckTokens(entries[..i]), AckToken(entries[i]));
      assert count + AckTokens(entries[..i]) + [AckToken(entries[i])] == count + AckTokens(entries[..i + 1]);
      header := header + [SP] + AckToken(entries[i]);
    }
    assert entries[..|entries|] == entries;
    encoded := AppendTag(header, tag, [79], count + AckTokens(entries));
    assert encoded + [] == encoded;
  }

  method EncodeMultiTouch(entries: seq<TouchEntry>, tag: Option<nat>) returns (encoded: Bytes)
    ensures encoded == Encoded(MultiTouched(entries), tag)
  {
    hide Print, Spaced;
    ghost var count := [Print(|entries|)];
    OneField(Print(|entries|));
    var header := [89, SP] + Print(|entries|);
    assert header == [89] + Spaced(count);
    assert count + TouchTokens(entries[..0]) == count;
    for i := 0 to |entries|
      invariant header == [89] + Spaced(count + TouchTokens(entries[..i]))
    {
      SpacedAppend(count + TouchTokens(entries[..i]), TouchToken(entries[i]));
      assert count + TouchTokens(entries[..i]) + [TouchToken(entries[i])] == count + TouchTokens(entries[..i + 1]);
      header := header + [SP] + TouchToken(entries[i]);
    }
    assert entries[..|entries|] == entries;
    encoded := AppendTag(header, tag, [89], count + TouchTokens(entries));
    assert encoded + [] == encoded;
  }

  /** Every reply, tagged or not. */
  method Encode(reply: Reply, tag: Option<nat>) returns (encoded: Bytes)
    requires tag.Some? ==> Taggable(reply)
    ensures encoded == Encoded(reply, tag)
  {
    hide Print, Spaced, WireSeconds, HitBytes, MultiTokens, AckTokens, TouchTokens;
    if reply.Multi? {
      encoded := EncodeMulti(reply.entries, tag);
    } else if reply.MultiAck? {
      encoded := EncodeMultiAck(reply.acks, tag);
    } else if reply.MultiTouched? {
      encoded := EncodeMultiTouch(reply.touches, tag);
    } else if reply.Rejected? {
      encoded := [69, 110, LF];
      assert encoded == [69] + [110] + [LF] + [];
    } else {
      var header := [Letter(reply)];
      if reply.Value? || reply.TouchedValue? || reply.Incremented? {
        OneField(Print(|reply.value|));
        header := header + [SP] + Print(|reply.value|);
        if !reply.Value? && reply.ttl.Some? {
          SpacedAppend([Print(|reply.value|)], Print(WireSeconds(reply.ttl.value)));
          header := header + [SP] + Print(WireSeconds(reply.ttl.value));
        } else {
          assert [Print(|reply.value|)] + [] == [Print(|reply.value|)];
        }
      } else {
        NoFields();
      }
      encoded := AppendTag(header, tag, [Letter(reply)], Fields(reply));
      encoded := encoded + Body(reply);
    }
  }

  lemma NoFields()
    ensures Spaced([]) == []
  {
  }
}
