/**
 A request from the client's call to the client's result, through one node: framed, parsed, applied, encoded,
 read back and interpreted. What the client is told is what the node's entries say.
 */
module EndToEnd {
  import opened Basics
  import opened Lru
  import opened StoreSpec
  import opened Wire
  import opened Reachable
  import opened ClientLaws
  import Decimal
  import Frames
  import RequestReader
  import Replies = Responses
  import Reader = ResponseReader
  import RoundTrips = ReplyRoundTrip

  // ---- the node ----

  /** A TTL field is whole seconds. */
  function Lifetime(seconds: Option<nat>): Option<nat> {
    if seconds.Some? then Some(seconds.value * Replies.NANOS) else None
  }

  /** The cache operation a single-key or clearing command stands for. */
  function Operation(command: Command): Option<Op> {
    match command
    case GetKey(key) => Some(Getting(key))
    case SetKey(key, value, ttl) => Some(Setting(key, value, Lifetime(ttl)))
    case DeleteKey(key) => Some(Deleting(key))
    case IncrKey(key, delta) => Some(Incrementing(key, delta))
    case CasSetKey(key, condition, value, ttl) => Some(CasSetting(key, condition, value, Lifetime(ttl)))
    case CasDeleteKey(key, expected) => Some(CasDeleting(key, expected))
    case ClearNs(ns) => Some(Clearing(ns))
    case ClearEverything => Some(ClearingAll)
    case _ => None
  }

  /** How the node words what the cache answered. */
  function ReplyTo(op: Op, answer: Answer): Replies.Reply {
    match answer
    case Value(Some(value)) => Replies.Value(value)
    case Value(None) => Replies.Missing
    case Counter(Counted(value, remaining)) => Replies.Incremented(Decimal.PrintInt(value), remaining)
    case Counter(NotFound) => Replies.Missing
    case Counter(NotNumeric) => Replies.NotACounter
    case Count(_) => Replies.Cleared
    case Flag(true) => if op.CasSetting? then Replies.Stored else Replies.Deleted
    case Flag(false) => Replies.Missing
    case _ => Replies.Stored
  }

  /** What the node leaves and sends for the request at the front of `input`, if it is one of these. */
  ghost function Served(c: Config, s: Store, input: Bytes, tagged: bool, now: nat): Option<(Store, Bytes)> {
    match Parse(input, tagged)
    case Done(command, tag, _) =>
      if Operation(command).None? then None else
        var op := Operation(command).value;
        var (t, answer) := Apply(c, s, op, now);
        var reply := ReplyTo(op, answer);
        Some((t, Replies.Encoded(reply, if Replies.Taggable(reply) then tag else None)))
    case _ => None
  }

  // ---- the client ----

  /** What a call on the connection returns; `Desynced` closes the connection. */
  datatype Called<T> = Returned(value: T) | WrongNode | NoNumber | Desynced

  function GetResult(r: Reader.RoundTrip): Called<Option<Bytes>> {
    match r.marker
    case 86 => if r.ttlSeconds >= 0 then Desynced else Returned(Some(r.value))
    case 78 => Returned(None)
    case 87 => WrongNode
    case _ => Desynced
  }

  function SetResult(r: Reader.RoundTrip): Called<()> {
    match r.marker
    case 83 => Returned(())
    case 87 => WrongNode
    case _ => Desynced
  }

  /** Delete, and delete-if-matches. */
  function DeleteResult(r: Reader.RoundTrip): Called<bool> {
    match r.marker
    case 68 => Returned(true)
    case 78 => Returned(false)
    case 87 => WrongNode
    case _ => Desynced
  }

  function CasResult(r: Reader.RoundTrip): Called<bool> {
    match r.marker
    case 83 => Returned(true)
    case 78 => Returned(false)
    case 87 => WrongNode
    case _ => Desynced
  }

  /** The counter's text and its seconds left, -1 for no TTL. */
  function IncrementResult(r: Reader.RoundTrip): Called<Option<(Bytes, int)>> {
    match r.marker
    case 73 => Returned(Some((r.value, r.ttlSeconds)))
    case 78 => Returned(None)
    case 84 => NoNumber
    case 87 => WrongNode
    case _ => Desynced
  }

  function ClearResult(r: Reader.RoundTrip): Called<()> {
    if r.marker == 67 then Returned(()) else Desynced
  }

  // ---- there and back ----

  /** A request this client can make: of the commands above, with a frame of a length a node can address. */
  predicate Askable(command: Command, tagged: bool, tag: nat) {
    && Frames.Sendable(command) && Operation(command).Some?
    && tag <= U32_MAX && |Frames.Frame(command, tagged, tag)| <= Decimal.U64_MAX
  }

  /** What the client reads off the wire in answer to its request, and the store it leaves. */
  ghost function Asked(c: Config, s: Store, command: Command, tagged: bool, tag: nat, now: nat)
    : (Store, Reader.Reception)
    requires Askable(command, tagged, tag)
  {
    match Served(c, s, Frames.Frame(command, tagged, tag), tagged, now)
    case Some((t, bytes)) => (t, Reader.Receive(bytes, tagged))
    case None => (s, Reader.Failed(Reader.Ended))
  }

  /** The reply reaches the client whole, echoing its tag, whenever it is within the client's caps. */
  lemma ReplyArrives(c: Config, s: Store, command: Command, tagged: bool, tag: nat, now: nat)
    requires Askable(command, tagged, tag)
    ensures var op := Operation(command).value;
            var (t, answer) := Apply(c, s, op, now);
            var reply := ReplyTo(op, answer);
            var (u, got) := Asked(c, s, command, tagged, tag, now);
            && u == t
            && (RoundTrips.Readable(reply, if tagged then Some(tag) else None) ==>
                  got.Got? && got.result == RoundTrips.Seen(reply) && (tagged ==> got.tag == tag))
  {
    hide Apply, Parse, Frames.Frame, Frames.Sendable, Replies.Encoded, RoundTrips.Readable, RoundTrips.Seen,
         Reader.Receive,
         Decimal.PrintInt;
    var frame := Frames.Frame(command, tagged, tag);
    assert frame + [] == frame;
    Frames.FrameParses(command, tagged, tag, []);
    var op := Operation(command).value;
    var reply := ReplyTo(op, Apply(c, s, op, now).1);
    var t := if tagged then Some(tag) else None;
    RoundTrips.ReplyReads(reply, tagged, tag, []);
    assert Replies.Encoded(reply, t) + [] == Replies.Encoded(reply, t);
  }

  // ---- the client's caps are never in the way of a short reply ----

  lemma LineFits(first: Bytes, second: Bytes, tag: Option<nat>)
    requires |first| <= 20 && |second| <= 20 && (tag.Some? ==> tag.value <= U32_MAX)
    ensures |Replies.Spaced(Replies.TagFields(tag))| <= 100
    ensures |Replies.Spaced([first] + Replies.TagFields(tag))| <= 100
    ensures |Replies.Spaced([first, second] + Replies.TagFields(tag))| <= 100
  {
    hide Decimal.Print;
    var tags := Replies.TagFields(tag);
    if tag.Some? {
      RoundTrips.TagIsShort(tag.value);
      assert tags[1..] == [];
    }
    assert |Replies.Spaced(tags)| <= 50;
    assert ([first] + tags)[1..] == tags;
    assert ([first, second] + tags)[1..] == [second] + tags && ([second] + tags)[1..] == tags;
  }

  lemma StatusReadable(reply: Replies.Reply, tag: Option<nat>)
    requires tag.Some? ==> tag.value <= U32_MAX
    requires reply.Stored? || reply.Deleted? || reply.Missing? || reply.Cleared? || reply.NotACounter?
    ensures RoundTrips.Readable(reply, tag)
  {
    hide Replies.Spaced, Decimal.Print;
    LineFits([], [], tag);
    assert Replies.Fields(reply) + Replies.TagFields(tag) == Replies.TagFields(tag);
  }

  lemma ValueReadable(value: Bytes, tag: Option<nat>)
    requires (tag.Some? ==> tag.value <= U32_MAX) && |value| <= Reader.MAX_VALUE_LENGTH
    ensures RoundTrips.Readable(Replies.Value(value), tag)
  {
    hide Replies.Spaced, Decimal.Print;
    RoundTrips.TagIsShort(|value|);
    LineFits(Decimal.Print(|value|), [], tag);
  }

  // ---- what each call returns ----

  /** A get returns the value a live entry has under the key, and nothing exactly if there is none. */
  lemma GetRoundTrip(c: Config, s: Store, key: Key, tagged: bool, tag: nat, now: nat, value: Bytes)
    requires Listed(s) && Askable(GetKey(key), tagged, tag)
    ensures var (t, got) := Asked(c, s, GetKey(key), tagged, tag, now);
            && (Reads(s.lru, key, value, now) && |value| <= Reader.MAX_VALUE_LENGTH ==>
                  got.Got? && (tagged ==> got.tag == tag) && GetResult(got.result) == Returned(Some(value)))
            && (!Live(s.lru, key, now) ==>
                  got.Got? && (tagged ==> got.tag == tag) && GetResult(got.result) == Returned(None))
  {
    hide Asked, Askable, Get, Reads, Live, RoundTrips.Readable, Listed;
    var t := if tagged then Some(tag) else None;
    assert tag <= U32_MAX by { TagFits(GetKey(key), tagged, tag); }
    ReplyArrives(c, s, GetKey(key), tagged, tag, now);
    GetAnswers(s, key, value, now);
    StatusReadable(Replies.Missing, t);
    if |value| <= Reader.MAX_VALUE_LENGTH {
      ValueReadable(value, t);
    }
  }

  lemma TagFits(command: Command, tagged: bool, tag: nat)
    requires Askable(command, tagged, tag)
    ensures tag <= U32_MAX && Frames.Sendable(command)
  {
  }

  /** A set returns, and what it wrote is under the key for its TTL in seconds. */
  lemma SetRoundTrip(c: Config, s: Store, key: Key, value: Bytes, ttl: Option<nat>, tagged: bool, tag: nat, now: nat)
    requires Listed(s) && Askable(SetKey(key, value, ttl), tagged, tag)
    ensures var (t, got) := Asked(c, s, SetKey(key, value, ttl), tagged, tag, now);
            && got.Got? && SetResult(got.result) == Returned(())
            && Listed(t) && LivesFor(c, t.lru, key, value, now, Lifetime(ttl))
  {
    hide Asked, Askable, Put, LivesFor, RoundTrips.Readable, Listed;
    TagFits(SetKey(key, value, ttl), tagged, tag);
    ReplyArrives(c, s, SetKey(key, value, ttl), tagged, tag, now);
    StatusReadable(Replies.Stored, if tagged then Some(tag) else None);
    WriteLives(c, s, key, value, now, Lifetime(ttl));
    ApplyListed(c, s, Setting(key, value, Lifetime(ttl)), now);
  }

  /**
   What a client has set it gets back, whatever the node held before, until the TTL it gave, in seconds, has
   passed; with no TTL, or one past the horizon, for as long as the entry is kept.
   */
  lemma SetThenGetRoundTrip(c: Config, s: Store, key: Key, value: Bytes, ttl: Option<nat>, tagged: bool, tag: nat,
                            next: nat, at: nat, now: nat)
    requires Listed(s) && Askable(SetKey(key, value, ttl), tagged, tag) && Askable(GetKey(key), tagged, next)
    requires |value| <= Reader.MAX_VALUE_LENGTH
    ensures var t := Asked(c, s, SetKey(key, value, ttl), tagged, tag, at).0;
            var got := Asked(c, t, GetKey(key), tagged, next, now).1;
            && got.Got?
            && GetResult(got.result) ==
               Returned(if ttl.None? || at + ttl.value * 1_000_000_000 > c.horizon
                 || now < at + ttl.value * 1_000_000_000
                        then Some(value) else None)
  {
    hide Asked, Askable, Reads, Live, Listed;
    SetRoundTrip(c, s, key, value, ttl, tagged, tag, at);
    var t := Asked(c, s, SetKey(key, value, ttl), tagged, tag, at).0;
    GetRoundTrip(c, t, key, tagged, next, now, value);
    NothingElse(c, t.lru, key, value, at, Lifetime(ttl), now);
  }

  lemma NothingElse(c: Config, l: seq<Item>, key: Key, value: Bytes, at: nat, ttl: Option<nat>, now: nat)
    requires LivesFor(c, l, key, value, at, ttl)
    ensures Live(l, key, now) <==> Reads(l, key, value, now)
  {
    if Live(l, key, now) {
      var i :| 0 <= i < |l| && l[i].key == key && Alive(l[i], now);
      assert Reads(l, key, l[i].value, now);
    }
  }

  /** A delete returns whether a live entry was there, and leaves none. */
  lemma DeleteRoundTrip(c: Config, s: Store, key: Key, tagged: bool, tag: nat, now: nat)
    requires Listed(s) && Askable(DeleteKey(key), tagged, tag)
    ensures var (t, got) := Asked(c, s, DeleteKey(key), tagged, tag, now);
            got.Got? && DeleteResult(got.result) == Returned(Live(s.lru, key, now)) && Missing(t.lru, key)
  {
    hide Asked, Askable, Delete, Live, ClientLaws.Missing, RoundTrips.Readable, Listed;
    TagFits(DeleteKey(key), tagged, tag);
    ReplyArrives(c, s, DeleteKey(key), tagged, tag, now);
    StatusReadable(Replies.Missing, if tagged then Some(tag) else None);
    StatusReadable(Replies.Deleted, if tagged then Some(tag) else None);
    DeleteActs(s, key, now);
  }

  /** A compare-and-set returns whether its condition is met, and stores the value exactly then. */
  lemma CasRoundTrip(c: Config, s: Store, key: Key, cond: Condition, value: Bytes, ttl: Option<nat>, tagged: bool,
                     tag: nat,
                     now: nat)
    requires Listed(s) && Askable(CasSetKey(key, cond, value, ttl), tagged, tag)
    ensures var (t, got) := Asked(c, s, CasSetKey(key, cond, value, ttl), tagged, tag, now);
            && got.Got? && CasResult(got.result) == Returned(Met(c, s.lru, key, cond, now))
            && (if Met(c, s.lru, key, cond, now) then LivesFor(c, t.lru, key, value, now, Lifetime(ttl))
                else Undisturbed(t.lru, s.lru, key, now))
  {
    hide Asked, Askable, CasSet, Met, LivesFor, Undisturbed, RoundTrips.Readable, Listed;
    TagFits(CasSetKey(key, cond, value, ttl), tagged, tag);
    ReplyArrives(c, s, CasSetKey(key, cond, value, ttl), tagged, tag, now);
    StatusReadable(Replies.Missing, if tagged then Some(tag) else None);
    StatusReadable(Replies.Stored, if tagged then Some(tag) else None);
    CasSetActs(c, s, key, cond, value, Lifetime(ttl), now);
  }

  /** A delete-if-matches returns whether a live value has that digest, and deletes it exactly then. */
  lemma CasDeleteRoundTrip(c: Config, s: Store, key: Key, digest: Bytes, tagged: bool, tag: nat, now: nat)
    requires Listed(s) && Askable(CasDeleteKey(key, digest), tagged, tag)
    ensures var (t, got) := Asked(c, s, CasDeleteKey(key, digest), tagged, tag, now);
            && got.Got? && DeleteResult(got.result) == Returned(Met(c, s.lru, key, Matches(digest), now))
            && (if Met(c, s.lru, key, Matches(digest), now) then Missing(t.lru, key)
                else Undisturbed(t.lru, s.lru, key, now))
  {
    hide Asked, Askable, CasDelete, Met, ClientLaws.Missing, Undisturbed, RoundTrips.Readable, Listed;
    TagFits(CasDeleteKey(key, digest), tagged, tag);
    ReplyArrives(c, s, CasDeleteKey(key, digest), tagged, tag, now);
    StatusReadable(Replies.Missing, if tagged then Some(tag) else None);
    StatusReadable(Replies.Deleted, if tagged then Some(tag) else None);
    CasDeleteActs(c, s, key, digest, now);
  }

  /** A clear returns, and leaves nothing of the namespace and everything else. */
  lemma ClearRoundTrip(c: Config, s: Store, ns: Bytes, tagged: bool, tag: nat, now: nat)
    requires Listed(s) && Askable(ClearNs(ns), tagged, tag)
    ensures var (t, got) := Asked(c, s, ClearNs(ns), tagged, tag, now);
            && got.Got? && ClearResult(got.result) == Returned(())
            && forall x :: x in t.lru <==> x in s.lru && x.key.ns != ns
  {
    hide Asked, Askable, Clear, RoundTrips.Readable, Listed;
    TagFits(ClearNs(ns), tagged, tag);
    ReplyArrives(c, s, ClearNs(ns), tagged, tag, now);
    StatusReadable(Replies.Cleared, if tagged then Some(tag) else None);
    ClearActs(s, ns);
  }

  lemma CounterReadable(value: int, ttl: Option<nat>, tag: Option<nat>)
    requires tag.Some? ==> tag.value <= U32_MAX
    requires Decimal.I64_MIN <= value <= Decimal.I64_MAX && (ttl.Some? ==> ttl.value <= Decimal.I64_MAX * Replies.NANOS)
    ensures RoundTrips.Readable(Replies.Incremented(Decimal.PrintInt(value), ttl), tag)
  {
    hide Replies.Spaced, Decimal.Print, Replies.WireSeconds;
    var text := Decimal.PrintInt(value);
    CounterIsShort(value);
    RoundTrips.TagIsShort(|text|);
    if ttl.Some? {
      Replies.WireSecondsRoundsUp(ttl.value);
      assert Replies.WireSeconds(ttl.value) <= Decimal.I64_MAX;
      NineteenDigits(Replies.WireSeconds(ttl.value));
      LineFits(Decimal.Print(|text|), Decimal.Print(Replies.WireSeconds(ttl.value)), tag);
      assert [Decimal.Print(|text|)] + Replies.TtlFields(ttl)
             == [Decimal.Print(|text|), Decimal.Print(Replies.WireSeconds(ttl.value))];
    } else {
      LineFits(Decimal.Print(|text|), [], tag);
      assert [Decimal.Print(|text|)] + Replies.TtlFields(ttl) == [Decimal.Print(|text|)];
    }
  }

  lemma CounterIsShort(value: int)
    requires Decimal.I64_MIN <= value <= Decimal.I64_MAX
    ensures |Decimal.PrintInt(value)| <= 20
  {
    if value < 0 {
      NineteenDigits(-value);
    } else {
      NineteenDigits(value);
    }
  }

  lemma NineteenDigits(n: nat)
    requires n <= -Decimal.I64_MIN
    ensures |Decimal.Print(n)| <= 19
  {
    assert Decimal.TenTo(5) == 100000;
    assert Decimal.TenTo(10) == 100000 * 100000;
    assert Decimal.TenTo(15) == 100000 * 100000 * 100000;
    assert Decimal.TenTo(19) == 10 * (10 * (10 * (10 * Decimal.TenTo(15))));
    Decimal.PrintSize(n, 19);
  }

  /**
   An increment returns the sum of a live counter and the whole seconds it has left, rounded up, -1 for no TTL;
   it reports a value that is no number, or a sum out of range, and returns nothing when nothing is live.
   */
  lemma IncrRoundTrip(c: Config, s: Store, key: Key, delta: int, tagged: bool, tag: nat, now: nat, i: nat)
    requires Listed(s) && Askable(IncrKey(key, delta), tagged, tag) && i < |s.lru| && s.lru[i].key == key
    requires var x := s.lru[i]; x.expiresAt.Some? ==> x.expiresAt.value - now <= Decimal.I64_MAX * Replies.NANOS
    ensures var got := Asked(c, s, IncrKey(key, delta), tagged, tag, now).1;
            var x, n := s.lru[i], Decimal.ParseI64(s.lru[i].value);
            && got.Got?
            && IncrementResult(got.result) ==
               if !Alive(x, now) then Returned(None)
               else if n.Some? && Decimal.I64_MIN <= n.value + delta <= Decimal.I64_MAX then
                 Returned(Some((Decimal.PrintInt(n.value + delta),
                                if x.expiresAt.None? then -1 else Replies.WireSeconds(x.expiresAt.value - now))))
               else NoNumber
  {
    hide Asked, Askable, Incr, RoundTrips.Readable, Listed, Decimal.ParseI64, Decimal.PrintInt, Replies.WireSeconds,
         LivesUntil;
    var t := if tagged then Some(tag) else None;
    TagFits(IncrKey(key, delta), tagged, tag);
    ReplyArrives(c, s, IncrKey(key, delta), tagged, tag, now);
    StatusReadable(Replies.Missing, t);
    StatusReadable(Replies.NotACounter, t);
    IncrActs(c, s, key, delta, now);
    assert Incremented(s, Incr(c, s, key, delta, now).0, Incr(c, s, key, delta, now).1, delta, now, i);
    var x, n := s.lru[i], Decimal.ParseI64(s.lru[i].value);
    if Alive(x, now) && n.Some? && Decimal.I64_MIN <= n.value + delta <= Decimal.I64_MAX {
      CounterReadable(n.value + delta, if x.expiresAt.None? then None else Some(x.expiresAt.value - now), t);
    }
  }

  // ---- paying for many keys ----

  /**
   What an unpaid request is asked to be charged for: the keys it names, whether it carries values, and the length
   of its frame; a request of one key is read at once, and so is one that has been paid for.
   */
  lemma ChargeAsked(c: Command, tagged: bool, tag: nat, rest: Bytes)
    requires Frames.Sendable(c) && tag <= U32_MAX && |Frames.Frame(c, tagged, tag)| <= Decimal.U64_MAX
    ensures var outcome := Parse(Frames.Frame(c, tagged, tag) + rest, tagged);
            var length := |Frames.Frame(c, tagged, tag)|;
            && RequestReader.Report(outcome, true) == RequestReader.Parsed(c, Frames.TagOf(tagged, tag))
            && RequestReader.Report(outcome, false) ==
               match c
               case MultiGet(_, keys) => RequestReader.ChargeRequired(|keys|, false, length)
               case MultiTouch(_, keys, _, _) => RequestReader.ChargeRequired(|keys|, false, length)
               case MultiSet(_, keys, _, _) => RequestReader.ChargeRequired(|keys|, true, length)
               case _ => RequestReader.Parsed(c, Frames.TagOf(tagged, tag))
  {
    hide Parse, Frames.Frame;
    Frames.FrameParses(c, tagged, tag, rest);
  }
}
