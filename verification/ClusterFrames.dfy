/** The frames of the handshake and of the cluster's own traffic, and that each is parsed as the command it is for. */
module ClusterFrames {
  import opened Basics
  import opened Decimal
  import opened Text
  import opened Wire
  import opened Frames

  /** The commands other than a client's, with arguments the parser accepts; a migration has its own frame below. */
  predicate Internal(c: Command) {
    match c
    case Auth(secret, _, _) => secret != []
    case HandoffDeleteKey(key, token) => key.name != [] && token != [] && ValidUtf8(token)
    case HandoffClear(all, ns, token) => token != [] && ValidUtf8(token) && (all ==> ns == [])
    case HandoffSetKey(key, _, ttl, _, token) => key.name != [] && token != [] && ValidUtf8(token) && TtlOk(ttl)
    case CancelMigration(token, name) => token != [] && name != [] && ValidUtf8(token) && ValidUtf8(name)
    case _ => false
  }

  /** Only these requests are answered outside the tagged pipeline. */
  predicate Untagged(c: Command) {
    c.Auth? || c.CancelMigration? || c.Migrate?
  }

  function Flag(on: bool, letter: byte): seq<Bytes> {
    if on then [[letter]] else []
  }

  function InternalBody(c: Command): seq<Bytes>
    requires Internal(c)
  {
    match c
    case Auth(secret, _, _) => [secret]
    case HandoffDeleteKey(key, token) => [token, key.ns, key.name]
    case HandoffClear(_, ns, token) => [token, ns]
    case HandoffSetKey(key, value, _, _, token) => [token, key.ns, key.name, value]
    case CancelMigration(token, name) => [token, name]
  }

  function InternalFields(c: Command): (fields: seq<Bytes>)
    requires Internal(c)
    ensures |fields| >= 1
  {
    match c
    case Auth(secret, tagging, retry) => [[65], Print(|secret|)] + Flag(tagging, 84) + Flag(retry, 82)
    case HandoffDeleteKey(key, token) => [[117], Print(|key.ns|), Print(|key.name|), Print(|token|)]
    case HandoffClear(all, ns, token) => [[102], Print(|ns|), Print(|token|)] + Flag(all, 65)
    case HandoffSetKey(key, value, ttl, ifAbsent, token) =>
      [[85], Print(|key.ns|), Print(|key.name|), Print(|value|), Print(|token|)] + TtlFields(ttl) + Flag(ifAbsent, 65)
    case CancelMigration(token, name) => [[88], Print(|name|), Print(|token|)]
  }

  function InternalFrame(c: Command, tagged: bool, tag: nat): Bytes
    requires Internal(c)
  {
    Framed(InternalFields(c) + TagFields(tagged && !Untagged(c), tag), InternalBody(c))
  }

  function InternalHead(c: Command, tagged: bool, tag: nat): Head
    requires Internal(c)
  {
    var t := TagOf(tagged && !Untagged(c), tag);
    var lengths := Sizes(InternalBody(c));
    match c
    case Auth(_, tagging, retry) => Head(AuthShape(tagging, retry), t, lengths)
    case HandoffDeleteKey(_, _) => Head(HandoffDeleteShape, t, lengths)
    case HandoffClear(all, _, _) => Head(HandoffClearShape(all), t, lengths)
    case HandoffSetKey(_, _, ttl, ifAbsent, _) => Head(HandoffSetShape(ttl, ifAbsent), t, lengths)
    case CancelMigration(_, _) => Head(CancelShape, t, lengths)
  }

  // ---- each header reads back ----

  lemma AuthHeadFrom(parts: seq<Bytes>, n: nat)
    requires 2 <= |parts| <= 4 && Length(parts[1]) == Ok(n) && n > 0
    ensures |parts| == 2 ==> AuthHead(parts) == Ok(Head(AuthShape(false, false), None, [n]))
    ensures |parts| == 3 && parts[2] == [84] ==> AuthHead(parts) == Ok(Head(AuthShape(true, false), None, [n]))
    ensures |parts| == 3 && parts[2] == [82] ==> AuthHead(parts) == Ok(Head(AuthShape(false, true), None, [n]))
    ensures |parts| == 4 && parts[2] == [84] && parts[3] == [82] ==>
              AuthHead(parts) == Ok(Head(AuthShape(true, true), None, [n]))
  {
    hide Length;
  }

  lemma AuthParts(length: Bytes, tagging: bool, retry: bool)
    ensures var parts := [[65], length] + Flag(tagging, 84) + Flag(retry, 82);
            && |parts| == 2 + (if tagging then 1 else 0) + (if retry then 1 else 0)
            && parts[1] == length
            && (tagging ==> parts[2] == [84]) && (retry ==> parts[|parts| - 1] == [82])
  {
  }

  lemma AuthHeadReads(secret: Bytes, tagging: bool, retry: bool)
    requires secret != [] && |secret| <= U64_MAX
    ensures AuthHead([[65], Print(|secret|)] + Flag(tagging, 84) + Flag(retry, 82))
         == Ok(Head(AuthShape(tagging, retry), None, [|secret|]))
  {
    hide Print, Length, AuthHead, Flag;
    LengthReads(|secret|);
    AuthParts(Print(|secret|), tagging, retry);
    AuthHeadFrom([[65], Print(|secret|)] + Flag(tagging, 84) + Flag(retry, 82), |secret|);
  }

  lemma HandoffDeleteHeadReads(ns: nat, key: nat, token: nat, tagged: bool, tag: nat)
    requires ns <= U64_MAX && 0 < key <= U64_MAX && 0 < token <= U64_MAX && tag <= U32_MAX
    ensures HandoffDeleteHead([[117], Print(ns), Print(key), Print(token)] + TagFields(tagged, tag), tagged)
         == Ok(Head(HandoffDeleteShape, TagOf(tagged, tag), [token, ns, key]))
  {
    hide Print, Length, TrailingTag, EndsAt, TagFields, TagOf;
    var fields := [[117], Print(ns), Print(key), Print(token)];
    TagTail(fields + TagFields(tagged, tag), fields, tagged, tag);
    LengthReads(ns);
    LengthReads(key);
    LengthReads(token);
  }

  lemma HandoffClearHeadReads(ns: nat, token: nat, all: bool, tagged: bool, tag: nat)
    requires ns <= U64_MAX && 0 < token <= U64_MAX && tag <= U32_MAX && (all ==> ns == 0)
    ensures HandoffClearHead([[102], Print(ns), Print(token)] + Flag(all, 65) + TagFields(tagged, tag), tagged)
         == Ok(Head(HandoffClearShape(all), TagOf(tagged, tag), [token, ns]))
  {
    hide Print, Length, Tag;
    var lead: seq<Bytes> := [[102], Print(ns), Print(token)];
    var trailing := Flag(all, 65) + TagFields(tagged, tag);
    var parts := lead + Flag(all, 65) + TagFields(tagged, tag);
    assert parts == lead + trailing && parts[3..] == trailing;
    assert tagged ==> trailing[..|trailing| - 1] == Flag(all, 65) && trailing[|trailing| - 1] == Print(tag);
    assert !tagged ==> trailing == Flag(all, 65);
    TagReads(tag);
    LengthReads(ns);
    LengthReads(token);
  }

  lemma PrintIsNotA(n: nat)
    ensures Print(n) != [65]
  {
    hide Print;
    assert AllDigits(Print(n));
    assert !AllDigits([65]) by {
      assert [65 as byte][0] == 65;
    }
  }

  function HandoffSetTail(ttl: Option<nat>, ifAbsent: bool, tagged: bool, tag: nat): seq<Bytes> {
    TtlFields(ttl) + Flag(ifAbsent, 65) + TagFields(tagged, tag)
  }

  /** What the header's tail says, read from its end. */
  lemma HandoffSetTailReads(ttl: Option<nat>, ifAbsent: bool, tagged: bool, tag: nat)
    requires tag <= U32_MAX && TtlOk(ttl)
    ensures var trailing := HandoffSetTail(ttl, ifAbsent, tagged, tag);
            && |trailing| <= 3 && (tagged ==> trailing != [] && Tag(trailing[|trailing| - 1]) == Ok(tag))
            && var untagged := if tagged then trailing[..|trailing| - 1] else trailing;
               && (ifAbsent <==> untagged != [] && untagged[|untagged| - 1] == [65])
               && var rest := if ifAbsent then untagged[..|untagged| - 1] else untagged;
                  |rest| <= 1 && OptionalLength(if rest == [] then None else Some(rest[0])) == Ok(ttl)
  {
    hide Print, Tag, OptionalLength;
    var untagged := TtlFields(ttl) + Flag(ifAbsent, 65);
    var trailing := HandoffSetTail(ttl, ifAbsent, tagged, tag);
    assert tagged ==> trailing[..|trailing| - 1] == untagged && trailing[|trailing| - 1] == Print(tag);
    assert !tagged ==> trailing == untagged;
    assert ifAbsent ==> untagged[..|untagged| - 1] == TtlFields(ttl);
    assert !ifAbsent ==> untagged == TtlFields(ttl);
    if ttl.Some? {
      PrintIsNotA(ttl.value);
    }
    TtlReads(ttl);
    TagReads(tag);
  }

  function HandoffSetParts(ns: nat, key: nat, value: nat, token: nat, ttl: Option<nat>, ifAbsent: bool, tagged: bool,
                           tag: nat): seq<Bytes> {
    [[85], Print(ns), Print(key), Print(value), Print(token)] + TtlFields(ttl) + Flag(ifAbsent, 65)
    + TagFields(tagged, tag)
  }

  lemma HandoffSetPartsFields(ns: nat, key: nat, value: nat, token: nat, ttl: Option<nat>, ifAbsent: bool,
                              tagged: bool, tag: nat)
    ensures var parts := HandoffSetParts(ns, key, value, token, ttl, ifAbsent, tagged, tag);
            && |parts| >= 5 && parts[1] == Print(ns) && parts[2] == Print(key) && parts[3] == Print(value)
            && parts[4] == Print(token) && parts[5..] == HandoffSetTail(ttl, ifAbsent, tagged, tag)
  {
    hide Print, TtlFields, Flag, TagFields;
    var lead: seq<Bytes> := [[85], Print(ns), Print(key), Print(value), Print(token)];
    assert HandoffSetParts(ns, key, value, token, ttl, ifAbsent, tagged, tag)
        == lead + HandoffSetTail(ttl, ifAbsent, tagged, tag);
  }

  lemma HandoffSetHeadReads(ns: nat, key: nat, value: nat, token: nat, ttl: Option<nat>, ifAbsent: bool, tagged: bool,
                            tag: nat)
    requires ns <= U64_MAX && 0 < key <= U64_MAX && value <= U64_MAX && 0 < token <= U64_MAX && tag <= U32_MAX
    requires TtlOk(ttl)
    ensures HandoffSetHead(HandoffSetParts(ns, key, value, token, ttl, ifAbsent, tagged, tag), tagged)
         == Ok(Head(HandoffSetShape(ttl, ifAbsent), TagOf(tagged, tag), [token, ns, key, value]))
  {
    hide Print, Length, Tag, OptionalLength, HandoffSetTail, HandoffSetParts, TtlOk;
    HandoffSetPartsFields(ns, key, value, token, ttl, ifAbsent, tagged, tag);
    HandoffSetTailReads(ttl, ifAbsent, tagged, tag);
    LengthReads(ns);
    LengthReads(key);
    LengthReads(value);
    LengthReads(token);
  }

  lemma CancelHeadReads(name: nat, token: nat)
    requires 0 < name <= U64_MAX && 0 < token <= U64_MAX
    ensures CancelHead([[88], Print(name), Print(token)]) == Ok(Head(CancelShape, None, [token, name]))
  {
    hide Print, Length;
    LengthReads(name);
    LengthReads(token);
  }

  lemma InternalHeadReads(c: Command, tagged: bool, tag: nat)
    requires Internal(c) && Measurable(InternalBody(c)) && tag <= U32_MAX
    ensures ParseHead(InternalFields(c) + TagFields(tagged && !Untagged(c), tag), tagged)
         == Ok(InternalHead(c, tagged, tag))
  {
    hide Print, TtlFields, TagFields, TagOf, AuthHead, HandoffDeleteHead, HandoffClearHead, HandoffSetHead, CancelHead,
      ValidUtf8, Flag, TtlOk;
    var body := InternalBody(c);
    assert |body[0]| <= U64_MAX;
    assert |body| > 1 ==> |body[1]| <= U64_MAX;
    assert |body| > 2 ==> |body[2]| <= U64_MAX;
    assert |body| > 3 ==> |body[3]| <= U64_MAX;
    NoTag(tag);
    match c
    case Auth(secret, tagging, retry) =>
      AuthHeadReads(secret, tagging, retry);
      assert Sizes([secret]) == [|secret|];
      assert InternalFields(c) + [] == InternalFields(c);
    case HandoffDeleteKey(key, token) =>
      HandoffDeleteHeadReads(|key.ns|, |key.name|, |token|, tagged, tag);
      SizesOfThree(token, key.ns, key.name);
    case HandoffClear(all, ns, token) =>
      HandoffClearHeadReads(|ns|, |token|, all, tagged, tag);
      SizesOfTwo(token, ns);
    case HandoffSetKey(key, value, ttl, ifAbsent, token) =>
      HandoffSetHeadReads(|key.ns|, |key.name|, |value|, |token|, ttl, ifAbsent, tagged, tag);
      assert Sizes([token, key.ns, key.name, value]) == [|token|, |key.ns|, |key.name|, |value|];
    case CancelMigration(token, name) =>
      CancelHeadReads(|name|, |token|);
      SizesOfTwo(token, name);
      assert InternalFields(c) + [] == InternalFields(c);
  }

  lemma NoTag(tag: nat)
    ensures TagFields(false, tag) == [] && TagOf(false, tag) == None
  {
  }

  lemma InternalIsClean(c: Command, tagged: bool, tag: nat)
    requires Internal(c)
    ensures AllClean(InternalFields(c) + TagFields(tagged && !Untagged(c), tag))
  {
    hide Print, Clean, ValidUtf8;
    LettersClean();
    PrintIsClean(tag);
    match c
    case Auth(secret, _, _) => PrintIsClean(|secret|);
    case HandoffDeleteKey(key, token) => KeyClean(key); PrintIsClean(|token|);
    case HandoffClear(_, ns, token) => PrintIsClean(|ns|); PrintIsClean(|token|);
    case HandoffSetKey(key, value, ttl, _, token) =>
      KeyClean(key); PrintIsClean(|token|); PrintIsClean(|value|); TtlClean(ttl);
    case CancelMigration(token, name) => PrintIsClean(|name|); PrintIsClean(|token|);
  }

  lemma InternalBuildsBack(c: Command, tagged: bool, tag: nat)
    requires Internal(c)
    ensures Fits(InternalHead(c, tagged, tag))
    ensures Build(InternalHead(c, tagged, tag), InternalBody(c)) == Ok(c)
  {
    hide ValidUtf8;
  }

  /** Every such frame is parsed as its command, with its tag where it has one, and what follows is left. */
  lemma InternalFrameParses(c: Command, tagged: bool, tag: nat, rest: Bytes)
    requires Internal(c) && tag <= U32_MAX && |InternalFrame(c, tagged, tag)| <= U64_MAX
    ensures Parse(InternalFrame(c, tagged, tag) + rest, tagged)
         == Done(c, TagOf(tagged && !Untagged(c), tag), |InternalFrame(c, tagged, tag)|)
  {
    hide Parse, ParseHead, Build, InternalFields, AllClean, Fits, TagFields, TagOf, Internal, Join;
    var body := InternalBody(c);
    forall i | 0 <= i < |body|
      ensures |body[i]| <= U64_MAX
    {
      PartsFit(body, i);
    }
    InternalHeadReads(c, tagged, tag);
    InternalIsClean(c, tagged, tag);
    InternalBuildsBack(c, tagged, tag);
    FramedParses(InternalFields(c) + TagFields(tagged && !Untagged(c), tag), body, rest, tagged,
                 InternalHead(c, tagged, tag));
  }

  // ---- a migration: fixed fields, then a roster of entries with their own headers ----

  predicate EntryOk(m: Member) {
    && 0 < |m.name| <= U64_MAX && 0 < |m.addr| <= U64_MAX
    && ValidUtf8(m.name) && ValidUtf8(m.addr)
  }

  predicate MigrationOk(c: Command) {
    && c.Migrate?
    && c.token != [] && c.joiningName != [] && c.joiningAddr != [] && c.joiningToken != []
    && AllUtf8([c.token, c.joiningName, c.joiningAddr, c.joiningToken])
    && |c.joined| <= MAX_ROSTER_ENTRIES
    && (forall i :: 0 <= i < |c.joined| ==> EntryOk(c.joined[i]))
    && 0 < c.replication <= U64_MAX
    && TtlOk(c.generation)
  }

  function EntryText(m: Member): Bytes {
    Print(|m.name|) + [SP] + Print(|m.addr|) + [LF] + m.name + m.addr
  }

  function RosterText(joined: seq<Member>): Bytes {
    if joined == [] then [] else EntryText(joined[0]) + RosterText(joined[1..])
  }

  function MigrationFields(c: Command): (fields: seq<Bytes>)
    requires c.Migrate?
    ensures |fields| >= 1
  {
    [[77], Print(|c.joiningName|), Print(|c.joiningAddr|), Print(|c.joiningToken|), Print(|c.joined|),
     Print(c.replication), Print(|c.token|)] + TtlFields(c.generation)
  }

  function MigrationBody(c: Command): seq<Bytes>
    requires c.Migrate?
  {
    [c.token, c.joiningName, c.joiningAddr, c.joiningToken]
  }

  function MigrationFrame(c: Command): Bytes
    requires c.Migrate?
  {
    Framed(MigrationFields(c), MigrationBody(c)) + RosterText(c.joined)
  }

  lemma MigrationHeadReads(c: Command)
    requires MigrationOk(c) && Measurable(MigrationBody(c))
    ensures MigrateHead(MigrationFields(c))
         == Ok(Head(MigrateShape(|c.joined|, c.replication, c.generation), None, Sizes(MigrationBody(c))))
  {
    hide Print, Length, OptionalLength, ValidUtf8;
    var body := MigrationBody(c);
    assert |body[0]| <= U64_MAX && |body[1]| <= U64_MAX && |body[2]| <= U64_MAX && |body[3]| <= U64_MAX;
    LengthReads(|c.joiningName|);
    LengthReads(|c.joiningAddr|);
    LengthReads(|c.joiningToken|);
    LengthReads(|c.joined|);
    LengthReads(c.replication);
    LengthReads(|c.token|);
    TtlReads(c.generation);
    assert Sizes(body) == [|c.token|, |c.joiningName|, |c.joiningAddr|, |c.joiningToken|];
  }

  lemma SizeIsShort(n: nat)
    requires n <= U64_MAX
    ensures |Print(n)| <= 20
  {
    assert TenTo(5) == 100000;
    assert TenTo(10) == 100000 * 100000;
    assert TenTo(15) == 100000 * 100000 * 100000;
    assert TenTo(20) == 100000 * 100000 * 100000 * 100000;
    PrintSize(n, 20);
  }

  lemma EntryLengthsRead(name: nat, addr: nat)
    requires 0 < name <= U64_MAX && 0 < addr <= U64_MAX
    ensures EntryLengths([Print(name), Print(addr)]) == Ok((name, addr))
  {
    hide Print, Length;
    LengthReads(name);
    LengthReads(addr);
  }

  /** A short line is found within the window the scan looks at. */
  lemma WindowReads(before: Bytes, line: Bytes, tail: Bytes)
    requires LF !in line && |line| <= MAX_ROSTER_LINE_LEN
    ensures var input := before + (line + [LF] + tail);
            var limit := |before| + MAX_ROSTER_LINE_LEN + 1;
            var window := if |input| < limit then |input| else limit;
            Find(input[|before|..window], LF) == Some(|line|) && input[|before|..|before| + |line|] == line
  {
    hide Find;
    var input := before + (line + [LF] + tail);
    var limit := |before| + MAX_ROSTER_LINE_LEN + 1;
    var window := if |input| < limit then |input| else limit;
    var seen := input[|before|..window];
    assert forall i :: 0 <= i <= |line| ==> seen[i] == input[|before| + i] == (line + [LF])[i];
    assert seen[|line|] == LF && seen[..|line|] == line;
    FindIs(seen, LF, |line|);
  }

  lemma TwoSlices(before: Bytes, a: Bytes, b: Bytes, rest: Bytes)
    ensures var input := before + (a + (b + rest)); var n := |before|;
            input[n..n + |a|] == a && input[n + |a|..n + |a| + |b|] == b
  {
  }

  lemma EntryReads(before: Bytes, m: Member, rest: Bytes)
    requires EntryOk(m) && |before + EntryText(m)| <= U64_MAX
    ensures NextEntry(before + EntryText(m) + rest, |before|) == Found(m, |before + EntryText(m)|)
  {
    hide Print, Find, Split, EntryLengths, ValidUtf8;
    var line := Print(|m.name|) + [SP] + Print(|m.addr|);
    var tail := m.name + (m.addr + rest);
    var input := before + EntryText(m) + rest;
    SizeIsShort(|m.name|);
    SizeIsShort(|m.addr|);
    LineIsClean(|m.name|, |m.addr|);
    assert input == before + (line + [LF] + tail);
    WindowReads(before, line, tail);
    EntryLengthsRead(|m.name|, |m.addr|);
    var header := before + (line + [LF]);
    assert input == header + tail;
    TwoSlices(header, m.name, m.addr, rest);
  }

  lemma LineIsClean(name: nat, addr: nat)
    ensures LF !in Print(name) + [SP] + Print(addr)
    ensures Split(Print(name) + [SP] + Print(addr), SP) == [Print(name), Print(addr)]
  {
    hide Print, Split;
    PrintIsClean(name);
    PrintIsClean(addr);
    var parts := [Print(name), Print(addr)];
    assert parts[1..] == [Print(addr)];
    assert Join(parts, SP) == Print(name) + [SP] + Print(addr);
    SplitJoin(parts, SP);
  }

  lemma {:induction false} RosterReads(before: Bytes, joined: seq<Member>, rest: Bytes)
    requires forall i :: 0 <= i < |joined| ==> EntryOk(joined[i])
    requires |before + RosterText(joined)| <= U64_MAX
    ensures Roster(before + RosterText(joined) + rest, |before|, |joined|)
         == Found(joined, |before + RosterText(joined)|)
    decreases |joined|
  {
    hide NextEntry, EntryText;
    if joined != [] {
      var first, others := joined[0], joined[1..];
      var tail := RosterText(others) + rest;
      var input := before + RosterText(joined) + rest;
      assert input == before + EntryText(first) + tail;
      EntryReads(before, first, tail);
      var next := before + EntryText(first);
      assert input == next + RosterText(others) + rest;
      RosterReads(next, others, rest);
      assert joined == [first] + others;
    }
  }

  lemma MigrationIsClean(c: Command)
    requires c.Migrate?
    ensures AllClean(MigrationFields(c))
  {
    hide Print, Clean;
    LettersClean();
    PrintIsClean(|c.joiningName|);
    PrintIsClean(|c.joiningAddr|);
    PrintIsClean(|c.joiningToken|);
    PrintIsClean(|c.joined|);
    PrintIsClean(c.replication);
    PrintIsClean(|c.token|);
    TtlClean(c.generation);
  }

  /** A migration's frame, roster included, is parsed as that migration. */
  lemma MigrationParses(c: Command, tagged: bool, rest: Bytes)
    requires MigrationOk(c) && |MigrationFrame(c)| <= U64_MAX
    ensures Parse(MigrationFrame(c) + rest, tagged) == Done(c, None, |MigrationFrame(c)|)
  {
    hide ParseHead, Join, Split, Find, Wire.Fields, Total, Roster, RosterText, ValidUtf8, MigrationFields, Concat;
    var fields, body := MigrationFields(c), MigrationBody(c);
    var line := Join(fields, SP);
    var input := MigrationFrame(c) + rest;
    forall i | 0 <= i < |body|
      ensures |body[i]| <= U64_MAX
    {
      PartsFit(body, i);
    }
    MigrationHeadReads(c);
    MigrationLetter(c, tagged);
    MigrationIsClean(c);
    JoinAvoids(fields, SP, LF);
    assert input[..|line|] == line && input[|line|] == LF;
    FindIs(input, LF, |line|);
    SplitJoin(fields, SP);
    var start := line + [LF];
    var fixed := start + Concat(body);
    assert input == start + Concat(body) + (RosterText(c.joined) + rest);
    FieldsOfConcat(start, body, RosterText(c.joined) + rest);
    assert input == fixed + RosterText(c.joined) + rest;
    RosterReads(fixed, c.joined, rest);
  }

  lemma MigrationLetter(c: Command, tagged: bool)
    requires c.Migrate?
    ensures ParseHead(MigrationFields(c), tagged) == MigrateHead(MigrationFields(c))
  {
    hide MigrateHead, Print;
  }
}
