/** The Go client's frame builders, appended to piece by piece, and a whole pipeline of them read back. */
module GoFrames {
  import opened Basics
  import opened Decimal
  import opened Text
  import opened StoreSpec
  import opened Wire
  import opened Frames
  import opened Requests

  /** A space, then one more header field. */
  method AppendField(frame: Bytes, field: Bytes, ghost fields: seq<Bytes>) returns (next: Bytes)
    requires |fields| >= 1 && frame == Join(fields, SP)
    ensures next == Join(fields + [field], SP)
  {
    JoinAppend(fields, field, SP);
    next := frame + [SP] + field;
  }

  /** The optional TTL: a negative number of seconds leaves it out. */
  method AppendTtl(frame: Bytes, ttlSeconds: int, ghost fields: seq<Bytes>) returns (next: Bytes)
    requires |fields| >= 1 && frame == Join(fields, SP)
    ensures next == Join(fields + TtlFields(TtlOf(ttlSeconds)), SP)
  {
    if ttlSeconds >= 0 {
      next := AppendField(frame, Print(ttlSeconds), fields);
    } else {
      assert fields + TtlFields(None) == fields;
      next := frame;
    }
  }

  function TtlOf(ttlSeconds: int): Option<nat> {
    if ttlSeconds >= 0 then Some(ttlSeconds) else None
  }

  /** The tag, if there is one, and the end of the line. */
  method EndLine(frame: Bytes, tagged: bool, tag: nat, ghost fields: seq<Bytes>) returns (next: Bytes)
    requires |fields| >= 1 && frame == Join(fields, SP)
    ensures next == Join(fields + TagFields(tagged, tag), SP) + [LF]
  {
    if tagged {
      next := AppendField(frame, Print(tag), fields);
    } else {
      assert fields + TagFields(tagged, tag) == fields;
      next := frame;
    }
    next := next + [LF];
  }

  lemma TwoParts(a: Bytes, b: Bytes)
    ensures Concat([a, b]) == a + b
  {
    assert [a, b][1..] == [b] && [b][1..] == [];
    assert Concat([b]) == b + [];
  }

  lemma ThreeParts(a: Bytes, b: Bytes, c: Bytes)
    ensures Concat([a, b, c]) == a + b + c
  {
    assert [a, b, c][1..] == [b, c];
    TwoParts(b, c);
    assert a + (b + c) == a + b + c;
  }

  /** The plain letter for the default namespace, or the lower-case one and the namespace's length. */
  method StartKeyed(letter: byte, lower: byte, ns: Bytes) returns (frame: Bytes)
    ensures frame == Join(Lead(letter, ns, lower), SP)
  {
    if ns == [] {
      frame := [letter];
    } else {
      frame := AppendField([lower], Print(|ns|), [[lower]]);
      assert [[lower]] + [Print(|ns|)] == Lead(letter, ns, lower);
    }
  }

  method GetFrame(ns: Bytes, key: Bytes, tagged: bool, tag: nat) returns (frame: Bytes)
    requires key != []
    ensures frame == Frame(GetKey(Key(ns, key)), tagged, tag)
  {
    hide Print, Join;
    ghost var lead := Lead(71, ns, 103);
    frame := StartKeyed(71, 103, ns);
    frame := AppendField(frame, Print(|key|), lead);
    frame := EndLine(frame, tagged, tag, lead + [Print(|key|)]);
    TwoParts(ns, key);
    frame := frame + ns;
    frame := frame + key;
  }

  method DeleteFrame(ns: Bytes, key: Bytes, tagged: bool, tag: nat) returns (frame: Bytes)
    requires key != []
    ensures frame == Frame(DeleteKey(Key(ns, key)), tagged, tag)
  {
    hide Print, Join;
    ghost var lead := Lead(68, ns, 100);
    frame := StartKeyed(68, 100, ns);
    frame := AppendField(frame, Print(|key|), lead);
    frame := EndLine(frame, tagged, tag, lead + [Print(|key|)]);
    TwoParts(ns, key);
    frame := frame + ns;
    frame := frame + key;
  }

  lemma TwoMore(fields: seq<Bytes>, a: Bytes, b: Bytes)
    ensures fields + [a] + [b] == fields + [a, b]
  {
  }

  method SetFrame(ns: Bytes, key: Bytes, value: Bytes, ttlSeconds: int, tagged: bool, tag: nat) returns (frame: Bytes)
    requires key != [] && ttlSeconds <= I64_MAX
    ensures frame == Frame(SetKey(Key(ns, key), value, TtlOf(ttlSeconds)), tagged, tag)
  {
    hide Print, Join, TtlFields, TagFields, Lead;
    ghost var fields := Lead(83, ns, 115);
    frame := StartKeyed(83, 115, ns);
    frame := AppendField(frame, Print(|key|), fields);
    fields := fields + [Print(|key|)];
    frame := AppendField(frame, Print(|value|), fields);
    TwoMore(Lead(83, ns, 115), Print(|key|), Print(|value|));
    fields := fields + [Print(|value|)];
    frame := AppendTtl(frame, ttlSeconds, fields);
    frame := EndLine(frame, tagged, tag, fields + TtlFields(TtlOf(ttlSeconds)));
    ThreeParts(ns, key, value);
    frame := frame + ns;
    frame := frame + key;
    frame := frame + value;
  }

  /** A lower-case letter and the lengths of the namespace and the key. */
  method StartNamespaced(letter: byte, ns: Bytes, size: nat) returns (frame: Bytes)
    ensures frame == Join([[letter], Print(|ns|), Print(size)], SP)
  {
    hide Print;
    frame := AppendField([letter], Print(|ns|), [[letter]]);
    frame := AppendField(frame, Print(size), [[letter]] + [Print(|ns|)]);
    assert [[letter]] + [Print(|ns|)] + [Print(size)] == [[letter], Print(|ns|), Print(size)];
  }

  method IncrFrame(ns: Bytes, key: Bytes, delta: int, tagged: bool, tag: nat) returns (frame: Bytes)
    requires key != [] && I64_MIN <= delta <= I64_MAX
    ensures frame == Frame(IncrKey(Key(ns, key), delta), tagged, tag)
  {
    hide Print, PrintInt, Join;
    ghost var lead: seq<Bytes> := [[105], Print(|ns|), Print(|key|)];
    frame := StartNamespaced(105, ns, |key|);
    frame := AppendField(frame, PrintInt(delta), lead);
    assert lead + [PrintInt(delta)] == [[105], Print(|ns|), Print(|key|), PrintInt(delta)];
    frame := EndLine(frame, tagged, tag, lead + [PrintInt(delta)]);
    TwoParts(ns, key);
    frame := frame + ns;
    frame := frame + key;
  }

  method CasFrame(ns: Bytes, key: Bytes, value: Bytes, condition: Condition, ttlSeconds: int, tagged: bool, tag: nat)
    returns (frame: Bytes)
    requires key != [] && ttlSeconds <= I64_MAX && (condition.Matches? ==> |condition.digest| == 16)
    ensures frame == Frame(CasSetKey(Key(ns, key), condition, value, TtlOf(ttlSeconds)), tagged, tag)
  {
    hide Print, Join, ConditionText, TtlFields;
    ghost var fields: seq<Bytes> := [[107], Print(|ns|), Print(|key|)];
    frame := StartNamespaced(107, ns, |key|);
    frame := AppendField(frame, Print(|value|), fields);
    fields := fields + [Print(|value|)];
    frame := AppendField(frame, ConditionText(condition), fields);
    assert fields + [ConditionText(condition)]
        == [[107], Print(|ns|), Print(|key|), Print(|value|), ConditionText(condition)];
    fields := fields + [ConditionText(condition)];
    frame := AppendTtl(frame, ttlSeconds, fields);
    frame := EndLine(frame, tagged, tag, fields + TtlFields(TtlOf(ttlSeconds)));
    ThreeParts(ns, key, value);
    frame := frame + ns;
    frame := frame + key;
    frame := frame + value;
  }

  method DeleteIfMatchesFrame(ns: Bytes, key: Bytes, digest: Bytes, tagged: bool, tag: nat) returns (frame: Bytes)
    requires key != [] && |digest| == 16
    ensures frame == Frame(CasDeleteKey(Key(ns, key), digest), tagged, tag)
  {
    hide Print, Join, HexText;
    ghost var lead: seq<Bytes> := [[120], Print(|ns|), Print(|key|)];
    frame := StartNamespaced(120, ns, |key|);
    frame := AppendField(frame, HexText(digest), lead);
    assert lead + [HexText(digest)] == [[120], Print(|ns|), Print(|key|), HexText(digest)];
    frame := EndLine(frame, tagged, tag, lead + [HexText(digest)]);
    TwoParts(ns, key);
    frame := frame + ns;
    frame := frame + key;
  }

  method AppendGet(frame: Bytes, get: bool, ghost fields: seq<Bytes>) returns (next: Bytes)
    requires |fields| >= 1 && frame == Join(fields, SP)
    ensures next == Join(fields + (if get then [[71]] else []), SP)
  {
    if get {
      next := AppendField(frame, [71], fields);
    } else {
      assert fields + [] == fields;
      next := frame;
    }
  }

  method TouchFrame(ns: Bytes, key: Bytes, ttlSeconds: int, get: bool, tagged: bool, tag: nat) returns (frame: Bytes)
    requires key != [] && ttlSeconds <= I64_MAX
    ensures frame == Frame(TouchKey(Key(ns, key), TtlOf(ttlSeconds), get), tagged, tag)
  {
    hide Print, Join, TtlFields;
    ghost var fields: seq<Bytes> := [[116], Print(|ns|), Print(|key|)];
    frame := StartNamespaced(116, ns, |key|);
    frame := AppendTtl(frame, ttlSeconds, fields);
    fields := fields + TtlFields(TtlOf(ttlSeconds));
    frame := AppendGet(frame, get, fields);
    frame := EndLine(frame, tagged, tag, fields + (if get then [[71]] else []));
    TwoParts(ns, key);
    frame := frame + ns;
    frame := frame + key;
  }

  method ClearFrame(ns: Bytes, tagged: bool, tag: nat) returns (frame: Bytes)
    ensures frame == Frame(ClearNs(ns), tagged, tag)
  {
    hide Print, Join;
    frame := [99];
    assert [99] == Join([[99]], SP) by {
      JoinOne([99]);
    }
    frame := AppendField(frame, Print(|ns|), [[99]]);
    assert [[99]] + [Print(|ns|)] == [[99], Print(|ns|)];
    frame := EndLine(frame, tagged, tag, [[99], Print(|ns|)]);
    assert Concat([ns]) == ns by {
      OnePart(ns);
    }
    frame := frame + ns;
  }

  lemma JoinOne(field: Bytes)
    ensures Join([field], SP) == field
  {
  }

  lemma OnePart(a: Bytes)
    ensures Concat([a]) == a
  {
    assert [a][1..] == [] && a + [] == a;
  }

  method ClearAllFrame(tagged: bool, tag: nat) returns (frame: Bytes)
    ensures frame == Frame(ClearEverything, tagged, tag)
  {
    hide Print, Join;
    JoinOne([70]);
    frame := EndLine([70], tagged, tag, [[70]]);
    assert frame + [] == frame;
  }

  lemma PrintedAppend(done: seq<Bytes>, next: Bytes)
    ensures Printed(done + [next]) == Printed(done) + [Print(|next|)]
  {
    hide Print;
    forall i | 0 <= i <= |done|
      ensures Printed(done + [next])[i] == (Printed(done) + [Print(|next|)])[i]
    {
      assert i < |done| ==> (done + [next])[i] == done[i];
    }
  }

  /** The lengths of the keys, one field each, in a loop. */
  method AppendLengths(start: Bytes, keys: seq<Bytes>, ghost lead: seq<Bytes>) returns (frame: Bytes)
    requires |lead| >= 1 && start == Join(lead, SP)
    ensures frame == Join(lead + Printed(keys), SP)
  {
    hide Print, Join, Printed;
    frame := start;
    assert lead + Printed(keys[..0]) == lead by {
      PrintedSize(keys[..0]);
    }
    for i := 0 to |keys|
      invariant frame == Join(lead + Printed(keys[..i]), SP)
    {
      frame := AppendField(frame, Print(|keys[i]|), lead + Printed(keys[..i]));
      assert keys[..i + 1] == keys[..i] + [keys[i]];
      PrintedAppend(keys[..i], keys[i]);
      assert lead + Printed(keys[..i]) + [Print(|keys[i]|)] == lead + Printed(keys[..i + 1]);
    }
    assert keys[..|keys|] == keys;
  }

  /** The keys themselves, one after another. */
  method AppendAll(start: Bytes, parts: seq<Bytes>) returns (frame: Bytes)
    ensures frame == start + Concat(parts)
  {
    hide Concat;
    frame := start;
    assert frame + Concat(parts[..0]) == frame by {
      NoParts();
    }
    for i := 0 to |parts|
      invariant frame == start + Concat(parts[..i])
    {
      assert parts[..i + 1] == parts[..i] + [parts[i]];
      ConcatAppend(parts[..i], parts[i]);
      assert frame + parts[i] == start + (Concat(parts[..i]) + parts[i]);
      frame := frame + parts[i];
    }
    assert parts[..|parts|] == parts;
  }

  lemma NoParts()
    ensures Concat([]) == []
  {
  }

  lemma ConcatCons(first: Bytes, rest: seq<Bytes>)
    ensures Concat([first] + rest) == first + Concat(rest)
  {
    assert ([first] + rest)[1..] == rest;
  }

  method MultiGetFrame(ns: Bytes, keys: seq<Bytes>, tagged: bool, tag: nat) returns (frame: Bytes)
    requires keys != [] && AllNonEmpty(keys)
    ensures frame == Frame(MultiGet(ns, keys), tagged, tag)
  {
    hide Print, Join, Concat, Printed, AllNonEmpty;
    ghost var lead: seq<Bytes> := [[109], Print(|ns|), Print(|keys|)];
    frame := StartNamespaced(109, ns, |keys|);
    frame := AppendLengths(frame, keys, lead);
    frame := EndLine(frame, tagged, tag, lead + Printed(keys));
    ConcatCons(ns, keys);
    frame := frame + ns;
    frame := AppendAll(frame, keys);
  }

  method MultiTouchFrame(ns: Bytes, keys: seq<Bytes>, ttlSeconds: int, get: bool, tagged: bool, tag: nat)
    returns (frame: Bytes)
    requires keys != [] && AllNonEmpty(keys) && ttlSeconds <= I64_MAX
    ensures frame == Frame(MultiTouch(ns, keys, TtlOf(ttlSeconds), get), tagged, tag)
  {
    hide Print, Join, Concat, Printed, AllNonEmpty, TtlFields;
    ghost var fields: seq<Bytes> := [[121], Print(|ns|), Print(|keys|)];
    frame := StartNamespaced(121, ns, |keys|);
    frame := AppendLengths(frame, keys, fields);
    fields := fields + Printed(keys);
    frame := AppendTtl(frame, ttlSeconds, fields);
    fields := fields + TtlFields(TtlOf(ttlSeconds));
    frame := AppendGet(frame, get, fields);
    frame := EndLine(frame, tagged, tag, fields + (if get then [[71]] else []));
    ConcatCons(ns, keys);
    frame := frame + ns;
    frame := AppendAll(frame, keys);
  }

  lemma {:induction false} InterleavedAppend(keys: seq<Bytes>, values: seq<Bytes>, key: Bytes, value: Bytes)
    requires |keys| == |values|
    ensures Interleaved(keys + [key], values + [value]) == Interleaved(keys, values) + [key, value]
    decreases |keys|
  {
    if keys == [] {
      assert (keys + [key])[1..] == [] && (values + [value])[1..] == [];
    } else {
      assert (keys + [key])[1..] == keys[1..] + [key] && (values + [value])[1..] == values[1..] + [value];
      InterleavedAppend(keys[1..], values[1..], key, value);
    }
  }

  method MultiSetFrame(ns: Bytes, keys: seq<Bytes>, values: seq<Bytes>, ttlSeconds: int, tagged: bool, tag: nat)
    returns (frame: Bytes)
    requires keys != [] && AllNonEmpty(keys) && |keys| == |values| && ttlSeconds <= I64_MAX
    ensures frame == Frame(MultiSet(ns, keys, values, TtlOf(ttlSeconds)), tagged, tag)
  {
    hide Print, Join, Concat, Printed, AllNonEmpty, TtlFields, Interleaved;
    ghost var all := Interleaved(keys, values);
    ghost var fields: seq<Bytes> := [[111], Print(|ns|), Print(|keys|)];
    frame := StartNamespaced(111, ns, |keys|);
    frame := AppendPairLengths(frame, keys, values, fields);
    fields := fields + Printed(all);
    frame := AppendTtl(frame, ttlSeconds, fields);
    frame := EndLine(frame, tagged, tag, fields + TtlFields(TtlOf(ttlSeconds)));
    ConcatCons(ns, all);
    frame := frame + ns;
    frame := AppendPairs(frame, keys, values);
  }

  method AppendPairLengths(start: Bytes, keys: seq<Bytes>, values: seq<Bytes>, ghost lead: seq<Bytes>)
    returns (frame: Bytes)
    requires |lead| >= 1 && start == Join(lead, SP) && |keys| == |values|
    ensures frame == Join(lead + Printed(Interleaved(keys, values)), SP)
  {
    hide Print, Join, Printed, Interleaved;
    frame := start;
    assert lead + Printed(Interleaved(keys[..0], values[..0])) == lead by {
      InterleavedParts(keys[..0], values[..0]);
      PrintedSize(Interleaved(keys[..0], values[..0]));
    }
    for i := 0 to |keys|
      invariant frame == Join(lead + Printed(Interleaved(keys[..i], values[..i])), SP)
    {
      ghost var done := Interleaved(keys[..i], values[..i]);
      frame := AppendField(frame, Print(|keys[i]|), lead + Printed(done));
      PrintedAppend(done, keys[i]);
      assert lead + Printed(done) + [Print(|keys[i]|)] == lead + Printed(done + [keys[i]]);
      frame := AppendField(frame, Print(|values[i]|), lead + Printed(done + [keys[i]]));
      PrintedAppend(done + [keys[i]], values[i]);
      assert lead + Printed(done + [keys[i]]) + [Print(|values[i]|)] == lead + Printed(done + [keys[i]] + [values[i]]);
      assert keys[..i + 1] == keys[..i] + [keys[i]] && values[..i + 1] == values[..i] + [values[i]];
      InterleavedAppend(keys[..i], values[..i], keys[i], values[i]);
      assert done + [keys[i]] + [values[i]] == done + [keys[i], values[i]];
    }
    assert keys[..|keys|] == keys && values[..|values|] == values;
  }

  method AppendPairs(start: Bytes, keys: seq<Bytes>, values: seq<Bytes>) returns (frame: Bytes)
    requires |keys| == |values|
    ensures frame == start + Concat(Interleaved(keys, values))
  {
    hide Concat, Interleaved;
    frame := start;
    assert start + Concat(Interleaved(keys[..0], values[..0])) == start by {
      InterleavedParts(keys[..0], values[..0]);
      NoParts();
    }
    for i := 0 to |keys|
      invariant frame == start + Concat(Interleaved(keys[..i], values[..i]))
    {
      ghost var done := Interleaved(keys[..i], values[..i]);
      assert keys[..i + 1] == keys[..i] + [keys[i]] && values[..i + 1] == values[..i] + [values[i]];
      InterleavedAppend(keys[..i], values[..i], keys[i], values[i]);
      ConcatAppend(done, keys[i]);
      ConcatAppend(done + [keys[i]], values[i]);
      assert done + [keys[i]] + [values[i]] == done + [keys[i], values[i]];
      frame := frame + keys[i];
      frame := frame + values[i];
    }
    assert keys[..|keys|] == keys && values[..|values|] == values;
  }

  // ---- a pipeline of requests ----

  predicate AllSendable(requests: seq<Request>, tagged: bool) {
    forall i :: 0 <= i < |requests| ==>
      && Sendable(requests[i].command)
      && (requests[i].tag.Some? <==> tagged)
      && (tagged ==> requests[i].tag.value <= U32_MAX)
      && |FrameOf(requests[i])| <= U64_MAX
  }

  function FrameOf(request: Request): Bytes
    requires Sendable(request.command)
  {
    Frame(request.command, request.tag.Some?, if request.tag.Some? then request.tag.value else 0)
  }

  function Stream(requests: seq<Request>, tagged: bool): Bytes
    requires AllSendable(requests, tagged)
  {
    if requests == [] then [] else FrameOf(requests[0]) + Stream(requests[1..], tagged)
  }

  /** Requests framed back to back are read back in order, none lost and none invented, in either mode. */
  lemma {:induction false} PipelineParses(requests: seq<Request>, tagged: bool, before: seq<Request>,
                                          mode: seq<Request> -> bool)
    requires AllSendable(requests, tagged) && forall r :: mode(r) == tagged
    ensures ReadAll(Stream(requests, tagged), before, mode) == Reading(before + requests, None, [])
    decreases |requests|
  {
    hide Frame, Parse;
    if requests == [] {
      NothingYet(before, mode);
      assert before + requests == before;
    } else {
      var first, others := requests[0], requests[1..];
      var frame, rest := FrameOf(first), Stream(others, tagged);
      var tag := if tagged then first.tag.value else 0;
      FrameParses(first.command, tagged, tag, rest);
      assert (frame + rest)[|frame|..] == rest;
      PipelineParses(others, tagged, before + [first], mode);
      assert before + [first] + others == before + requests;
    }
  }
}
