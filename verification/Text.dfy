/** Byte-string helpers both ends of the wire share: searching, splitting, joining, UTF-8. */
module Text {
  import opened Basics

  const SP: byte := 32
  const LF: byte := 10

  /** Where `b` first occurs in `s`. */
  function Find(s: Bytes, b: byte): (at: Option<nat>)
    ensures at.Some? ==> at.value < |s| && s[at.value] == b && b !in s[..at.value]
    ensures at.None? ==> b !in s
  {
    if s == [] then None
    else if s[0] == b then Some(0)
    else
      match Find(s[1..], b)
      case None =>
        assert s == [s[0]] + s[1..];
        None
      case Some(i) =>
        assert s[..i + 1] == [s[0]] + s[1..][..i];
        Some(i + 1)
  }

  /** The first occurrence is found whatever follows it, and only there. */
  lemma {:induction false} FindIs(s: Bytes, b: byte, i: nat)
    requires i < |s| && s[i] == b && b !in s[..i]
    ensures Find(s, b) == Some(i)
  {
    if i != 0 {
      assert s[..i][0] == s[0];
      assert s[1..][..i - 1] == s[..i][1..];
      FindIs(s[1..], b, i - 1);
    }
  }

  lemma FindNone(s: Bytes, b: byte)
    requires b !in s
    ensures Find(s, b) == None
  {
  }

  lemma FindStable(s: Bytes, b: byte, more: Bytes)
    requires Find(s, b).Some?
    ensures Find(s + more, b) == Find(s, b)
  {
    var i := Find(s, b).value;
    assert (s + more)[..i] == s[..i];
    FindIs(s + more, b, i);
  }

  /** The pieces between separators: always at least one, possibly empty ones. */
  function Split(s: Bytes, b: byte): (parts: seq<Bytes>)
    ensures |parts| >= 1
    decreases |s|
  {
    match Find(s, b)
    case None => [s]
    case Some(i) => [s[..i]] + Split(s[i + 1..], b)
  }

  function Join(parts: seq<Bytes>, b: byte): Bytes
    requires |parts| >= 1
  {
    if |parts| == 1 then parts[0] else parts[0] + [b] + Join(parts[1..], b)
  }

  /** Splitting what was joined gives the parts back. */
  lemma {:induction false} SplitJoin(parts: seq<Bytes>, b: byte)
    requires |parts| >= 1 && forall i :: 0 <= i < |parts| ==> b !in parts[i]
    ensures Split(Join(parts, b), b) == parts
  {
    var s := Join(parts, b);
    if |parts| == 1 {
      FindNone(s, b);
    } else {
      var i := |parts[0]|;
      var rest := Join(parts[1..], b);
      assert s[..i] == parts[0] && s[i] == b;
      FindIs(s, b, i);
      assert s[i + 1..] == rest;
      SplitJoin(parts[1..], b);
    }
  }

  lemma {:induction false} JoinAvoids(parts: seq<Bytes>, b: byte, c: byte)
    requires |parts| >= 1 && b != c && forall i :: 0 <= i < |parts| ==> c !in parts[i]
    ensures c !in Join(parts, b)
  {
    if |parts| > 1 {
      JoinAvoids(parts[1..], b, c);
    }
  }

  lemma {:induction false} JoinAppend(parts: seq<Bytes>, last: Bytes, b: byte)
    requires |parts| >= 1
    ensures Join(parts + [last], b) == Join(parts, b) + [b] + last
  {
    var all := parts + [last];
    if |parts| == 1 {
      assert all[1..] == [last];
    } else {
      assert all[1..] == parts[1..] + [last];
      JoinAppend(parts[1..], last, b);
    }
  }

  function Concat(parts: seq<Bytes>): Bytes {
    if parts == [] then [] else parts[0] + Concat(parts[1..])
  }

  lemma {:induction false} ConcatAppend(parts: seq<Bytes>, last: Bytes)
    ensures Concat(parts + [last]) == Concat(parts) + last
  {
    if parts == [] {
      assert parts + [last] == [last];
      assert Concat([last]) == last + Concat([]);
    } else {
      assert (parts + [last])[1..] == parts[1..] + [last];
      ConcatAppend(parts[1..], last);
    }
  }

  predicate Continues(s: Bytes, i: nat) {
    i < |s| && 0x80 <= s[i] <= 0xBF
  }

  /** The length of the well-formed UTF-8 sequence `s` starts with, or zero. */
  function Utf8Step(s: Bytes): (n: nat)
    requires s != []
    ensures n <= |s|
  {
    var a := s[0];
    if a <= 0x7F then 1
    else if 0xC2 <= a <= 0xDF then (if Continues(s, 1) then 2 else 0)
    else if 0xE0 <= a <= 0xEF then
      if Continues(s, 1) && Continues(s, 2) && (a == 0xE0 ==> s[1] >= 0xA0) && (a == 0xED ==> s[1] <= 0x9F)
      then 3 else 0
    else if 0xF0 <= a <= 0xF4 then
      if Continues(s, 1) && Continues(s, 2) && Continues(s, 3) && (a == 0xF0 ==> s[1] >= 0x90)
         && (a == 0xF4 ==> s[1] <= 0x8F)
      then 4 else 0
    else 0
  }

  predicate ValidUtf8(s: Bytes)
    decreases |s|
  {
    s == [] || (Utf8Step(s) > 0 && ValidUtf8(s[Utf8Step(s)..]))
  }
}
