/**
 Rendezvous hashing: the canonical key hash, and the total order
 that ranks the nodes of a ring for one key.
 */
module Ranking {
  import opened Basics
  import opened Words

  // ---- FNV-1a ----

  const FNV_OFFSET_BASIS: word := 0xcbf29ce484222325
  const FNV_PRIME: word := 0x100000001b3

  function FnvStep(hash: word, b: byte): word {
    Times(XorWord(hash, b as word), FNV_PRIME)
  }

  /** Feeds `bytes` into an FNV-1a state under way. */
  function FnvFrom(hash: word, bytes: Bytes): word {
    if bytes == [] then hash else FnvStep(FnvFrom(hash, bytes[..|bytes| - 1]), bytes[|bytes| - 1])
  }

  function Fnv(bytes: Bytes): word {
    FnvFrom(FNV_OFFSET_BASIS, bytes)
  }

  method FnvContinue(start: word, bytes: Bytes) returns (hash: word)
    ensures hash == FnvFrom(start, bytes)
  {
    hide FnvStep;
    hash := start;
    for i := 0 to |bytes|
      invariant hash == FnvFrom(start, bytes[..i])
    {
      assert bytes[..i + 1][..i] == bytes[..i];
      hash := FnvStep(hash, bytes[i]);
    }
    assert bytes[..|bytes|] == bytes;
  }

  /** A hash fed in parts is the hash of the whole. */
  lemma {:induction false} FnvStreams(hash: word, a: Bytes, b: Bytes)
    ensures FnvFrom(hash, a + b) == FnvFrom(FnvFrom(hash, a), b)
    decreases |b|
  {
    hide FnvStep;
    if b == [] {
      assert a + b == a;
    } else {
      assert (a + b)[..|a + b| - 1] == a + b[..|b| - 1];
      FnvStreams(hash, a, b[..|b| - 1]);
    }
  }

  // ---- the canonical key hash ----

  /** A 32-bit length, most significant byte first. */
  function BigEndian32(n: nat): Bytes
    requires n < 0x1_0000_0000
  {
    [(n / 256 / 256 / 256) as byte, (n / 256 / 256 % 256) as byte, (n / 256 % 256) as byte, (n % 256) as byte]
  }

  lemma BigEndian32Injective(m: nat, n: nat)
    requires m < 0x1_0000_0000 && n < 0x1_0000_0000 && BigEndian32(m) == BigEndian32(n)
    ensures m == n
  {
    var a, b := BigEndian32(m), BigEndian32(n);
    assert a[0] == b[0] && a[1] == b[1] && a[2] == b[2] && a[3] == b[3];
    assert m / 256 / 256 == n / 256 / 256;
    assert m / 256 == n / 256;
  }

  /** What a key's hash is taken of: its name alone in the default namespace, length-prefixed otherwise. */
  function HashInput(key: Key): Bytes
    requires |key.ns| < 0x1_0000_0000
  {
    if key.ns == [] then key.name else BigEndian32(|key.ns|) + key.ns + key.name
  }

  function KeyHash(key: Key): word
    requires |key.ns| < 0x1_0000_0000
  {
    Fnv(HashInput(key))
  }

  function NamespaceState(ns: Bytes): word
    requires |ns| < 0x1_0000_0000
  {
    if ns == [] then FNV_OFFSET_BASIS else FnvFrom(Fnv(BigEndian32(|ns|)), ns)
  }

  /** Hashing the namespace part first and each name from there gives the one-shot hash. */
  lemma KeyHashStreams(key: Key)
    requires |key.ns| < 0x1_0000_0000
    ensures KeyHash(key) == FnvFrom(NamespaceState(key.ns), key.name)
  {
    hide FnvFrom;
    if key.ns != [] {
      var prefix := BigEndian32(|key.ns|);
      FnvStreams(FNV_OFFSET_BASIS, prefix, key.ns);
      FnvStreams(FNV_OFFSET_BASIS, prefix + key.ns, key.name);
    }
  }

  /** Among non-empty namespaces the hash input determines the key. */
  lemma HashInputDeterminesKey(a: Key, b: Key)
    requires a.ns != [] && b.ns != [] && |a.ns| < 0x1_0000_0000 && |b.ns| < 0x1_0000_0000
    requires HashInput(a) == HashInput(b)
    ensures a == b
  {
    var x, y := HashInput(a), HashInput(b);
    assert x[..4] == BigEndian32(|a.ns|) && y[..4] == BigEndian32(|b.ns|);
    BigEndian32Injective(|a.ns|, |b.ns|);
    var n := 4 + |a.ns|;
    assert x[4..n] == a.ns && y[4..n] == b.ns;
    assert x[n..] == a.name && y[n..] == b.name;
  }

  /** Across the default namespace it does not: a name may spell out another key's input. */
  lemma DefaultNamespaceSharesInputs(key: Key)
    requires key.ns != [] && |key.ns| < 0x1_0000_0000
    ensures HashInput(Key([], HashInput(key))) == HashInput(key)
  {
  }

  /** A byte string in memory: the allocation it lies in and its length fix its content. */
  datatype Handle = Handle(address: nat, bytes: Bytes)

  ghost predicate Shared(a: Handle, b: Handle) {
    a.address == b.address && |a.bytes| == |b.bytes| ==> a.bytes == b.bytes
  }

  /** Remembers the hash state after the last namespace seen, recognised by identity. */
  class KeyHasher {
    var last: Option<(Handle, word)>

    ghost predicate Valid()
      reads this
    {
      last.Some? ==> |last.value.0.bytes| < 0x1_0000_0000 && last.value.1 == NamespaceState(last.value.0.bytes)
    }

    constructor ()
      ensures Valid() && last == None
    {
      last := None;
    }

    /** Whatever was hashed before, the result is the one-shot hash of the key. */
    method Hash(ns: Handle, name: Bytes) returns (hash: word)
      requires Valid() && |ns.bytes| < 0x1_0000_0000
      requires last.Some? ==> Shared(last.value.0, ns)
      modifies this
      ensures Valid()
      ensures last.Some? && last.value.0.bytes == ns.bytes
      ensures hash == KeyHash(Key(ns.bytes, name))
    {
      hide NamespaceState, KeyHash, FnvFrom;
      var state;
      if last.Some? && last.value.0.address == ns.address && |last.value.0.bytes| == |ns.bytes| {
        state := last.value.1;
      } else {
        state := NamespaceState(ns.bytes);
        last := Some((ns, state));
      }
      hash := FnvContinue(state, name);
      KeyHashStreams(Key(ns.bytes, name));
    }
  }

  // ---- ranking ----

  /** Names compared byte by byte, a prefix before what extends it. */
  predicate Before(a: Bytes, b: Bytes) {
    if b == [] then false
    else if a == [] then true
    else a[0] < b[0] || (a[0] == b[0] && Before(a[1..], b[1..]))
  }

  lemma {:induction false} BeforeTotal(a: Bytes, b: Bytes)
    ensures a == b || Before(a, b) || Before(b, a)
    ensures !(Before(a, b) && Before(b, a))
    ensures Before(a, b) ==> a != b
  {
    if a != [] && b != [] && a[0] == b[0] {
      BeforeTotal(a[1..], b[1..]);
      assert a[1..] == b[1..] ==> a == b by {
        if a[1..] == b[1..] {
          assert a == [a[0]] + a[1..] && b == [b[0]] + b[1..];
        }
      }
    }
  }

  lemma {:induction false} BeforeTransitive(a: Bytes, b: Bytes, c: Bytes)
    requires Before(a, b) && Before(b, c)
    ensures Before(a, c)
  {
    if a != [] && a[0] == b[0] && b[0] == c[0] {
      BeforeTransitive(a[1..], b[1..], c[1..]);
    }
  }

  function NodeScore(node: Bytes, keyHash: word): word {
    Score(Fnv(node), keyHash)
  }

  /** `a` ranks ahead of `b` for the key: a higher score, or an equal one and the smaller name. */
  predicate Ahead(a: Bytes, b: Bytes, keyHash: word) {
    NodeScore(a, keyHash) > NodeScore(b, keyHash)
    || (NodeScore(a, keyHash) == NodeScore(b, keyHash) && Before(a, b))
  }

  lemma AheadTotal(a: Bytes, b: Bytes, keyHash: word)
    ensures a == b || Ahead(a, b, keyHash) || Ahead(b, a, keyHash)
    ensures !(Ahead(a, b, keyHash) && Ahead(b, a, keyHash))
    ensures !Ahead(a, a, keyHash)
    ensures NodeScore(a, keyHash) > NodeScore(b, keyHash) ==> Ahead(a, b, keyHash)
  {
    hide NodeScore, Before;
    BeforeTotal(a, b);
    BeforeTotal(a, a);
  }

  lemma AheadTransitive(a: Bytes, b: Bytes, c: Bytes, keyHash: word)
    requires Ahead(a, b, keyHash) && Ahead(b, c, keyHash)
    ensures Ahead(a, c, keyHash)
  {
    hide NodeScore, Before;
    if Before(a, b) && Before(b, c) {
      BeforeTransitive(a, b, c);
    }
  }
}
