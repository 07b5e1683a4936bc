/** The hash vectors every implementation of nanocached asserts: they fix the constants, the steps and their order. */
module HashVectors {
  import opened Basics
  import opened Words
  import opened Ranking

  /** The binary digit of weight `w`. */
  function Bit(x: nat, w: nat): nat {
    if x >= w then 1 else 0
  }

  function Less(x: nat, w: nat): nat {
    if x >= w then x - w else x
  }

  /** Exclusive or of two numbers below 2, 4 and 16, bit by bit from the top. */
  function One(x: nat, y: nat): nat {
    if x == y then 0 else 1
  }

  function Pair(x: nat, y: nat): nat {
    2 * One(Bit(x, 2), Bit(y, 2)) + One(Less(x, 2), Less(y, 2))
  }

  function Digit(x: nat, y: nat): nat {
    8 * One(Bit(x, 8), Bit(y, 8)) + 4 * One(Bit(Less(x, 8), 4), Bit(Less(y, 8), 4))
    + Pair(Less(Less(x, 8), 4), Less(Less(y, 8), 4))
  }

  lemma XorBit(a: nat, b: nat, x: nat, y: nat)
    requires x < 2 && y < 2
    ensures Xor(2 * a + x, 2 * b + y) == 2 * Xor(a, b) + One(x, y)
  {
    XorUnfolds(2 * a + x, 2 * b + y);
    hide Xor;
    assert (2 * a + x) / 2 == a && (2 * b + y) / 2 == b;
    assert (2 * a + x + (2 * b + y)) % 2 == One(x, y) by {
      assert 2 * a + x + (2 * b + y) == 2 * (a + b) + (x + y);
    }
  }

  lemma XorUnfolds(a: nat, b: nat)
    ensures Xor(a, b) == 2 * Xor(a / 2, b / 2) + (a + b) % 2
  {
  }

  lemma XorPair(a: nat, b: nat, x: nat, y: nat)
    requires x < 4 && y < 4
    ensures Xor(4 * a + x, 4 * b + y) == 4 * Xor(a, b) + Pair(x, y)
  {
    hide Xor, One;
    XorBit(a, b, Bit(x, 2), Bit(y, 2));
    XorBit(2 * a + Bit(x, 2), 2 * b + Bit(y, 2), Less(x, 2), Less(y, 2));
  }

  lemma XorDigit(a: nat, b: nat, x: nat, y: nat)
    requires x < 16 && y < 16
    ensures Xor(16 * a + x, 16 * b + y) == 16 * Xor(a, b) + Digit(x, y)
  {
    hide Xor, One, Pair;
    var x', y' := Less(x, 8), Less(y, 8);
    XorBit(a, b, Bit(x, 8), Bit(y, 8));
    var c, d := 2 * a + Bit(x, 8), 2 * b + Bit(y, 8);
    XorBit(c, d, Bit(x', 4), Bit(y', 4));
    XorPair(2 * c + Bit(x', 4), 2 * d + Bit(y', 4), Less(x', 4), Less(y', 4));
  }

  /** A word against a byte: only its last two hexadecimal digits matter. */
  lemma XorByte(high: nat, p: nat, q: nat, r: nat, s: nat)
    requires p < 16 && q < 16 && r < 16 && s < 16
    ensures Xor(256 * high + 16 * p + q, 16 * r + s) == 256 * high + 16 * Digit(p, r) + Digit(q, s)
  {
    hide Xor, Digit;
    XorDigit(16 * high + p, r, q, s);
    XorDigit(high, 0, p, r);
    XorZero(high);
  }

  /** `high` followed by eight hexadecimal digits. */
  function Hex(high: nat, d: seq<nat>): nat
    requires |d| == 8
  {
    16 * (16 * (16 * (16 * (16 * (16 * (16 * (16 * high + d[0]) + d[1]) + d[2]) + d[3]) + d[4]) + d[5]) + d[6]) + d[7]
  }

  /** A word against one of half its length, digit by digit. */
  lemma XorWide(high: nat, x: seq<nat>, y: seq<nat>)
    requires |x| == |y| == 8 && forall i :: 0 <= i < 8 ==> x[i] < 16 && y[i] < 16
    ensures Xor(Hex(high, x), Hex(0, y)) == Hex(high, seq(8, i requires 0 <= i < 8 => Digit(x[i], y[i])))
  {
    hide Xor, Digit;
    XorZero(high);
    XorDigit(high, 0, x[0], y[0]);
    var a0, b0 := 16 * high + x[0], y[0];
    XorDigit(a0, b0, x[1], y[1]);
    var a1, b1 := 16 * a0 + x[1], 16 * b0 + y[1];
    XorDigit(a1, b1, x[2], y[2]);
    var a2, b2 := 16 * a1 + x[2], 16 * b1 + y[2];
    XorDigit(a2, b2, x[3], y[3]);
    var a3, b3 := 16 * a2 + x[3], 16 * b2 + y[3];
    XorDigit(a3, b3, x[4], y[4]);
    var a4, b4 := 16 * a3 + x[4], 16 * b3 + y[4];
    XorDigit(a4, b4, x[5], y[5]);
    var a5, b5 := 16 * a4 + x[5], 16 * b4 + y[5];
    XorDigit(a5, b5, x[6], y[6]);
    var a6, b6 := 16 * a5 + x[6], 16 * b5 + y[6];
    XorDigit(a6, b6, x[7], y[7]);
  }

  /** One more byte of `input` fed into the hash. */
  lemma Fed(input: Bytes, i: nat, high: nat, p: nat, q: nat, r: nat, s: nat, next: word)
    requires i < |input| && input[i] as nat == 16 * r + s && p < 16 && q < 16 && r < 16 && s < 16
    requires Fnv(input[..i]) == 256 * high + 16 * p + q
    requires var x := 256 * high + 16 * Digit(p, r) + Digit(q, s); x < WORD && Times(x, FNV_PRIME) == next
    ensures Fnv(input[..i + 1]) == next
  {
    hide Xor, Digit, Times;
    XorByte(high, p, q, r, s);
    assert input[..i + 1][..i] == input[..i];
  }

  lemma Fnv0()
    ensures Fnv([]) == 0xcbf29ce484222325
  {
  }

  /** The published FNV-1a hashes of the empty string and of "a". */
  lemma FnvVectors()
    ensures Fnv([]) == 0xcbf29ce484222325
    ensures Fnv([97]) == 0xaf63dc4c8601ec8c
  {
    hide FnvFrom, Xor;
    Fnv0();
    var input: Bytes := [97];
    assert input[..0] == [] && input[..1] == input;
    Fed(input, 0, 0xcbf29ce4842223, 2, 5, 6, 1, 0xaf63dc4c8601ec8c);
  }

  /** What a key's hash is taken of, byte by byte: the namespace's length from its most significant byte, then both. */
  lemma HashInputLayout(key: Key)
    requires |key.ns| < 0x1_0000_0000
    ensures var input := HashInput(key);
            if key.ns == [] then input == key.name
            else
              && |input| == 4 + |key.ns| + |key.name|
              && |key.ns| == 0x100_0000 * input[0] as nat + 0x1_0000 * input[1] as nat + 0x100 * input[2] as nat
                             + input[3] as nat
              && input[4..4 + |key.ns|] == key.ns && input[4 + |key.ns|..] == key.name
  {
    var n := |key.ns|;
    assert n == 256 * (n / 256) + n % 256;
    assert n / 256 == 256 * (n / 256 / 256) + n / 256 % 256;
    assert n / 256 / 256 == 256 * (n / 256 / 256 / 256) + n / 256 / 256 % 256;
  }

  lemma Mixed(high: nat, x: seq<nat>, y: seq<nat>)
    requires |x| == |y| == 8 && forall i :: 0 <= i < 8 ==> x[i] < 16 && y[i] < 16
    requires Hex(high, x) < WORD && Hex(0, y) == Hex(high, x) / HALF
    ensures XorShift(Hex(high, x)) == Hex(high, seq(8, i requires 0 <= i < 8 => Digit(x[i], y[i])))
  {
    hide Xor, Digit, Hex;
    XorWide(high, x, y);
  }

  lemma FirstMix()
    ensures XorShift(0xff51afd7ed558ccd) == 0xff51afd792fd5b26
  {
    hide XorShift;
    Mixed(0xff51afd7, [14, 13, 5, 5, 8, 12, 12, 13], [7, 15, 10, 8, 13, 7, 14, 11]);
  }

  lemma SecondMix()
    ensures XorShift(0xb456bcfc6ee99552) == 0xb456bcfc34c2cb2c
  {
    hide XorShift;
    Mixed(0xb456bcfc, [6, 14, 14, 9, 9, 5, 5, 2], [5, 10, 2, 11, 5, 14, 7, 14]);
  }

  lemma SmallMix()
    ensures XorShift(0) == 0 && XorShift(1) == 1
  {
    hide Xor;
    XorZero(0);
    XorZero(1);
  }

  /** The finalizer's vectors, and what they make of scores: a node whose hash is the key's scores zero. */
  lemma ScoreVectors(h: word)
    ensures Fmix64(0) == 0 && Fmix64(1) == 0xb456bcfc34c2cb2c
    ensures Score(h, h) == 0 && Score(1, 0) == 0xb456bcfc34c2cb2c
  {
    hide XorShift, Xor;
    FirstMix();
    SecondMix();
    SmallMix();
    XorZero(1);
    XorZero(0);
    XorCancels(0, h);
    XorCommutes(0, h);
    XorZero(h);
  }
}
