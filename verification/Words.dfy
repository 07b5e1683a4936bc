/** 64-bit words as naturals below 2^64: exclusive or, wrapping multiplication, and the finalizer built of them. */
module Words {

  const WORD := 0x1_0000_0000_0000_0000
  const HALF := 0x2_0000_0000

  type word = n: int | 0 <= n < WORD

  /** Bitwise exclusive or, from the lowest bit up. */
  function Xor(a: nat, b: nat): nat {
    if a == 0 && b == 0 then 0 else 2 * Xor(a / 2, b / 2) + (a + b) % 2
  }

  function Pow2(k: nat): (r: nat)
    ensures r > 0
  {
    if k == 0 then 1 else 2 * Pow2(k - 1)
  }

  lemma Pow2Values()
    ensures Pow2(33) == HALF && Pow2(64) == WORD
  {
    assert Pow2(10) == 1024;
    assert Pow2(20) == 0x10_0000;
    assert Pow2(30) == 0x4000_0000;
    assert Pow2(40) == 0x100_0000_0000;
    assert Pow2(50) == 0x4_0000_0000_0000;
    assert Pow2(60) == 0x1000_0000_0000_0000;
  }

  lemma {:induction false} XorBounded(a: nat, b: nat, k: nat)
    requires a < Pow2(k) && b < Pow2(k)
    ensures Xor(a, b) < Pow2(k)
  {
    if k != 0 && (a != 0 || b != 0) {
      XorBounded(a / 2, b / 2, k - 1);
    }
  }

  lemma {:induction false} XorCommutes(a: nat, b: nat)
    ensures Xor(a, b) == Xor(b, a)
  {
    if a != 0 || b != 0 {
      XorCommutes(a / 2, b / 2);
    }
  }

  lemma {:induction false} XorZero(a: nat)
    ensures Xor(a, 0) == a
  {
    if a != 0 {
      XorZero(a / 2);
    }
  }

  lemma XorBits(a: nat, b: nat)
    ensures Xor(a, b) / 2 == Xor(a / 2, b / 2) && Xor(a, b) % 2 == (a + b) % 2
  {
  }

  lemma {:induction false} XorCancels(a: nat, b: nat)
    ensures Xor(Xor(a, b), b) == a
  {
    if a != 0 || b != 0 {
      hide Xor;
      XorCancels(a / 2, b / 2);
      XorBits(a, b);
      XorBits(Xor(a, b), b);
      ParityCancels(Xor(a, b), a, b);
      SameBits(Xor(Xor(a, b), b), a);
    }
  }

  lemma ParityCancels(x: nat, a: nat, b: nat)
    requires x % 2 == (a + b) % 2
    ensures (x + b) % 2 == a % 2
  {
  }

  lemma SameBits(x: nat, y: nat)
    requires x / 2 == y / 2 && x % 2 == y % 2
    ensures x == y
  {
  }

  lemma DivTwice(a: nat, p: nat)
    requires p > 0
    ensures a / (2 * p) == a / 2 / p
  {
    var q, r := a / 2 / p, a / 2 % p;
    assert a == 2 * (q * p + r) + a % 2;
    assert a == q * (2 * p) + (2 * r + a % 2);
    DivideBy(a, 2 * p, q, 2 * r + a % 2);
  }

  lemma DivideBy(a: nat, d: nat, q: nat, r: nat)
    requires d > 0 && a == q * d + r && r < d
    ensures a / d == q
  {
    var e := a / d;
    assert e * d <= a < (e + 1) * d;
    if e < q {
      MultiplyBoth(e + 1, q, d);
    } else if q < e {
      MultiplyBoth(q + 1, e, d);
    }
  }

  lemma MultiplyBoth(x: nat, y: nat, d: nat)
    requires x <= y
    ensures x * d <= y * d
  {
  }

  function ShiftRight(a: nat, k: nat): nat {
    if k == 0 then a else ShiftRight(a / 2, k - 1)
  }

  lemma {:induction false} ShiftIsDivision(a: nat, k: nat)
    ensures ShiftRight(a, k) == a / Pow2(k)
  {
    if k != 0 {
      ShiftIsDivision(a / 2, k - 1);
      DivTwice(a, Pow2(k - 1));
    }
  }

  /** Dropping the low bits commutes with exclusive or. */
  lemma {:induction false} XorShifts(a: nat, b: nat, k: nat)
    ensures ShiftRight(Xor(a, b), k) == Xor(ShiftRight(a, k), ShiftRight(b, k))
  {
    if k != 0 {
      hide Xor;
      XorShifts(a / 2, b / 2, k - 1);
      XorBits(a, b);
    }
  }

  function XorWord(a: word, b: word): word {
    assert Xor(a, b) < WORD by {
      Pow2Values();
      XorBounded(a, b, 64);
    }
    Xor(a, b)
  }

  /** Multiplication that wraps at 64 bits. */
  function Times(x: word, k: word): word {
    x * k % WORD
  }

  /** Exclusive or of a word with itself shifted right by 33. */
  function XorShift(x: word): word {
    XorWord(x, x / HALF)
  }

  lemma XorShiftUndoesItself(x: word)
    ensures XorShift(XorShift(x)) == x
  {
    hide Xor, Pow2, ShiftRight;
    Pow2Values();
    XorShifts(x, x / HALF, 33);
    ShiftIsDivision(x, 33);
    ShiftIsDivision(x / HALF, 33);
    ShiftIsDivision(Xor(x, x / HALF), 33);
    assert x / HALF / HALF == 0;
    XorZero(x / HALF);
    XorCancels(x, x / HALF);
  }

  lemma ModTimes(a: nat, l: nat)
    ensures (a % WORD) * l % WORD == a * l % WORD
  {
    var q, r := a / WORD, a % WORD;
    assert a * l == q * l * WORD + r * l by {
      assert a == q * WORD + r;
    }
    AddMultiple(r * l, q * l);
  }

  lemma {:induction false} AddMultiple(a: nat, q: nat)
    ensures (q * WORD + a) % WORD == a % WORD
  {
    if q != 0 {
      AddMultiple(a, q - 1);
      assert q * WORD + a == (q - 1) * WORD + a + WORD;
    }
  }

  lemma TimesUndone(x: word, k: word, l: word)
    requires k * l % WORD == 1
    ensures Times(Times(x, k), l) == x
  {
    ModTimes(x * k, l);
    var q := k * l / WORD;
    assert x * k * l == x * (k * l);
    assert x * (k * l) == x * (q * WORD + 1);
    assert x * (q * WORD + 1) == x * q * WORD + x;
    AddMultiple(x, x * q);
  }

  /** The 64-bit finalizer of MurmurHash3. */
  function Fmix64(x: word): word {
    XorShift(Times(XorShift(Times(XorShift(x), 0xff51afd7ed558ccd)), 0xc4ceb9fe1a85ec53))
  }

  /** Runs the steps backwards, with the inverses of the two odd multipliers. */
  function Unmix64(x: word): word {
    XorShift(Times(XorShift(Times(XorShift(x), 0x9cb4b2f8129337db)), 0x4f74430c22a54005))
  }

  lemma UndoSteps(x: word, k: word, l: word, m: word, n: word)
    requires l * m % WORD == 1 && k * n % WORD == 1
    ensures XorShift(Times(XorShift(Times(XorShift(
              XorShift(Times(XorShift(Times(XorShift(x), k)), l))), m)), n)) == x
  {
    hide XorShift, Times;
    var a := XorShift(x);
    var b := XorShift(Times(a, k));
    XorShiftUndoesItself(x);
    XorShiftUndoesItself(Times(a, k));
    XorShiftUndoesItself(Times(b, l));
    TimesUndone(a, k, n);
    TimesUndone(b, l, m);
  }

  /** The finalizer is a bijection on 64-bit words: `Unmix64` is its two-sided inverse. */
  lemma Fmix64IsBijective(x: word)
    ensures Unmix64(Fmix64(x)) == x
    ensures Fmix64(Unmix64(x)) == x
  {
    hide XorShift, Times;
    UndoSteps(x, 0xff51afd7ed558ccd, 0xc4ceb9fe1a85ec53, 0x9cb4b2f8129337db, 0x4f74430c22a54005);
    UndoSteps(x, 0x9cb4b2f8129337db, 0x4f74430c22a54005, 0xff51afd7ed558ccd, 0xc4ceb9fe1a85ec53);
  }

  function Score(nodeHash: word, keyHash: word): word {
    Fmix64(XorWord(nodeHash, keyHash))
  }

  /** Two nodes tie on a key exactly when their names hash alike, whatever the key. */
  lemma TiesIgnoreTheKey(a: word, b: word, keyHash: word)
    ensures Score(a, keyHash) == Score(b, keyHash) <==> a == b
  {
    hide Fmix64, Unmix64, Xor;
    Fmix64IsBijective(XorWord(a, keyHash));
    Fmix64IsBijective(XorWord(b, keyHash));
    XorCancels(a, keyHash);
    XorCancels(b, keyHash);
  }
}
