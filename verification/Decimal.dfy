/**
 Decimal ASCII as the node reads and writes it: lengths, counts, TTLs and tags
 (`parse_length`) and signed counters (`parse_decimal_i64`).
 */
module Decimal {
  import opened Basics

  const ZERO: byte := 48
  const MINUS: byte := 45

  const I64_MAX: int := 0x7FFF_FFFF_FFFF_FFFF
  const I64_MIN: int := -0x8000_0000_0000_0000
  const U64_MAX: int := 0xFFFF_FFFF_FFFF_FFFF

  predicate IsDigit(b: byte) {
    48 <= b <= 57
  }

  predicate AllDigits(s: Bytes) {
    forall i :: 0 <= i < |s| ==> IsDigit(s[i])
  }

  /** The number a run of digits denotes, leading zeros allowed. */
  function Value(s: Bytes): nat
    requires AllDigits(s)
  {
    if s == [] then 0 else 10 * Value(s[..|s| - 1]) + (s[|s| - 1] as int - 48)
  }

  /** The canonical digits of `n`. */
  function Print(n: nat): (s: Bytes)
    ensures |s| >= 1 && AllDigits(s)
  {
    if n < 10 then [(48 + n) as byte] else Print(n / 10) + [(48 + n % 10) as byte]
  }

  function PrintInt(i: int): Bytes {
    if i < 0 then [MINUS] + Print(-i) else Print(i)
  }

  /** A length field: one or more digits, at most the machine's largest `usize`. */
  function ParseLength(s: Bytes): Option<nat> {
    if s == [] || !AllDigits(s) || Value(s) > U64_MAX then None else Some(Value(s))
  }

  /** A counter: an optional minus, then digits with no leading zero, within a signed 64-bit word. */
  function ParseI64(s: Bytes): Option<int> {
    var negative := s != [] && s[0] == MINUS;
    var digits := if negative then s[1..] else s;
    if digits == [] || !AllDigits(digits) then None
    else if |digits| > 1 && digits[0] == ZERO then None
    else
      var magnitude: int := Value(digits);
      if magnitude > U64_MAX then None
      else if negative then
        if magnitude == -I64_MIN then Some(I64_MIN)
        else if magnitude <= I64_MAX then Some(-magnitude) else None
      else if magnitude <= I64_MAX then Some(magnitude) else None
  }

  /** `parse_length`: the digit-by-digit fold that stops at the first overflow. */
  method ReadLength(s: Bytes) returns (r: Option<nat>)
    ensures r == ParseLength(s)
  {
    if s == [] {
      return None;
    }
    var length := 0;
    for i := 0 to |s|
      invariant AllDigits(s[..i])
      invariant length == Value(s[..i]) <= U64_MAX
    {
      if !IsDigit(s[i]) {
        return None;
      }
      assert s[..i + 1][..i] == s[..i];
      length := 10 * length + (s[i] as int - 48);
      assert length == Value(s[..i + 1]);
      if length > U64_MAX {
        if AllDigits(s) {
          ValueGrows(s, i + 1);
        }
        return None;
      }
    }
    assert s[..|s|] == s;
    return Some(length);
  }

  lemma {:induction false} ValueGrows(s: Bytes, n: nat)
    requires AllDigits(s) && n <= |s|
    ensures Value(s[..n]) <= Value(s)
    decreases |s|
  {
    if n == |s| {
      assert s[..n] == s;
    } else {
      var t := s[..|s| - 1];
      ValueGrows(t, n);
      assert t[..n] == s[..n];
    }
  }

  lemma {:induction false} ValueOfPrint(n: nat)
    ensures Value(Print(n)) == n
    ensures n > 0 ==> Print(n)[0] != ZERO
    ensures n == 0 ==> Print(n) == [ZERO]
  {
    if n >= 10 {
      ValueOfPrint(n / 10);
      var s := Print(n);
      assert s[..|s| - 1] == Print(n / 10);
    } else {
      assert Print(n)[..0] == [];
    }
  }

  /** Digits without a leading zero are the canonical digits of their value. */
  lemma {:induction false} PrintOfValue(s: Bytes)
    requires AllDigits(s) && s != [] && (|s| > 1 ==> s[0] != ZERO)
    ensures Print(Value(s)) == s
    ensures |s| > 1 ==> Value(s) >= 10
  {
    if |s| == 1 {
      assert s[..0] == [];
    } else {
      var t := s[..|s| - 1];
      PrintOfValue(t);
      if |t| == 1 {
        assert t[..0] == [];
        assert Value(t) == t[0] as int - 48;
      }
      var n, d := Value(t), s[|s| - 1] as int - 48;
      assert Value(s) == 10 * n + d && n >= 1;
      assert (10 * n + d) / 10 == n && (10 * n + d) % 10 == d;
      assert s == t + [s[|s| - 1]];
    }
  }

  lemma LengthRoundTrip(n: nat)
    requires n <= U64_MAX
    ensures ParseLength(Print(n)) == Some(n)
  {
    ValueOfPrint(n);
  }

  lemma ReadsMagnitude(digits: Bytes, m: int)
    requires AllDigits(digits) && digits != [] && (|digits| > 1 ==> digits[0] != ZERO) && Value(digits) == m
    ensures m <= I64_MAX ==> ParseI64(digits) == Some(m)
    ensures m <= -I64_MIN ==> ParseI64([MINUS] + digits) == Some(-m)
  {
    var s := [MINUS] + digits;
    assert s[1..] == digits;
    assert digits[0] != MINUS;
  }

  /** Every signed 64-bit value, the minimum included, is read back as it was written. */
  lemma CounterRoundTrip(i: int)
    requires I64_MIN <= i <= I64_MAX
    ensures ParseI64(PrintInt(i)) == Some(i)
  {
    var m: nat := if i < 0 then -i else i;
    ValueOfPrint(m);
    ReadsMagnitude(Print(m), m);
  }

  /** The only text read as a counter that the node would not itself write is "-0". */
  lemma CounterTextIsCanonical(s: Bytes)
    requires ParseI64(s).Some?
    ensures I64_MIN <= ParseI64(s).value <= I64_MAX
    ensures s != [MINUS, ZERO] <==> s == PrintInt(ParseI64(s).value)
  {
    if s[0] == MINUS {
      var digits := s[1..];
      PrintOfValue(digits);
      assert s == [MINUS] + digits;
      if digits == [ZERO] {
        ValueOfPrint(0);
        assert ParseI64(s) == Some(0);
      } else {
        ValueOfPrint(Value(digits));
        assert Value(digits) > 0;
      }
    } else {
      PrintOfValue(s);
    }
  }

  function TenTo(k: nat): nat {
    if k == 0 then 1 else 10 * TenTo(k - 1)
  }

  /** A number below 10^k has at most k digits. */
  lemma {:induction false} PrintSize(n: nat, k: nat)
    requires 0 < k && n < TenTo(k)
    ensures |Print(n)| <= k
    decreases k
  {
    if n >= 10 {
      PrintSize(n / 10, k - 1);
    }
  }
}
