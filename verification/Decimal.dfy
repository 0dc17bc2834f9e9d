/** Bytes, decimal text and `String2ll`, the parser that decides which keys are stored as integers. */
module Decimal {
  import opened Options

  type Byte = b: int | 0 <= b < 256
  type Bytes = seq<Byte>

  const ZERO: Byte := 48
  const MINUS: Byte := 45
  const UINT64_MAX: nat := 0xFFFF_FFFF_FFFF_FFFF
  const INT64_MAX: int := 0x7FFF_FFFF_FFFF_FFFF
  const INT64_MIN: int := -0x8000_0000_0000_0000

  predicate IsInt64(v: int) { INT64_MIN <= v <= INT64_MAX }

  type Int64 = v: int | INT64_MIN <= v <= INT64_MAX

  predicate IsDigit(b: Byte) { ZERO <= b < ZERO + 10 }

  predicate AllDigits(s: Bytes) {
    forall i :: 0 <= i < |s| ==> IsDigit(s[i])
  }

  /** Decimal text of a natural number, as `std::to_string` writes it. */
  function Digits(n: nat): (s: Bytes)
    ensures s != []
  {
    if n < 10 then [ZERO + n] else Digits(n / 10) + [ZERO + n % 10]
  }

  function ToText(v: int): (s: Bytes)
    ensures s != []
  {
    if v < 0 then [MINUS] + Digits(-v) else Digits(v)
  }

  /** The number a run of digits denotes. */
  function ValueOf(s: Bytes): nat
    requires AllDigits(s)
  {
    if s == [] then 0 else 10 * ValueOf(s[..|s| - 1]) + (s[|s| - 1] - ZERO)
  }

  lemma {:induction false} DigitsForm(n: nat)
    ensures AllDigits(Digits(n)) && ValueOf(Digits(n)) == n
    ensures n > 0 ==> Digits(n)[0] != ZERO
  {
    if n >= 10 {
      DigitsForm(n / 10);
      assert Digits(n)[..|Digits(n)| - 1] == Digits(n / 10);
    }
  }

  /** A run of digits without a leading zero is the text of its value. */
  lemma {:induction false} FormIsDigits(s: Bytes)
    requires AllDigits(s) && s != [] && s[0] != ZERO
    ensures ValueOf(s) > 0 && Digits(ValueOf(s)) == s
  {
    var rest := s[..|s| - 1];
    if rest == [] {
      assert s == [s[0]];
    } else {
      assert AllDigits(rest) && rest[0] == s[0];
      FormIsDigits(rest);
      assert s == rest + [s[|s| - 1]];
    }
  }

  lemma {:induction false} ValuePrefix(s: Bytes, k: nat)
    requires AllDigits(s) && k <= |s|
    ensures ValueOf(s[..k]) <= ValueOf(s)
  {
    if k == |s| {
      assert s[..k] == s;
    } else {
      ValuePrefix(s[..|s| - 1], k);
      assert s[..|s| - 1][..k] == s[..k];
    }
  }

  function Pow10(k: nat): nat { if k == 0 then 1 else 10 * Pow10(k - 1) }

  lemma {:induction false} DigitsLength(n: nat, k: nat)
    requires k >= 1 && n < Pow10(k)
    ensures |Digits(n)| <= k
  {
    if n >= 10 { DigitsLength(n / 10, k - 1); }
  }

  lemma TextLength(v: int)
    requires IsInt64(v)
    ensures |ToText(v)| <= 20
  {
    assert Pow10(4) == 10000;
    assert Pow10(8) == 10000 * Pow10(4);
    assert Pow10(12) == 10000 * Pow10(8);
    assert Pow10(16) == 10000 * Pow10(12);
    assert Pow10(19) == 1000 * Pow10(16);
    DigitsLength(if v < 0 then -v else v, 19);
  }

  lemma TextForm(v: int)
    ensures var (n, s) := (if v < 0 then -v else v, ToText(v));
            && (s[0] == MINUS <==> v < 0)
            && (if v < 0 then s[1..] else s) == Digits(n)
            && AllDigits(Digits(n)) && ValueOf(Digits(n)) == n && (n > 0 ==> Digits(n)[0] != ZERO)
  {
    DigitsForm(if v < 0 then -v else v);
  }

  /** `s` is the canonical decimal text of some int64. */
  ghost predicate IsText(s: Bytes) {
    exists v :: IsInt64(v) && s == ToText(v)
  }

  /** The int64 a canonical text denotes; by `ToTextInjective` there is only one. */
  ghost function TextValue(s: Bytes): (r: Option<Int64>)
    ensures r.Some? <==> IsText(s)
    ensures r.Some? ==> s == ToText(r.value)
  {
    if IsText(s) then (var v :| IsInt64(v) && s == ToText(v); Some(v)) else None
  }

  lemma TextValueOfText(v: Int64)
    ensures TextValue(ToText(v)) == Some(v)
  {
    assert IsText(ToText(v));
    ToTextInjective(v, TextValue(ToText(v)).value);
  }

  /** The largest magnitude an int64 of this sign has. */
  function Limit(neg: bool): nat {
    if neg then 0x8000_0000_0000_0000 else 0x7FFF_FFFF_FFFF_FFFF
  }

  /** Digits without a leading zero, of a magnitude that fits. */
  ghost predicate BodyOk(neg: bool, body: Bytes) {
    && body != [] && AllDigits(body)
    && (body[0] != ZERO || (!neg && |body| == 1))
    && ValueOf(body) <= Limit(neg)
  }

  function Negate(neg: bool, n: nat): int { if neg then -(n as int) else n }

  lemma BodyIsText(s: Bytes, neg: bool, body: Bytes)
    requires s == (if neg then [MINUS] + body else body) && BodyOk(neg, body)
    ensures IsText(s) && s == ToText(Negate(neg, ValueOf(body)))
  {
    if body[0] != ZERO {
      FormIsDigits(body);
    } else {
      assert body == [ZERO] && ValueOf(body) == 0;
    }
    assert s == ToText(Negate(neg, ValueOf(body)));
  }

  lemma TextHasBody(s: Bytes, neg: bool, body: Bytes)
    requires s != [] && neg == (s[0] == MINUS) && body == (if neg then s[1..] else s) && IsText(s)
    ensures BodyOk(neg, body)
  {
    var v :| IsInt64(v) && s == ToText(v);
    TextForm(v);
  }

  method String2ll(s: Bytes) returns (r: Option<Int64>)
    ensures r.Some? <==> IsText(s)
    ensures r.Some? ==> s == ToText(r.value)
  {
    if |s| == 0 || |s| >= 21 {
      if IsText(s) {
        ghost var v :| IsInt64(v) && s == ToText(v);
        TextLength(v);
        assert false;
      }
      return None;
    }
    if |s| == 1 && IsDigit(s[0]) {
      assert s == ToText(s[0] - ZERO);
      return Some(s[0] - ZERO);
    }
    r := ParseSigned(s);
  }

  /** The rest of `String2ll`: an optional sign, a first digit that is not zero, then digits without overflow. */
  method ParseSigned(s: Bytes) returns (r: Option<Int64>)
    requires s != [] && !(|s| == 1 && IsDigit(s[0]))
    ensures r.Some? <==> IsText(s)
    ensures r.Some? ==> s == ToText(r.value)
  {
    var negative := s[0] == MINUS;
    var body := if negative then s[1..] else s;
    if IsText(s) { TextHasBody(s, negative, body); }
    if body == [] || !(ZERO + 1 <= body[0] < ZERO + 10) {
      return None;
    }
    var v := ParseDigits(body);
    if v.None? || v.value > Limit(negative) {
      return None;
    }
    BodyIsText(s, negative, body);
    return Some(Negate(negative, v.value));
  }

  /** The digit loop: a 64-bit accumulator that stops before it would wrap. */
  method ParseDigits(body: Bytes) returns (r: Option<nat>)
    requires body != [] && IsDigit(body[0])
    ensures r.Some? <==> AllDigits(body) && ValueOf(body) <= UINT64_MAX
    ensures r.Some? ==> r.value == ValueOf(body)
  {
    var n := 1;
    var v: nat := body[0] - ZERO;
    assert body[..1] == [body[0]];
    while n < |body| && IsDigit(body[n])
      invariant 1 <= n <= |body| && AllDigits(body[..n]) && v == ValueOf(body[..n]) <= UINT64_MAX
    {
      assert body[..n + 1][..n] == body[..n];
      ghost var grown := 10 * v + (body[n] - ZERO);
      assert ValueOf(body[..n + 1]) == grown;
      if AllDigits(body) { ValuePrefix(body, n + 1); }
      if v > UINT64_MAX / 10 {
        return None;
      }
      v := v * 10;
      var digit: nat := body[n] - ZERO;
      if v > UINT64_MAX - digit {
        return None;
      }
      v := v + digit;
      n := n + 1;
    }
    if n < |body| {
      return None;
    }
    assert body[..n] == body;
    return Some(v);
  }

  /** Different integers have different texts. */
  lemma ToTextInjective(v: int, w: int)
    requires ToText(v) == ToText(w)
    ensures v == w
  {
    TextForm(v);
    TextForm(w);
  }
}
