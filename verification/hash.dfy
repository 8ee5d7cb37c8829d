/** `generateHash` of src/big-commit-.ts: a 32-bit multiply-by-31 fold over the UTF-16
    code units of a string, rendered with `Number.prototype.toString(36)`. */
module Hash {
  import opened Wrappers
  import Text

  const TWO_31: int := 0x8000_0000
  const TWO_32: int := 0x1_0000_0000

  /** ECMAScript's ToInt32 on an integer: the value in [-2^31, 2^31) congruent to `x`
      modulo 2^32. */
  function ToInt32(x: int): (r: int)
    ensures -TWO_31 <= r < TWO_31
    ensures (x - r) % TWO_32 == 0
  {
    (x + TWO_31) % TWO_32 - TWO_31
  }

  /** The range and the congruence determine ToInt32 uniquely. */
  lemma ToInt32Unique(x: int, y: int)
    requires -TWO_31 <= y < TWO_31 && (x - y) % TWO_32 == 0
    ensures ToInt32(x) == y
  {
    var q := (x - y) / TWO_32;
    assert x - y == q * TWO_32;
    assert x + TWO_31 == q * TWO_32 + (y + TWO_31);
  }

  /** Wrapping an operand first does not change a wrapped sum. */
  lemma ToInt32OfSum(a: int, b: int)
    ensures ToInt32(ToInt32(a) + b) == ToInt32(a + b)
  {
    var r := ToInt32(a + b);
    var qa := (a - ToInt32(a)) / TWO_32;
    var qr := (a + b - r) / TWO_32;
    assert a - ToInt32(a) == qa * TWO_32;
    assert a + b - r == qr * TWO_32;
    assert ToInt32(a) + b - r == (qr - qa) * TWO_32;
    ToInt32Unique(ToInt32(a) + b, r);
  }

  /** JavaScript's `x << 5`: both the operand and the result are wrapped to 32 bits. */
  function ShiftLeft5(x: int): (r: int)
    ensures -TWO_31 <= r < TWO_31
    ensures (32 * x - r) % TWO_32 == 0
  {
    ShiftCongruent(x);
    ToInt32(ToInt32(x) * 32)
  }

  lemma ShiftCongruent(x: int)
    ensures (32 * x - ToInt32(ToInt32(x) * 32)) % TWO_32 == 0
  {
    var w := ToInt32(x);
    var r := ToInt32(w * 32);
    var q1 := (x - w) / TWO_32;
    var q2 := (w * 32 - r) / TWO_32;
    assert x - w == q1 * TWO_32;
    assert w * 32 - r == q2 * TWO_32;
    assert 32 * x - r == (32 * q1 + q2) * TWO_32;
  }

  /** JavaScript's `x & x`: the operand wrapped to 32 bits. */
  function SelfAnd(x: int): (r: int)
    ensures -TWO_31 <= r < TWO_31
    ensures (x - r) % TWO_32 == 0
    ensures -TWO_31 <= x < TWO_31 ==> r == x
  {
    ToInt32(x)
  }

  /** The hash of a sequence of code units: h := ToInt32(31 * h + unit), from h = 0. */
  function HashOf(units: seq<int>): (h: int)
    ensures -TWO_31 <= h < TWO_31
  {
    if |units| == 0 then 0
    else ToInt32(31 * HashOf(units[..|units| - 1]) + units[|units| - 1])
  }

  /** `generateHash`: the loop of the source, one code unit at a time. */
  method GenerateHash(input: string) returns (r: string)
    ensures r == Base36(HashOf(Text.Utf16(input)))
  {
    var units := Text.Utf16(input);
    var hash := 0;
    for i := 0 to |units|
      invariant hash == HashOf(units[..i])
    {
      var unit := units[i];
      Step(hash, unit);
      hash := (ShiftLeft5(hash) - hash) + unit;
      hash := SelfAnd(hash);
      assert units[..i + 1][..i] == units[..i];
    }
    assert units[..|units|] == units;
    r := Base36(hash);
  }

  /** One round of the source's loop is one step of the fold. */
  lemma Step(h: int, unit: int)
    requires -TWO_31 <= h < TWO_31
    ensures SelfAnd((ShiftLeft5(h) - h) + unit) == ToInt32(31 * h + unit)
  {
    assert ToInt32(h) == h;
    ToInt32OfSum(32 * h, unit - h);
  }

  /** The empty string hashes to "0". */
  lemma EmptyInputHash()
    ensures Base36(HashOf(Text.Utf16(""))) == "0"
  {
  }

  // ---------------------------------------------------------------- toString(36)

  /** The base-36 digit for `d`: '0'..'9', then 'a'..'z'. */
  function DigitChar(d: nat): (c: char)
    requires d < 36
    ensures IsDigitChar(c)
  {
    if d < 10 then (48 + d) as char else (87 + d) as char
  }

  predicate IsDigitChar(c: char)
  {
    '0' <= c <= '9' || 'a' <= c <= 'z'
  }

  /** The value of a base-36 digit. */
  function DigitValue(c: char): (r: Option<nat>)
    ensures r.Some? <==> IsDigitChar(c)
    ensures r.Some? ==> r.value < 36 && DigitChar(r.value) == c
  {
    if '0' <= c <= '9' then Some(c as int - 48)
    else if 'a' <= c <= 'z' then Some(c as int - 87)
    else None
  }

  /** The base-36 digits of `n`, most significant first, without leading zeros. */
  function NatToBase36(n: nat): (r: string)
    ensures |r| >= 1
    ensures forall k :: 0 <= k < |r| ==> IsDigitChar(r[k])
    ensures r[0] == '0' ==> n == 0
  {
    if n < 36 then [DigitChar(n)] else NatToBase36(n / 36) + [DigitChar(n % 36)]
  }

  /** `Number.prototype.toString(36)` on an integer. */
  function Base36(n: int): (r: string)
    ensures |r| >= 1
    ensures r[0] == '-' <==> n < 0
    ensures forall k :: (if n < 0 then 1 else 0) <= k < |r| ==> IsDigitChar(r[k])
  {
    if n < 0 then "-" + NatToBase36(-n) else NatToBase36(n)
  }

  /** Reads a non-empty string of base-36 digits back. */
  function ParseDigits(s: string): Option<nat>
  {
    if |s| == 0 then None
    else
      var last := DigitValue(s[|s| - 1]);
      if |s| == 1 then last
      else match (ParseDigits(s[..|s| - 1]), last)
        case (Some(p), Some(d)) => Some(p * 36 + d)
        case _ => None
  }

  /** Reads an optionally negative base-36 numeral back. */
  function ParseBase36(s: string): Option<int>
  {
    if |s| > 0 && s[0] == '-' then
      match ParseDigits(s[1..])
      case Some(v) => Some(0 - v)
      case None => None
    else ParseDigits(s)
  }

  lemma {:induction false} DigitsRoundTrip(n: nat)
    ensures ParseDigits(NatToBase36(n)) == Some(n)
  {
    if n >= 36 {
      var s := NatToBase36(n);
      assert s[..|s| - 1] == NatToBase36(n / 36);
      DigitsRoundTrip(n / 36);
    }
  }

  /** Rendering in base 36 loses nothing. */
  lemma Base36RoundTrip(n: int)
    ensures ParseBase36(Base36(n)) == Some(n)
  {
    var s := Base36(n);
    if n < 0 {
      var digits := NatToBase36(-n);
      DigitsRoundTrip(-n);
      assert s == "-" + digits;
      assert s[1..] == digits;
    } else {
      DigitsRoundTrip(n);
      assert IsDigitChar(s[0]);
    }
  }

  /** Different hash values are rendered as different strings. */
  lemma Base36Injective(a: int, b: int)
    requires Base36(a) == Base36(b)
    ensures a == b
  {
    Base36RoundTrip(a);
    Base36RoundTrip(b);
  }
}
