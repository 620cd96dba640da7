/**
 * The telemetry payload of the publish pipeline (emcute_mqttsn/main.c:111-112):
 * a scaled temperature reading m (hundredths of a degree) rendered by
 *   snprintf(message, 64, "{\"temperature\": %d.%02d}", m / 100, abs(m % 100))
 * with C's truncating `/` and `%`.
 */
module Payload {
  import opened Wrappers

  /** A C `int16_t`: the element type of `phydat_t.val` in RIOT's SAUL layer. */
  type Int16 = x: int | -0x8000 <= x < 0x8000

  /** `char message[64]` */
  const MessageSize: nat := 64
  const Prefix: string := "{\"temperature\": "
  const Suffix: string := "}"

  // ---------------------------------------------------------------------------
  // C integer arithmetic

  /** C's `a / b`: the quotient truncated toward zero. */
  function TDiv(a: int, b: int): (q: int)
    requires b > 0
    ensures 0 <= a ==> 0 <= a - b * q < b
    ensures a < 0 ==> -b < a - b * q <= 0
  {
    if a >= 0 then a / b else -((-a) / b)
  }

  /** C's `a % b`: the remainder takes the sign of the dividend, and `(a/b)*b + a%b == a`. */
  function TRem(a: int, b: int): (r: int)
    requires b > 0
    ensures a == b * TDiv(a, b) + r
    ensures -b < r < b
    ensures 0 <= a ==> 0 <= r
    ensures a < 0 ==> r <= 0
  {
    a - b * TDiv(a, b)
  }

  /** C's `abs`, on arguments where it is defined. */
  function Abs(x: int): (r: nat)
    ensures r == x || r == -x
  {
    if x < 0 then -x else x
  }

  // ---------------------------------------------------------------------------
  // Rendering: %d, %02d and the payload

  predicate IsDigit(c: char) { '0' <= c <= '9' }

  predicate AllDigits(s: string) { forall k :: 0 <= k < |s| ==> IsDigit(s[k]) }

  function DigitChar(d: nat): (c: char)
    requires d < 10
    ensures IsDigit(c) && DigitValue(c) == d
  {
    "0123456789"[d]
  }

  function DigitValue(c: char): int { c as int - '0' as int }

  /** The value of a string of decimal digits, most significant first. */
  function DigitsValue(s: string): nat
    requires AllDigits(s)
  {
    if s == [] then 0 else 10 * DigitsValue(s[..|s| - 1]) + DigitValue(s[|s| - 1])
  }

  /** `%d` of a non-negative value: decimal digits without leading zeros. */
  function NatText(n: nat): (s: string)
    ensures |s| >= 1 && AllDigits(s)
    ensures s[0] == '0' <==> n == 0
    decreases n
  {
    if n < 10 then [DigitChar(n)] else NatText(n / 10) + [DigitChar(n % 10)]
  }

  /** `%d`: a minus sign before the magnitude of a negative value. */
  function IntText(i: int): (s: string)
  {
    if i < 0 then "-" + NatText(-i) else NatText(i)
  }

  /** `%02d` of a value below 100: exactly two digits, zero-padded. */
  function TwoDigits(f: nat): (s: string)
    requires f < 100
    ensures |s| == 2 && AllDigits(s) && DigitsValue(s) == f
  {
    var s := [DigitChar(f / 10), DigitChar(f % 10)];
    assert s[..1] == [s[0]] && [s[0]][..0] == [];
    assert DigitsValue([s[0]]) == f / 10;
    s
  }

  /** The text `{"temperature": I.FF}` with I = m / 100 and FF = abs(m % 100), C semantics. */
  function Format(m: int): string
  {
    Prefix + IntText(TDiv(m, 100)) + "." + TwoDigits(Abs(TRem(m, 100))) + Suffix
  }

  /** `snprintf(buf, size, ...)` keeps at most size - 1 characters of the text. */
  function Snprintf(text: string, size: nat): (r: string)
    requires size > 0
    ensures |r| < size
    ensures r <= text
    ensures |text| < size ==> r == text
  {
    if |text| < size then text else text[..size - 1]
  }

  /** The message `pub_to_sensor_data` hands to `emcute_pub` for the reading m. */
  function Message(m: Int16): string
  {
    Snprintf(Format(m), MessageSize)
  }

  // ---------------------------------------------------------------------------
  // Reading the payload back: the partner of Format

  /** A decimal `W.FF` as written in the payload: the whole part and the two fraction digits. */
  datatype Decimal = Decimal(whole: int, hundredths: nat)

  /** The value in hundredths a reader assigns to `W.FF`: the sign of W applies to FF. */
  function Hundredths(d: Decimal): int
  {
    if d.whole < 0 then 100 * d.whole - d.hundredths else 100 * d.whole + d.hundredths
  }

  function ParseNat(s: string): Option<nat>
  {
    if |s| > 0 && AllDigits(s) then Some(DigitsValue(s)) else None
  }

  function ParseInt(s: string): Option<int>
  {
    if |s| > 0 && s[0] == '-' then
      match ParseNat(s[1..])
      case Some(v) => Some(0 - v as int)
      case None => None
    else
      match ParseNat(s)
      case Some(v) => Some(v)
      case None => None
  }

  /** Accepts exactly `{"temperature": ` W `.` two digits `}` and returns W and the digits. */
  function ParsePayload(s: string): Option<Decimal>
  {
    if |s| < |Prefix| + 4 + |Suffix| || s[..|Prefix|] != Prefix || s[|s| - |Suffix|..] != Suffix then None
    else
      var body := s[|Prefix|..|s| - |Suffix|];
      var n := |body|;
      if body[n - 3] != '.' || !AllDigits(body[n - 2..]) then None
      else
        match ParseInt(body[..n - 3])
        case Some(w) => Some(Decimal(w, DigitsValue(body[n - 2..])))
        case None => None
  }

  // ---------------------------------------------------------------------------
  // Properties

  /** Decimal digits read back to the number they render. */
  lemma {:induction false} NatTextValue(n: nat)
    ensures DigitsValue(NatText(n)) == n
    decreases n
  {
    var s := NatText(n);
    if n < 10 {
      assert s[..|s| - 1] == [];
    } else {
      assert s[..|s| - 1] == NatText(n / 10);
      NatTextValue(n / 10);
    }
  }

  /** `%d` output parses back to the integer printed. */
  lemma IntTextParses(i: int)
    ensures ParseInt(IntText(i)) == Some(i)
  {
    var s := IntText(i);
    if i < 0 {
      assert s[1..] == NatText(-i);
      NatTextValue(-i);
    } else {
      assert IsDigit(s[0]);
      NatTextValue(i);
    }
  }

  /**
   * The payload for m reads back as whole part m / 100 truncated toward zero and
   * fraction abs(m % 100) in exactly two digits, for every m.
   */
  lemma FormatParses(m: int)
    ensures ParsePayload(Format(m)) == Some(Decimal(TDiv(m, 100), Abs(TRem(m, 100))))
  {
    var w := IntText(TDiv(m, 100));
    var f := TwoDigits(Abs(TRem(m, 100)));
    var s := Format(m);
    assert s == Prefix + (w + "." + f) + Suffix;
    assert s[..|Prefix|] == Prefix;
    assert s[|s| - |Suffix|..] == Suffix;
    var body := s[|Prefix|..|s| - |Suffix|];
    assert body == w + "." + f;
    var n := |body|;
    assert body[..n - 3] == w;
    assert body[n - 2..] == f;
    IntTextParses(TDiv(m, 100));
  }

  /**
   * Reading the payload back recovers m exactly when m <= -100 or m >= 0; for
   * -100 < m < 0 the whole part is 0, which carries no sign, and the payload
   * reads as -m.
   */
  lemma FormatRecovers(m: int)
    ensures ParsePayload(Format(m)).Some?
    ensures m <= -100 || 0 <= m ==> Hundredths(ParsePayload(Format(m)).value) == m
    ensures -100 < m < 0 ==> Hundredths(ParsePayload(Format(m)).value) == -m
  {
    FormatParses(m);
  }

  /** Two readings between -1.00 and 1.00 that differ only in sign give the same payload. */
  lemma FormatDropsSignAboveMinusOne(m: int)
    requires -100 < m < 0
    ensures Format(m) == Format(-m)
  {
    assert TDiv(m, 100) == 0 == TDiv(-m, 100);
    assert Abs(TRem(m, 100)) == -m == Abs(TRem(-m, 100));
  }

  /** `%d` of a value below 10^k takes at most k characters. */
  lemma {:induction false} NatTextLength(n: nat, k: nat)
    requires 1 <= k && n < Pow10(k)
    ensures |NatText(n)| <= k
    decreases k
  {
    if n >= 10 {
      assert n / 10 < Pow10(k - 1);
      NatTextLength(n / 10, k - 1);
    }
  }

  function Pow10(k: nat): (p: nat)
    ensures p >= 1
  {
    if k == 0 then 1 else 10 * Pow10(k - 1)
  }

  /** Every int16 reading fits `char message[64]` with its terminator, so snprintf never truncates. */
  lemma PayloadFits(m: Int16)
    ensures |Format(m)| <= 24 < MessageSize
    ensures Message(m) == Format(m)
  {
    var q := TDiv(m, 100);
    assert -328 < q < 328;
    NatTextLength(Abs(q), 3);
  }

  /** Sample readings: 23.07, -1.50 with one leading minus, and -0.50 printed as 0.50. */
  lemma FormatExamples()
    ensures Format(2307) == "{\"temperature\": 23.07}"
    ensures Format(-150) == "{\"temperature\": -1.50}"
    ensures Format(-50) == "{\"temperature\": 0.50}"
    ensures Format(0) == "{\"temperature\": 0.00}"
  {
  }
}
