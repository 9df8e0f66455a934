/** Decimal numbers as the profiler writes them and the renderer reads them back. */
module Decimal {
  import opened Machine

  const DIGIT_BUFFER: nat := 20

  function DigitChar(d: nat): char
    requires d < 10
  {
    '0' + d as char
  }

  predicate IsDigit(c: char) { '0' <= c <= '9' }

  function DigitValue(c: char): nat
    requires IsDigit(c)
  {
    (c - '0') as nat
  }

  /** The decimal numeral of `n`, without leading zeros. */
  function Numeral(n: nat): (s: string)
    ensures |s| > 0 && forall i :: 0 <= i < |s| ==> IsDigit(s[i])
    ensures n > 0 ==> s[0] != '0'
  {
    if n < 10 then [DigitChar(n)] else Numeral(n / 10) + [DigitChar(n % 10)]
  }

  /** The number a string of digits stands for; `None` for anything else. */
  function Value(s: string): Option<nat> {
    if s == [] || !IsDigit(s[|s| - 1]) then None
    else if |s| == 1 then Some(DigitValue(s[0]))
    else
      match Value(s[..|s| - 1])
      case None => None
      case Some(v) => Some(10 * v + DigitValue(s[|s| - 1]))
  }

  /** What is written reads back as the same number. */
  lemma {:induction false} NumeralReadsBack(n: nat)
    ensures Value(Numeral(n)) == Some(n)
  {
    if n >= 10 {
      var s := Numeral(n);
      assert s[..|s| - 1] == Numeral(n / 10);
      NumeralReadsBack(n / 10);
    }
  }

  function Power10(k: nat): nat { if k == 0 then 1 else 10 * Power10(k - 1) }

  lemma {:induction false} NumeralLength(n: nat, k: nat)
    requires k > 0 && n < Power10(k)
    ensures |Numeral(n)| <= k
  {
    if n >= 10 { NumeralLength(n / 10, k - 1); }
  }

  lemma WordFitsBuffer(n: U64)
    ensures |Numeral(n)| <= DIGIT_BUFFER
  {
    assert Power10(5) == 100_000;
    assert Power10(10) == 100_000 * Power10(5);
    assert Power10(15) == 100_000 * Power10(10);
    assert Power10(20) == 100_000 * Power10(15);
    NumeralLength(n, DIGIT_BUFFER);
  }

  /** Fills a fixed buffer from its end; no 64-bit number overruns it. */
  method WriteDecimal(value: U64) returns (s: string)
    ensures s == Numeral(value)
  {
    var digits := new char[DIGIT_BUFFER](_ => '0');
    var cursor: nat := DIGIT_BUFFER;
    var rest: nat := value;
    WordFitsBuffer(value);
    while true
      invariant 0 < cursor <= DIGIT_BUFFER && |Numeral(rest)| <= cursor
      invariant Numeral(value) == Numeral(rest) + digits[cursor..]
      decreases rest
    {
      ghost var tail, last := digits[cursor..], rest;
      cursor := cursor - 1;
      digits[cursor] := DigitChar(rest % 10);
      assert digits[cursor..] == [DigitChar(last % 10)] + tail;
      rest := rest / 10;
      if rest == 0 {
        break;
      }
    }
    return digits[cursor..];
  }
}
