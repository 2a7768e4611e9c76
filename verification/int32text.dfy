/**
 * `int.Parse(string)` as the cron engine calls it: the default number style
 * `NumberStyles.Integer` with the invariant culture's signs.
 */
module Int32Text {
  import opened Wrappers
  import opened Text

  const Int32Min: int := -0x8000_0000
  const Int32Max: int := 0x7FFF_FFFF

  /** Values of the 32-bit `int` the parser returns. */
  predicate InInt32(n: int)
  {
    Int32Min <= n <= Int32Max
  }

  predicate IsDigit(c: char)
  {
    '0' <= c <= '9'
  }

  predicate AllDigits(d: string)
  {
    forall i :: 0 <= i < |d| ==> IsDigit(d[i])
  }

  function DigitChar(n: nat): (c: char)
    requires n < 10
    ensures IsDigit(c)
  {
    ('0' as int + n) as char
  }

  /** The value of a run of decimal digits, most significant first. */
  function DigitsValue(d: string): nat
    requires AllDigits(d)
  {
    if |d| == 0 then 0
    else DigitsValue(d[..|d| - 1]) * 10 + ((d[|d| - 1] as int) - ('0' as int))
  }

  /**
   * `int.Parse(s)`: `None` where .NET throws `FormatException` or
   * `OverflowException`. White space (U+0009..U+000D and the space) may
   * surround the number, one `+` or `-` may precede the digits, at least one
   * ASCII digit is needed, and the value must fit in 32 bits. A parsed
   * string always holds a digit, so the empty string never parses.
   */
  function ParseInt32(s: string): (r: Option<int>)
    ensures r.Some? ==> InInt32(r.value)
    ensures r.Some? ==> exists k :: 0 <= k < |s| && IsDigit(s[k])
  {
    var body := TrimBy(s, NumberWhiteSpace);
    var i := LeadingBlanks(s, NumberWhiteSpace);
    if |body| == 0 then None
    else
      var negative := body[0] == '-';
      var digits := if body[0] == '-' || body[0] == '+' then body[1..] else body;
      if |digits| == 0 || !AllDigits(digits) then None
      else
        var magnitude: int := DigitsValue(digits);
        var v: int := if negative then -magnitude else magnitude;
        assert IsDigit(s[i + |body| - 1]) by {
          assert digits[|digits| - 1] == body[|body| - 1] == s[i + |body| - 1];
        }
        if InInt32(v) then Some(v) else None
  }

  /** The shortest decimal rendering of a natural number. */
  function ShowNat(n: nat): (r: string)
    ensures |r| >= 1 && AllDigits(r)
  {
    if n < 10 then [DigitChar(n)] else ShowNat(n / 10) + [DigitChar(n % 10)]
  }

  /** The decimal rendering of an integer, with `-` before a negative one. */
  function ShowInt(n: int): (r: string)
    ensures |r| >= 1
  {
    if n < 0 then "-" + ShowNat(-n) else ShowNat(n)
  }

  /** Reading back a rendered natural number gives that number. */
  lemma {:induction false} DigitsValueShowNat(n: nat)
    ensures DigitsValue(ShowNat(n)) == n
    decreases n
  {
    if n >= 10 {
      var d := ShowNat(n);
      assert d[..|d| - 1] == ShowNat(n / 10);
      DigitsValueShowNat(n / 10);
    }
  }

  /** Round trip: `int.Parse` reads back every 32-bit integer's rendering. */
  lemma ParseShowInt(n: int)
    requires InInt32(n)
    ensures ParseInt32(ShowInt(n)) == Some(n)
  {
    var s := ShowInt(n);
    DigitsValueShowNat(if n < 0 then -n else n);
    assert LeadingBlanks(s, NumberWhiteSpace) == 0;
    assert TrailingBlanks(s, NumberWhiteSpace) == 0;
    assert TrimBy(s, NumberWhiteSpace) == s;
    if n < 0 {
      assert s[1..] == ShowNat(-n);
    }
  }
}
