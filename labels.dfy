/** Column labels and their coercion to the string keys of a record's
    payload (`str(column)`). A spreadsheet header cell holding a number
    gives an integer label, so the coercion writes integers in decimal. */
module Labels {

  /** A column label: a text header, or an integer one. */
  datatype Label = Name(s: string) | Position(i: int)

  predicate IsDigit(c: char) {
    '0' <= c <= '9'
  }

  /** The decimal digits of `n`, most significant first, without leading zeros. */
  function Digits(n: nat): (s: string)
    ensures |s| >= 1
    ensures forall k :: 0 <= k < |s| ==> IsDigit(s[k])
    decreases n
  {
    if n < 10 then [('0' as int + n) as char]
    else Digits(n / 10) + [('0' as int + n % 10) as char]
  }

  predicate AllDigits(s: string) {
    forall k :: 0 <= k < |s| ==> IsDigit(s[k])
  }

  /** The shape of `str` of an integer: an optional '-', then digits. */
  predicate IsDecimalText(s: string) {
    |s| >= 1 &&
    (s[0] == '-' ==> |s| >= 2 && AllDigits(s[1..])) &&
    (s[0] != '-' ==> AllDigits(s))
  }

  /** Python's `str` on an integer. */
  function Decimal(i: int): (s: string)
    ensures IsDecimalText(s)
    ensures i < 0 <==> s[0] == '-'
    ensures ParseDecimal(s) == i
  {
    if i < 0 then
      ParseDigitsOfDigits(-i);
      assert ("-" + Digits(-i))[1..] == Digits(-i);
      "-" + Digits(-i)
    else
      ParseDigitsOfDigits(i);
      Digits(i)
  }

  /** `Digits` writes no leading zero: only 0 itself starts with '0'. */
  lemma {:induction false} DigitsNoLeadingZero(n: nat)
    ensures Digits(n) == "0" <==> n == 0
    ensures Digits(n)[0] == '0' ==> Digits(n) == "0"
    decreases n
  {
    if n >= 10 {
      DigitsNoLeadingZero(n / 10);
      assert Digits(n)[0] == Digits(n / 10)[0];
    }
  }

  /** `str` of an integer is canonical: no leading zero, before or after a
      '-', so text such as "07" or "-0" is never the key of an integer. */
  lemma DecimalNoLeadingZero(i: int)
    ensures Decimal(i)[0] == '0' ==> Decimal(i) == "0"
    ensures Decimal(i)[0] == '-' ==> Decimal(i)[1] != '0'
  {
    if i < 0 {
      DigitsNoLeadingZero(-i);
      assert Decimal(i)[1] == Digits(-i)[0];
    } else {
      DigitsNoLeadingZero(i);
    }
  }

  /** The payload key of a column: `str(column)`. A text header is its own
      key; an integer header's key reads back as that integer. */
  function Key(l: Label): (k: string)
    ensures l.Name? ==> k == l.s
    ensures l.Position? ==> IsDecimalText(k) && ParseDecimal(k) == l.i
  {
    match l
    case Name(s) => s
    case Position(i) => Decimal(i)
  }

  /** Reads a string of decimal digits back as a number. */
  function ParseDigits(s: string): (n: nat)
    requires AllDigits(s)
  {
    if s == [] then 0
    else assert IsDigit(s[|s| - 1]); ParseDigits(s[..|s| - 1]) * 10 + (s[|s| - 1] as int - '0' as int)
  }

  /** Reads the text of an integer back (Python's `int` on it). */
  function ParseDecimal(s: string): (i: int)
    requires IsDecimalText(s)
  {
    if s[0] == '-' then -(ParseDigits(s[1..]) as int) else ParseDigits(s)
  }

  /** Reading the digits of a number gives the number back. */
  lemma {:induction false} ParseDigitsOfDigits(n: nat)
    ensures ParseDigits(Digits(n)) == n
    decreases n
  {
    if n >= 10 {
      var d := Digits(n / 10);
      assert Digits(n) == d + [('0' as int + n % 10) as char];
      assert Digits(n)[..|Digits(n)| - 1] == d;
      ParseDigitsOfDigits(n / 10);
    }
  }

  /** Two integer labels give the same key exactly when they are equal, so
      integer headers never collide with one another; a text header can
      still collide with an integer one (`Name("7")` and `Position(7)`). */
  lemma PositionKeysInjective(a: int, b: int)
    ensures Key(Position(a)) == Key(Position(b)) <==> a == b
  {
  }
}
