/** The UFID column (Task.py:38-45): its cells as read, `pd.to_numeric(errors='coerce')`, and the
    cast of the surviving values with `astype(int)`. */
module Ufid {
  import opened Wrappers
  import opened Numeric

  /** A cell as read from the file: missing (NaN), a number, or text. */
  datatype Cell = Missing | Num(v: real) | Text(s: string)

  predicate IsDigit(c: char) {
    '0' <= c <= '9'
  }

  predicate AllDigits(s: string) {
    forall i :: 0 <= i < |s| ==> IsDigit(s[i])
  }

  /** The value of a string of decimal digits; it is zero exactly when every digit is '0'. */
  function DigitsValue(s: string): (v: nat)
    requires AllDigits(s)
    ensures v == 0 <==> forall i :: 0 <= i < |s| ==> s[i] == '0'
  {
    if s == [] then 0
    else DigitsValue(s[..|s| - 1]) * 10 + ((s[|s| - 1] as int) - ('0' as int))
  }

  /** The numbers `to_numeric` reads from text: an optional sign and one or more decimal digits.
      Anything else is not numeric and becomes NaN. */
  function ParseInteger(s: string): (r: Option<int>)
    ensures r.Some? ==> |s| > 0
  {
    if |s| > 1 && (s[0] == '-' || s[0] == '+') && AllDigits(s[1..]) then
      var magnitude: int := DigitsValue(s[1..]);
      Some(if s[0] == '-' then -magnitude else magnitude)
    else if |s| > 0 && AllDigits(s) then Some(DigitsValue(s))
    else None
  }

  /** The decimal digits of a natural number. */
  function Decimal(n: nat): (s: string)
    ensures |s| > 0 && AllDigits(s)
  {
    var d := ['0' + (n % 10) as char];
    if n < 10 then d else Decimal(n / 10) + d
  }

  /** An integer written out, with a minus sign when negative. */
  function Render(n: int): string {
    if n < 0 then "-" + Decimal(-n) else Decimal(n)
  }

  /** Reading back a number's digits gives the number. */
  lemma {:induction false} DecimalValue(n: nat)
    ensures DigitsValue(Decimal(n)) == n
  {
    var s := Decimal(n);
    if n >= 10 {
      DecimalValue(n / 10);
      assert s[..|s| - 1] == Decimal(n / 10);
    }
  }

  /** Leading zeros do not change the value: "007" reads as 7. */
  lemma {:induction false} DigitsLeadingZero(s: string)
    requires AllDigits(s)
    ensures AllDigits("0" + s) && DigitsValue("0" + s) == DigitsValue(s)
  {
    var z := "0" + s;
    assert AllDigits(z) by {
      assert forall i :: 1 <= i < |z| ==> z[i] == s[i - 1];
    }
    if s != [] {
      var n := |s| - 1;
      assert z[..|z| - 1] == "0" + s[..n];
      DigitsLeadingZero(s[..n]);
    }
  }

  /** Every integer written out is read back as itself. */
  lemma ParseRendered(n: int)
    ensures ParseInteger(Render(n)) == Some(n)
  {
    var s := Render(n);
    if n < 0 {
      DecimalValue(-n);
      assert s[1..] == Decimal(-n);
    } else {
      DecimalValue(n);
    }
  }

  /** `pd.to_numeric(errors='coerce')` on one cell: NaN stays NaN, numbers stay, text is parsed
      and becomes NaN when it is not a number. */
  function ToNumeric(c: Cell): (r: Option<real>)
    ensures c.Missing? ==> r.None?
    ensures c.Num? ==> r == Some(c.v)
    ensures c.Text? && r.Some? ==> r.value == r.value.Floor as real
  {
    match c
    case Missing => None
    case Num(v) => Some(v)
    case Text(s) => if ParseInteger(s).Some? then Some(ParseInteger(s).value as real) else None
  }

  predicate IsPresent(c: Cell) {
    !c.Missing?
  }

  predicate IsNumeric(c: Cell) {
    ToNumeric(c).Some?
  }

  /** The UFID a cell yields after the coercion and the cast, none when the row is dropped. */
  function UfidValue(c: Cell): (r: Option<int>)
    ensures r.Some? <==> IsPresent(c) && IsNumeric(c)
    ensures c.Text? && r.Some? ==> Some(r.value) == ParseInteger(c.s)
  {
    match ToNumeric(c)
    case None => None
    case Some(v) => Some(TruncateTowardZero(v))
  }

  /** A UFID written out as text in the file is read back unchanged. */
  lemma RenderedUfidKept(n: int)
    ensures UfidValue(Text(Render(n))) == Some(n)
  {
    ParseRendered(n);
  }
}
