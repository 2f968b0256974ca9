/** Raw spreadsheet cell values and the integer coercion the hierarchy check
    applies to them (`int(value) if value is not None else 0`, with
    `ValueError`/`TypeError` mapped to 0). */
module Cells {

  datatype Option<T> = None | Some(value: T)

  /** A cell value as the workbook reader hands it over: nothing, a whole
      number, a boolean, a string, or something else (a date, say). */
  datatype Cell = Empty | Int(i: int) | Bool(b: bool) | Text(s: string) | Other

  predicate IsDigit(ch: char) {
    '0' <= ch <= '9'
  }

  predicate AllDigits(s: string) {
    forall k :: 0 <= k < |s| ==> IsDigit(s[k])
  }

  function DigitValue(ch: char): (d: nat)
    requires IsDigit(ch)
    ensures d < 10
  {
    ch as int - '0' as int
  }

  function DigitChar(d: nat): (ch: char)
    requires d < 10
    ensures IsDigit(ch) && DigitValue(ch) == d
  {
    ('0' as int + d) as char
  }

  /** The value of a string of decimal digits, most significant first. */
  function DigitsValue(s: string): nat
    requires AllDigits(s)
    decreases |s|
  {
    if s == [] then 0 else DigitsValue(s[..|s| - 1]) * 10 + DigitValue(s[|s| - 1])
  }

  /** The strings the model's `int()` accepts: an optional sign followed by
      one or more ASCII decimal digits. */
  predicate IsNumeral(s: string) {
    var digits := if s != [] && (s[0] == '-' || s[0] == '+') then s[1..] else s;
    digits != [] && AllDigits(digits)
  }

  /** `int(s)` on a string, restricted to an optional sign followed by one or
      more ASCII decimal digits; `None` stands for the `ValueError`. */
  function ParseInt(s: string): (r: Option<int>)
    ensures r.Some? <==> IsNumeral(s)
    ensures r.Some? ==> forall k :: 0 < k < |s| ==> IsDigit(s[k])
    ensures r.Some? && s[0] != '-' ==> r.value >= 0
    ensures r.Some? && s[0] == '-' ==> r.value <= 0
  {
    if s == [] then None
    else
      var digits := if s[0] == '-' || s[0] == '+' then s[1..] else s;
      if digits != [] && AllDigits(digits) then
        var magnitude: int := DigitsValue(digits);
        Some(if s[0] == '-' then -magnitude else magnitude)
      else None
  }

  /** Decimal text of a natural number, without leading zeros. */
  function ShowNat(n: nat): (s: string)
    ensures s != [] && AllDigits(s)
    ensures |s| > 1 ==> s[0] != '0'
    decreases n
  {
    if n < 10 then [DigitChar(n)] else ShowNat(n / 10) + [DigitChar(n % 10)]
  }

  /** Decimal text of an integer, as `str(n)` writes it. */
  function Show(n: int): string {
    if n < 0 then "-" + ShowNat(-n) else ShowNat(n)
  }

  lemma {:induction false} DigitsValueOfShowNat(n: nat)
    ensures DigitsValue(ShowNat(n)) == n
    decreases n
  {
    if n >= 10 {
      DigitsValueOfShowNat(n / 10);
      var s := ShowNat(n);
      assert s[..|s| - 1] == ShowNat(n / 10);
    }
  }

  /** Parsing the decimal text of any integer gives that integer back. */
  lemma {:induction false} ParseIntShow(n: int)
    ensures ParseInt(Show(n)) == Some(n)
  {
    if n < 0 {
      ParseIntNegative(n);
    } else {
      ParseIntNatural(n);
    }
  }

  lemma {:induction false} ParseIntNatural(n: nat)
    ensures ParseInt(ShowNat(n)) == Some(n)
  {
    var t := ShowNat(n);
    DigitsValueOfShowNat(n);
    assert IsDigit(t[0]);
  }

  lemma {:induction false} ParseIntNegative(n: int)
    requires n < 0
    ensures ParseInt("-" + ShowNat(-n)) == Some(n)
  {
    var t := ShowNat(-n);
    var s := "-" + t;
    DigitsValueOfShowNat(-n);
    assert s[0] == '-' && s[1..] == t;
    assert IsNumeral(s);
    assert ParseInt(s) == Some(n);
  }

  /** The value of every numeral, beyond the canonical text `Show(n)`: a
      leading zero and a `+` sign change nothing, and a `-` sign negates. */
  lemma {:induction false} ParseIntValue(t: string)
    requires t != [] && AllDigits(t)
    ensures ParseInt("0" + t) == ParseInt(t)
    ensures ParseInt("+" + t) == ParseInt(t)
    ensures ParseInt(t).Some? && ParseInt("-" + t) == Some(-ParseInt(t).value)
  {
    assert IsDigit(t[0]);
    DigitsValueLeadingZero(t);
    assert ("0" + t)[0] == '0';
    assert ("+" + t)[1..] == t;
    assert ("-" + t)[1..] == t;
  }

  /** A leading zero adds nothing to the value of a digit string. */
  lemma {:induction false} DigitsValueLeadingZero(t: string)
    requires AllDigits(t)
    ensures AllDigits("0" + t) && DigitsValue("0" + t) == DigitsValue(t)
    decreases |t|
  {
    var z := "0" + t;
    assert forall k :: 1 <= k < |z| ==> z[k] == t[k - 1];
    if t == [] {
      assert z[..|z| - 1] == [];
    } else {
      var init := t[..|t| - 1];
      DigitsValueLeadingZero(init);
      assert z[..|z| - 1] == "0" + init;
      assert z[|z| - 1] == t[|t| - 1];
    }
  }

  /** The level a cell stands for in the hierarchy check: `None` and values
      `int()` rejects give 0, anything else its integer value. */
  function Level(c: Cell): (level: int)
    ensures c.Empty? || c.Other? ==> level == 0
    ensures c.Int? ==> level == c.i
    ensures c.Bool? ==> level == (if c.b then 1 else 0)
    ensures c.Text? && !IsNumeral(c.s) ==> level == 0
  {
    match c
    case Empty => 0
    case Int(i) => i
    case Bool(b) => if b then 1 else 0
    case Text(s) => (match ParseInt(s) case Some(v) => v case None => 0)
    case Other => 0
  }

  /** The coercion rules on examples of every kind: an empty cell counts as
      level 0, a number as itself and so does its decimal text; a string with
      a character other than a digit after its first, or with no digit at
      all, counts as 0. */
  lemma LevelCoercion(n: int, s: string)
    ensures Level(Empty) == 0 && Level(Other) == 0
    ensures Level(Int(n)) == n
    ensures Level(Text(Show(n))) == n
    ensures (exists k :: 0 < k < |s| && !IsDigit(s[k])) ==> Level(Text(s)) == 0
    ensures (forall k :: 0 <= k < |s| ==> !IsDigit(s[k])) ==> Level(Text(s)) == 0
  {
    ParseIntShow(n);
    if forall k :: 0 <= k < |s| ==> !IsDigit(s[k]) {
      if s != [] && (s[0] == '-' || s[0] == '+') && |s| > 1 {
        assert !IsDigit(s[1..][0]);
      }
    }
  }
}
