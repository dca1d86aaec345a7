/** Spreadsheet column names and A1 ranges (src/lark/sheets/mod.rs). */
module SheetColumns {
  import opened Numbers

  const I32_MAX := 0x7FFF_FFFF

  /** The columns a caller may ask for. */
  predicate IsColumn(n: int) { 0 < n <= I32_MAX }

  predicate IsLetter(c: char) { 'A' <= c <= 'Z' }

  predicate IsName(s: string) {
    s != [] && AreLetters(s)
  }

  predicate AreLetters(s: string) {
    forall i :: 0 <= i < |s| ==> IsLetter(s[i])
  }

  /** A name read as a number of base 26 with the digits A = 1 to Z = 26. */
  function ColumnNumber(s: string): nat
    requires AreLetters(s)
  {
    if s == [] then 0 else 26 * ColumnNumber(s[..|s| - 1]) + (s[|s| - 1] as int - 'A' as int + 1)
  }

  /** 26 to the power of `k`. */
  function Power26(k: nat): (p: nat)
    ensures p > 0
  {
    if k == 0 then 1 else 26 * Power26(k - 1)
  }

  /** `column_number_to_name`; decoding the name gives the column back. */
  method ColumnNumberToName(column: int) returns (name: string)
    requires IsColumn(column)
    ensures IsName(name)
    ensures ColumnNumber(name) == column
  {
    var rest := column;
    name := "";
    ghost var scale := 1;
    while rest > 0
      invariant 0 <= rest <= column
      invariant rest < column ==> name != []
      invariant AreLetters(name)
      invariant scale == Power26(|name|)
      invariant rest * scale + ColumnNumber(name) == column
      decreases rest
    {
      ghost var before, tail := rest, name;
      rest := rest - 1;
      var c := (rest % 26 + 'A' as int) as char;
      PutInFront(c, tail);
      StepKeepsValue(rest, scale);
      name := [c] + name;
      rest := rest / 26;
      scale := 26 * scale;
    }
  }

  lemma StepKeepsValue(rest: nat, scale: nat)
    ensures (rest + 1) * scale == (rest / 26) * (26 * scale) + (rest % 26 + 1) * scale
  {
    var q, d := rest / 26, rest % 26;
    assert rest == 26 * q + d;
    assert (26 * q + d + 1) * scale == q * (26 * scale) + (d + 1) * scale;
  }

  lemma {:induction false} PutInFront(c: char, s: string)
    requires IsLetter(c) && AreLetters(s)
    ensures AreLetters([c] + s)
    ensures ColumnNumber([c] + s) == (c as int - 'A' as int + 1) * Power26(|s|) + ColumnNumber(s)
  {
    var name := [c] + s;
    if s == [] {
      assert name[..0] == [];
    } else {
      var front := s[..|s| - 1];
      assert name[..|name| - 1] == [c] + front;
      PutInFront(c, front);
    }
  }

  // ----------------------------------------------------------------- one name each

  /** Shorter names first, then by letters: the order of the columns on the sheet. */
  predicate Before(a: string, b: string) {
    |a| < |b| || (|a| == |b| && LettersBefore(a, b))
  }

  predicate LettersBefore(a: string, b: string)
    requires |a| == |b|
  {
    a != [] && (a[0] < b[0] || (a[0] == b[0] && LettersBefore(a[1..], b[1..])))
  }

  /** The names of `k` letters are the columns from (26^k - 1) / 25 on, 26^k of them. */
  lemma {:induction false} NumberRange(s: string)
    requires AreLetters(s)
    ensures Power26(|s|) <= 25 * ColumnNumber(s) + 1
    ensures 25 * ColumnNumber(s) + 26 <= 26 * Power26(|s|)
  {
    if s != [] { NumberRange(s[..|s| - 1]); }
  }

  lemma {:induction false} LettersOrder(a: string, b: string)
    requires |a| == |b| && AreLetters(a) && AreLetters(b) && LettersBefore(a, b)
    ensures ColumnNumber(a) < ColumnNumber(b)
  {
    assert a == [a[0]] + a[1..] && b == [b[0]] + b[1..];
    PutInFront(a[0], a[1..]);
    PutInFront(b[0], b[1..]);
    if a[0] == b[0] {
      LettersOrder(a[1..], b[1..]);
    } else {
      NumberRange(a[1..]);
      NumberRange(b[1..]);
      var p := Power26(|a| - 1);
      HigherLetter(a[0] as int, b[0] as int, p);
    }
  }

  lemma HigherLetter(x: int, y: int, p: nat)
    requires x < y
    ensures (x - 'A' as int + 1) * p + p <= (y - 'A' as int + 1) * p
  {
    assert (y - 'A' as int + 1) * p == (x - 'A' as int + 1) * p + p + (y - x - 1) * p;
  }

  lemma {:induction false} PowerGrows(a: nat, b: nat)
    requires a < b
    ensures 26 * Power26(a) <= Power26(b)
  {
    if a + 1 < b { PowerGrows(a, b - 1); }
  }

  /** Earlier in the order of names is earlier on the sheet. */
  lemma OrderOfNames(a: string, b: string)
    requires AreLetters(a) && AreLetters(b) && Before(a, b)
    ensures ColumnNumber(a) < ColumnNumber(b)
  {
    if |a| < |b| {
      NumberRange(a);
      NumberRange(b);
      PowerGrows(|a|, |b|);
    } else {
      LettersOrder(a, b);
    }
  }

  lemma {:induction false} LettersTotal(a: string, b: string)
    requires |a| == |b| && a != b
    ensures LettersBefore(a, b) || LettersBefore(b, a)
  {
    assert a == [] ==> a == b;
    assert a == [a[0]] + a[1..] && b == [b[0]] + b[1..];
    if a[0] == b[0] { LettersTotal(a[1..], b[1..]); }
  }

  /** Decoding is one to one, and the order of the numbers is exactly the order of
      the names. */
  lemma NamesAndNumbersAgree(a: string, b: string)
    requires AreLetters(a) && AreLetters(b)
    ensures ColumnNumber(a) == ColumnNumber(b) <==> a == b
    ensures ColumnNumber(a) < ColumnNumber(b) <==> Before(a, b)
  {
    if Before(a, b) {
      OrderOfNames(a, b);
    } else if Before(b, a) {
      OrderOfNames(b, a);
    } else if a != b {
      LettersTotal(a, b);
    }
  }

  /** How a range is written. */
  predicate IsRange(range: string, rows: int, columns: int, name: string, digits: string) {
    && range == "A1:" + name + digits
    && IsName(name) && ColumnNumber(name) == columns
    && AreDigits(digits) && DigitsValue(digits) == rows
  }

  /** `build_a1_range` */
  method BuildA1Range(rows: int, columns: int) returns (range: string)
    requires IsColumn(rows) && IsColumn(columns)
    ensures exists name, digits :: IsRange(range, rows, columns, name, digits)
  {
    var end := ColumnNumberToName(columns);
    NatTextRoundTrip(rows);
    range := "A1:" + end + NatText(rows);
    assert IsRange(range, rows, columns, end, NatText(rows));
  }

  /** A range names one rectangle only: letters end where digits begin. */
  lemma RangeReadsBack(range: string, rows: int, columns: int, name: string, digits: string,
      rows': int, columns': int, name': string, digits': string)
    requires IsRange(range, rows, columns, name, digits) && IsRange(range, rows', columns', name', digits')
    ensures rows == rows' && columns == columns'
  {
    assert range[3..] == name + digits == name' + digits';
    NotShorter(name, digits, name', digits');
    NotShorter(name', digits', name, digits);
    assert name == range[3..][..|name|] && name' == range[3..][..|name|];
    assert digits == range[3..][|name|..] && digits' == range[3..][|name|..];
  }

  lemma NotShorter(name: string, digits: string, name': string, digits': string)
    requires IsName(name) && AreDigits(digits) && IsName(name') && AreDigits(digits')
    requires name + digits == name' + digits'
    ensures |name| >= |name'|
  {
    var all := name + digits;
    assert all[|name|] == digits[0];
    assert forall i :: 0 <= i < |name'| ==> all[i] == name'[i];
  }
}
