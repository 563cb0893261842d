/** The Index sheet reader `buildIndexFromCsv` (src/modules/data-loader.js):
    one item per data row with a hand number, newest first by the
    `handUpdatedAt` text, plus the list of distinct hand numbers. */
module IndexSheet {
  import opened Wrappers
  import opened JsString
  import Ordering
  import Helpers
  import opened CsvRows

  /** `r[k]` kept as it is: `None` is `undefined`. */
  function RawCell(r: Row, k: nat): (c: Option<string>)
    ensures c.Some? <==> k < |r|
  {
    if k < |r| then Some(r[k]) else None
  }

  // ---------------------------------------------------------------------------
  // Number(text)
  // ---------------------------------------------------------------------------

  /** `Number(s)` on integer text, `None` being `NaN`: surrounding whitespace
      is ignored, blank text is 0, and otherwise the whole text must be a
      signed decimal integer or an unsigned `0x` hexadecimal, `0o` octal or
      `0b` binary one (either case of the letter). */
  function ToNumber(s: string): (r: Option<int>)
    ensures IsBlank(s) ==> r == Some(0)
  {
    TrimEmptyIffBlank(s);
    NumberOfTrimmed(Trim(s))
  }

  /** `Number` on text with no surrounding whitespace. */
  function NumberOfTrimmed(t: string): (r: Option<int>)
    ensures t == "" ==> r == Some(0)
  {
    if t == "" then Some(0)
    else if |t| > 2 && t[0] == '0' && IsRadixLetter(t[1]) then PrefixedNumber(t[1], t[2..])
    else
      var sign := if t[0] == '-' then -1 else 1;
      var body := if t[0] == '-' || t[0] == '+' then t[1..] else t;
      if |body| > 0 && AllDigits(body, false) then Some(sign * DigitsValue(body, false)) else None
  }

  /** The letters of the `0x`, `0o` and `0b` prefixes, in either case. */
  predicate IsRadixLetter(c: char) {
    c == 'x' || c == 'X' || c == 'o' || c == 'O' || c == 'b' || c == 'B'
  }

  /** The digits after a `0x`, `0o` or `0b` prefix, which must all belong to
      that radix. */
  function PrefixedNumber(letter: char, d: string): Option<int> {
    if letter == 'x' || letter == 'X' then
      if AllDigits(d, true) then Some(DigitsValue(d, true)) else None
    else
      var base := if letter == 'o' || letter == 'O' then 8 else 2;
      if AllBelowRadix(d, base) then Some(RadixValue(d, base)) else None
  }

  /** A decimal digit worth less than `base`. */
  predicate BelowRadix(c: char, base: nat) {
    IsDigit(c) && c as int - '0' as int < base
  }

  predicate AllBelowRadix(s: string, base: nat) {
    forall i :: 0 <= i < |s| ==> BelowRadix(s[i], base)
  }

  /** The number a digit string of radix `base` (at most 10) denotes, most
      significant digit first. */
  function RadixValue(z: string, base: nat): nat
    requires AllBelowRadix(z, base)
    decreases |z|
  {
    if |z| == 0 then 0
    else RadixValue(z[..|z| - 1], base) * base + (z[|z| - 1] as int - '0' as int)
  }

  /** Text after an octal or binary prefix reads as a number exactly when it
      is all digits of that radix, and then as their value; no sign may
      precede the prefix. */
  lemma {:induction false} NumberOfPrefixed(letter: char, d: string, base: nat)
    requires (base == 8 && (letter == 'o' || letter == 'O')) || (base == 2 && (letter == 'b' || letter == 'B'))
    requires |d| >= 1
    ensures NumberOfTrimmed(['0', letter] + d) == if AllBelowRadix(d, base) then Some(RadixValue(d, base)) else None
    ensures NumberOfTrimmed(['-', '0', letter] + d) == None
  {
    var t := ['0', letter] + d;
    assert t[2..] == d;
    var m := ['-', '0', letter] + d;
    assert m[1..] == t && !IsDigit(t[1]);
  }

  /** `+"0o17"` is 15. */
  lemma OctalText()
    ensures ToNumber("0o17") == Some(15)
  {
    var text := ['0', 'o'] + "17";
    assert text == "0o17";
    NumberOfTrimmedText(text);
    NumberOfPrefixed('o', "17", 8);
    TwoDigitValue("17", 8);
  }

  /** `+"0b11"` is 3. */
  lemma BinaryText()
    ensures ToNumber("0b11") == Some(3)
  {
    var text := ['0', 'b'] + "11";
    assert text == "0b11";
    NumberOfTrimmedText(text);
    NumberOfPrefixed('b', "11", 2);
    TwoDigitValue("11", 2);
  }

  /** Two digits of a radix read as the first times the radix plus the second. */
  lemma TwoDigitValue(z: string, base: nat)
    requires |z| == 2 && BelowRadix(z[0], base) && BelowRadix(z[1], base)
    ensures AllBelowRadix(z, base)
    ensures RadixValue(z, base) == (z[0] as int - '0' as int) * base + (z[1] as int - '0' as int)
  {
    var first := z[..1];
    assert first == [z[0]] && first[..0] == [];
    assert RadixValue(first, base) == z[0] as int - '0' as int;
    assert RadixValue(z, base) == RadixValue(first, base) * base + (z[1] as int - '0' as int);
  }

  /** `+"0o8"` is NaN: 8 is no octal digit. */
  lemma BadOctalText()
    ensures ToNumber("0o8") == None
  {
    var text := ['0', 'o'] + "8";
    assert text == "0o8";
    NumberOfTrimmedText(text);
    NumberOfPrefixed('o', "8", 8);
    assert !BelowRadix("8"[0], 8);
  }

  /** Text without outer whitespace is read as it stands. */
  lemma NumberOfTrimmedText(s: string)
    requires |s| >= 1 && !IsSpace(s[0]) && !IsSpace(s[|s| - 1])
    ensures ToNumber(s) == NumberOfTrimmed(s)
  {
    TrimNoSpace(s);
  }

  /** A run of decimal digits reads back as its value. */
  lemma NumberOfDigits(d: string)
    requires |d| >= 1 && AllDigits(d, false)
    ensures NumberOfTrimmed(d) == Some(DigitsValue(d, false))
  {
    assert |d| > 2 ==> IsDigit(d[1]);
  }

  /** A minus sign before decimal digits reads as their negated value. */
  lemma NumberOfSigned(t: string)
    requires |t| >= 2 && t[0] == '-' && AllDigits(t[1..], false)
    ensures NumberOfTrimmed(t) == Some(0 - DigitsValue(t[1..], false))
  {
  }

  /** Text that starts and ends with a digit is already trimmed. */
  lemma TrimDigitEnds(s: string)
    requires |s| >= 1 && IsDigit(s[|s| - 1]) && (IsDigit(s[0]) || s[0] == '-')
    ensures Trim(s) == s
  {
    TrimNoSpace(s);
  }

  /** The text of any integer reads back as that integer. */
  lemma NumberOfIntToString(n: int)
    ensures ToNumber(IntToString(n)) == Some(n)
  {
    if n >= 0 {
      NumberOfNatString(n);
    } else {
      NumberOfNegativeString(n);
    }
  }

  lemma NumberOfNatString(n: nat)
    ensures ToNumber(IntToString(n)) == Some(n)
  {
    var d := NatToString(n);
    assert IsDigit(d[0]) && IsDigit(d[|d| - 1]);
    TrimDigitEnds(d);
    DigitsValueOfNatToString(n);
    NumberOfDigits(d);
  }

  lemma NumberOfNegativeString(n: int)
    requires n < 0
    ensures ToNumber(IntToString(n)) == Some(n)
  {
    var m: nat := 0 - n;
    var t := IntToString(n);
    NegativeText(n, m);
    assert t[1..] == NatToString(m);
    DigitsValueOfNatToString(m);
    NumberOfMinusText(t);
  }

  lemma NegativeText(n: int, m: nat)
    requires n < 0 && m == 0 - n
    ensures IntToString(n) == "-" + NatToString(m)
  {
  }

  /** A minus sign before decimal digits, with nothing around them, reads
      back as the negated value. */
  lemma NumberOfMinusText(t: string)
    requires |t| >= 2 && t[0] == '-' && AllDigits(t[1..], false)
    ensures ToNumber(t) == Some(0 - DigitsValue(t[1..], false))
  {
    assert IsDigit(t[1..][|t| - 2]) && t[|t| - 1] == t[1..][|t| - 2];
    TrimDigitEnds(t);
    NumberOfSigned(t);
  }

  /** `+(cell || 0)`: an empty or missing cell is 0. */
  function RowNumber(r: Row, k: nat): (n: Option<int>)
    ensures Cell(r, k) == "" ==> n == Some(0)
  {
    if Cell(r, k) == "" then Some(0) else ToNumber(Cell(r, k))
  }

  // ---------------------------------------------------------------------------
  // Index items
  // ---------------------------------------------------------------------------

  /** One Index row: A handNumber, B startRow, C endRow, D handUpdatedAt,
      E handEdit, F handEditTime, G label, H table, I tableUpdatedAt, J Cam,
      K-N the two camera files, O lastStreet, P lastAction, Q workStatus. */
  datatype IndexItem = IndexItem(
    handNumber: string,
    startRow: Option<int>,
    endRow: Option<int>,
    handUpdatedAt: string,
    handEdit: Option<string>,
    handEditTime: Option<string>,
    labelText: Option<string>,
    table: string,
    tableUpdatedAt: Option<string>,
    cam: Option<string>,
    cam1: Option<string>,
    cam1no: Option<string>,
    cam2: Option<string>,
    cam2no: Option<string>,
    lastStreet: string,
    lastAction: string,
    workStatus: string)

  function ItemOf(r: Row): IndexItem {
    IndexItem(
      Cell(r, 0), RowNumber(r, 1), RowNumber(r, 2), Cell(r, 3),
      RawCell(r, 4), RawCell(r, 5), RawCell(r, 6), Cell(r, 7), RawCell(r, 8),
      RawCell(r, 9), RawCell(r, 10), RawCell(r, 11), RawCell(r, 12), RawCell(r, 13),
      Cell(r, 14), Cell(r, 15), Cell(r, 16))
  }

  lemma HandNumberOfItem(r: Row)
    ensures ItemOf(r).handNumber == Cell(r, 0)
  {
  }

  /** The data rows (below `hi`, header skipped) whose hand number is not
      empty, in sheet order. */
  function ListedRows(rows: seq<Row>, hi: nat): (r: seq<nat>)
    requires hi <= |rows|
    ensures forall j :: 0 <= j < |r| ==> 1 <= r[j] < hi && Cell(rows[r[j]], 0) != ""
    ensures forall i :: 1 <= i < hi && Cell(rows[i], 0) != "" ==> i in r
    decreases hi
  {
    if hi <= 1 then []
    else
      var prior := ListedRows(rows, hi - 1);
      if Cell(rows[hi - 1], 0) != "" then prior + [hi - 1] else prior
  }

  /** `out` before sorting. */
  function Items(rows: seq<Row>): (items: seq<IndexItem>)
    ensures var listed := ListedRows(rows, |rows|);
            |items| == |listed| && forall j :: 0 <= j < |items| ==> items[j] == ItemOf(rows[listed[j]])
  {
    var listed := ListedRows(rows, |rows|);
    seq(|listed|, j requires 0 <= j < |listed| => ItemOf(rows[listed[j]]))
  }

  function UpdatedAtOf(item: IndexItem): string {
    item.handUpdatedAt
  }

  function HandNumberOf(item: IndexItem): string {
    item.handNumber
  }

  /** What `buildIndexFromCsv` leaves in `window.state`. */
  datatype IndexData = IndexData(indexRows: seq<IndexItem>, allHandNumbers: seq<string>)

  /** `buildIndexFromCsv(rows)`. `window.state.indexRows` is the same array as
      `out`, which is sorted in place afterwards, so both come out newest
      first. */
  function BuildIndexFromCsv(rows: seq<Row>): (r: IndexData)
    ensures multiset(r.indexRows) == multiset(Items(rows))
    ensures Ordering.NewestFirst(r.indexRows, UpdatedAtOf)
    ensures Helpers.Distinct(r.allHandNumbers)
    ensures forall h :: h in r.allHandNumbers <==> exists j :: 0 <= j < |r.indexRows| && HandNumberOf(r.indexRows[j]) == h
    ensures r.allHandNumbers == Helpers.Unique(HandNumbers(r.indexRows))
    ensures forall i, j :: 0 <= i < j < |r.allHandNumbers| ==>
              Helpers.FirstAt(HandNumbers(r.indexRows), r.allHandNumbers[i]) < Helpers.FirstAt(HandNumbers(r.indexRows), r.allHandNumbers[j])
  {
    var sorted := Ordering.SortNewestFirst(Items(rows), UpdatedAtOf);
    Helpers.UniqueKeepsFirstOrder(HandNumbers(sorted));
    IndexData(sorted, Helpers.Unique(HandNumbers(sorted)))
  }

  /** `items.map(x => x.handNumber)`. */
  function HandNumbers(items: seq<IndexItem>): (r: seq<string>)
    ensures |r| == |items| && forall j :: 0 <= j < |r| ==> r[j] == HandNumberOf(items[j])
    ensures forall h :: h in r <==> exists j :: 0 <= j < |items| && HandNumberOf(items[j]) == h
  {
    var r := seq(|items|, j requires 0 <= j < |items| => HandNumberOf(items[j]));
    assert forall h :: (exists j :: 0 <= j < |items| && HandNumberOf(items[j]) == h) ==> h in r by {
      forall h | exists j :: 0 <= j < |items| && HandNumberOf(items[j]) == h ensures h in r {
        var j :| 0 <= j < |items| && HandNumberOf(items[j]) == h;
        assert r[j] == h;
      }
    }
    r
  }

  /** An item is listed exactly when it comes from a data row with a
      non-empty hand number. */
  lemma ListedItems(rows: seq<Row>, item: IndexItem)
    ensures item in BuildIndexFromCsv(rows).indexRows <==>
              exists i :: 1 <= i < |rows| && Cell(rows[i], 0) != "" && item == ItemOf(rows[i])
  {
    var items := Items(rows);
    var listed := ListedRows(rows, |rows|);
    assert item in BuildIndexFromCsv(rows).indexRows <==> item in multiset(items);
    if item in items {
      var j :| 0 <= j < |items| && items[j] == item;
      assert 1 <= listed[j] < |rows| && Cell(rows[listed[j]], 0) != "";
    }
    if exists i :: 1 <= i < |rows| && Cell(rows[i], 0) != "" && item == ItemOf(rows[i]) {
      var i :| 1 <= i < |rows| && Cell(rows[i], 0) != "" && item == ItemOf(rows[i]);
      var j :| 0 <= j < |listed| && listed[j] == i;
      assert items[j] == item;
    }
  }

  /** No listed item has an empty hand number. */
  lemma ListedHandNumbers(rows: seq<Row>)
    ensures forall item :: item in BuildIndexFromCsv(rows).indexRows ==> item.handNumber != ""
  {
    forall item | item in BuildIndexFromCsv(rows).indexRows ensures item.handNumber != "" {
      ListedItems(rows, item);
      var i :| 1 <= i < |rows| && Cell(rows[i], 0) != "" && item == ItemOf(rows[i]);
      HandNumberOfItem(rows[i]);
    }
  }
}
