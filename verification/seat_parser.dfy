/** The seat-number normaliser used by the UI (src/utils/seat-parser.js, and an
    identical copy in src/modules/pure-utils.js): strip every `#`, then read a
    decimal integer, with 0 meaning "no seat". */
module SeatParser {
  import opened Wrappers
  import opened JsString
  import opened JsValue

  /** `parseSeatNumber(seat)`. */
  function ParseSeatNumber(seat: Value): (r: int)
    ensures !Truthy(seat) ==> r == 0
    ensures seat.Num? ==> r == seat.n
    ensures seat.Str? && Trim(seat.s) == "" ==> r == 0
  {
    if !Truthy(seat) && seat != Num(0) then 0
    else
      if seat.Num? then NumberRoundTrip(seat); ParseSeatText(ToStr(seat))
      else ParseSeatText(ToStr(seat))
  }

  /** The string branch of `parseSeatNumber`: trim, drop every `#`, read a
      decimal integer, and fall back to 0. */
  function ParseSeatText(text: string): (r: int)
    ensures Trim(text) == "" ==> r == 0
  {
    var seatStr := Trim(text);
    if seatStr == "" then 0
    else ParseInt(RemoveAll(seatStr, '#'), Radix10).GetOr(0)
  }

  /** A number goes through `String`, `trim` and `parseInt` unchanged. */
  lemma NumberRoundTrip(seat: Value)
    requires seat.Num?
    ensures Trim(ToStr(seat)) == ToStr(seat)
    ensures RemoveAll(ToStr(seat), '#') == ToStr(seat)
    ensures ParseInt(ToStr(seat), Radix10) == Some(seat.n)
  {
    var s := IntToString(seat.n);
    assert !IsSpace(s[0]) && !IsSpace(s[|s| - 1]);
    TrimNoSpace(s);
    NoHashInNumber(seat.n);
    ParseIntOfIntToString(seat.n, Radix10);
  }

  /** Parsing a parsed seat again changes nothing. */
  lemma ParseSeatIdempotent(seat: Value)
    ensures ParseSeatNumber(Num(ParseSeatNumber(seat))) == ParseSeatNumber(seat)
  {
  }

  /** A string seat goes straight to the text branch. */
  lemma StrSeat(s: string)
    ensures ParseSeatNumber(Str(s)) == ParseSeatText(s)
  {
  }

  /** `"#" + String(n)` reads back as `n`: hash marks are ignored. */
  lemma HashPrefixedSeat(n: int)
    ensures ParseSeatNumber(Str("#" + IntToString(n))) == n
  {
    var s := "#" + IntToString(n);
    HashStripped(n);
    ParseIntOfIntToString(n, Radix10);
    assert ParseSeatText(s) == n;
    StrSeat(s);
  }

  /** `"#" + String(n)` is already trimmed and loses only its `#`. */
  lemma HashStripped(n: int)
    ensures Trim("#" + IntToString(n)) == "#" + IntToString(n)
    ensures RemoveAll("#" + IntToString(n), '#') == IntToString(n)
  {
    var digits := IntToString(n);
    var s := "#" + digits;
    assert !IsSpace(s[0]) && !IsSpace(s[|s| - 1]);
    TrimNoSpace(s);
    RemoveAllAppend("#", digits, '#');
    assert RemoveAll("#", '#') == "";
    NoHashInNumber(n);
  }

  lemma NoHashInNumber(n: int)
    ensures '#' !in IntToString(n)
  {
    var r := IntToString(n);
    if n >= 0 {
      assert forall i :: 0 <= i < |r| ==> IsDigit(r[i]);
    } else {
      assert forall i :: 1 <= i < |r| ==> r[1..][i - 1] == r[i] && IsDigit(r[i]);
    }
  }

  /** Text that is already trimmed, holds no `#`, and does not start with a
      sign or digit reads as 0. */
  lemma WordSeatIsZero(s: string)
    requires |s| > 0 && !IsSpace(s[0]) && !IsSpace(s[|s| - 1])
    requires '#' !in s
    requires !IsDigit(s[0]) && s[0] != '+' && s[0] != '-'
    ensures ParseSeatNumber(Str(s)) == 0
  {
    WordTextIsZero(s);
    StrSeat(s);
  }

  lemma WordTextIsZero(s: string)
    requires |s| > 0 && !IsSpace(s[0]) && !IsSpace(s[|s| - 1])
    requires '#' !in s
    requires !IsDigit(s[0]) && s[0] != '+' && s[0] != '-'
    ensures ParseSeatText(s) == 0
  {
    TrimNoSpace(s);
    AfterSignUnsigned(s);
    ParseIntNoDigit(s);
  }

  /** Trimmed decimal digits read as their value. */
  lemma DigitSeat(n: nat)
    ensures ParseSeatNumber(Str(IntToString(n))) == n
  {
    NumberRoundTrip(Num(n));
    StrSeat(IntToString(n));
  }

  /** The documented examples of `parseSeatNumber`: `"#1"` is 1, `"2"` is 2,
      and `"abc"` is 0. (The inputs are parameters so that the literals are not
      unfolded.) */
  lemma HashOneExample(seat: string)
    requires seat == "#1"
    ensures ParseSeatNumber(Str(seat)) == 1
  {
    SingleDigitString(1);
    assert seat == "#" + IntToString(1);
    HashPrefixedSeat(1);
  }

  lemma TwoExample(seat: string)
    requires seat == "2"
    ensures ParseSeatNumber(Str(seat)) == 2
  {
    SingleDigitString(2);
    DigitSeat(2);
  }

  lemma WordExample(seat: string)
    requires seat == "abc"
    ensures ParseSeatNumber(Str(seat)) == 0
  {
    WordSeatIsZero(seat);
  }

  /** Despite the comment in pure-utils.js promising `"Seat 10"` as an accepted
      input, the leading word makes `parseInt` fail, so it yields 0. */
  lemma SeatWordPrefixIsZero(seat: string)
    requires seat == "Seat 10"
    ensures ParseSeatNumber(Str(seat)) == 0
  {
    WordSeatIsZero(seat);
  }

  /** `getPlayerSeatNumber(player)`: the parsed seat of the player. */
  function GetPlayerSeatNumber(p: Seated): (r: int)
    ensures p.seat.Num? ==> r == p.seat.n
    ensures !Truthy(p.seat) ==> r == 0
  {
    ParseSeatNumber(p.seat)
  }

  /** `compareSeatNumbers(a, b)`: a sort comparator on parsed seats. */
  function CompareSeatNumbers(a: Seated, b: Seated): (r: int)
    ensures r == 0 <==> GetPlayerSeatNumber(a) == GetPlayerSeatNumber(b)
    ensures r < 0 <==> GetPlayerSeatNumber(a) < GetPlayerSeatNumber(b)
  {
    ParseSeatNumber(a.seat) - ParseSeatNumber(b.seat)
  }

  /** The comparator is antisymmetric. */
  lemma CompareAntisymmetric(a: Seated, b: Seated)
    ensures CompareSeatNumbers(a, b) == -CompareSeatNumbers(b, a)
  {
  }
}
