/** The small string formatters shared by the UI (src/modules/pure-utils.js and
    src/utils/formatters.js): comma stripping, four-digit zero padding,
    kebab-to-camel conversion, card rendering, and the plain branch of the chip
    formatter. */
module Formatters {
  import opened Wrappers
  import opened JsString
  import opened JsValue

  // ---------------------------------------------------------------------------
  // unformatNumber
  // ---------------------------------------------------------------------------

  /** `unformatNumber(val)`: `String(val || '')` with every comma deleted. */
  function UnformatNumber(v: Value): (r: string)
    ensures ',' !in r
    ensures !Truthy(v) ==> r == ""
    ensures Truthy(v) && ',' !in ToStr(v) ==> r == ToStr(v)
  {
    RemoveAll(if Truthy(v) then ToStr(v) else "", ',')
  }

  /** Stripping commas twice is stripping them once. */
  lemma UnformatIdempotent(v: Value)
    ensures UnformatNumber(Str(UnformatNumber(v))) == UnformatNumber(v)
  {
  }

  /** The groups of a comma-grouped string, glued together. */
  function Concat(groups: seq<string>): string {
    if |groups| == 0 then "" else groups[0] + Concat(groups[1..])
  }

  lemma {:induction false} RemoveCommasJoin(groups: seq<string>)
    requires forall i :: 0 <= i < |groups| ==> ',' !in groups[i]
    ensures RemoveAll(Join(groups, ","), ',') == Concat(groups)
  {
    if |groups| == 1 {
      assert Concat(groups) == groups[0] + Concat([]);
    } else if |groups| > 1 {
      var rest := Join(groups[1..], ",");
      RemoveCommasJoin(groups[1..]);
      RemoveAllAppend(groups[0] + ",", rest, ',');
      RemoveAllAppend(groups[0], ",", ',');
      assert RemoveAll(",", ',') == "";
    }
  }

  /** Unformatting a comma-grouped number joins its groups: `"1,000"` gives
      `"1000"`. */
  lemma UnformatJoin(groups: seq<string>)
    requires forall i :: 0 <= i < |groups| ==> ',' !in groups[i]
    ensures UnformatNumber(Str(Join(groups, ","))) == Concat(groups)
  {
    RemoveCommasJoin(groups);
  }

  lemma UnformatExample(s: string)
    requires s == "1,000"
    ensures UnformatNumber(Str(s)) == "1000"
  {
    var groups := ["1", "000"];
    assert Join(groups, ",") == s;
    UnformatJoin(groups);
    assert Concat(groups) == "1" + Concat(["000"]);
  }

  // ---------------------------------------------------------------------------
  // pad4
  // ---------------------------------------------------------------------------

  /** `s.replace(/\D/g, '')`: the decimal digits of `s`, in order. */
  function KeepDigits(s: string): (r: string)
    ensures AllDigits(r, false)
    ensures |r| <= |s|
    ensures AllDigits(s, false) ==> r == s
  {
    if |s| == 0 then ""
    else (if IsDigit(s[0]) then [s[0]] else []) + KeepDigits(s[1..])
  }

  /** `s.padStart(width, fill)`. */
  function PadStart(s: string, width: nat, fill: char): (r: string)
    ensures |r| == if |s| >= width then |s| else width
    ensures r[|r| - |s|..] == s
    ensures forall i :: 0 <= i < |r| - |s| ==> r[i] == fill
  {
    if |s| >= width then s else seq(width - |s|, _ => fill) + s
  }

  /** The number `pad4` prints: the digits of `String(n || '0')` read in
      radix 10, with `NaN` (no digits) and negatives replaced by 0. */
  function Pad4Value(n: Value): (v: nat)
    ensures var digits := KeepDigits(if Truthy(n) then ToStr(n) else "0");
            v == if |digits| == 0 then 0 else DigitsValue(digits, false)
  {
    var digits := KeepDigits(if Truthy(n) then ToStr(n) else "0");
    var parsed := ParseInt(digits, Radix10);
    ParseIntOfDigits(digits);
    if parsed.None? || parsed.value <= 0 then 0 else parsed.value
  }

  /** `pad4(n)`: that number in decimal, left-padded with `'0'` to four
      characters. */
  function Pad4(n: Value): (r: string)
    ensures AllDigits(r, false) && |r| >= 4
    ensures Pad4Value(n) < 10000 ==> |r| == 4
    ensures ParseInt(r, Radix10) == Some(Pad4Value(n))
  {
    var num := Pad4Value(n);
    var r := PadStart(IntToString(num), 4, '0');
    Pad4Reads(num);
    r
  }

  /** A non-empty digit string reads as its value. */
  lemma ParseIntOfDigits(s: string)
    requires AllDigits(s, false)
    ensures ParseInt(s, Radix10) == if |s| == 0 then None else Some(DigitsValue(s, false) as int)
  {
    if |s| > 0 {
      AfterSignUnsigned(s);
      DigitRunOfAllDigits(s);
    }
  }

  /** Leading zeros do not change the value of a digit string. */
  lemma {:induction false} LeadingZeros(zeros: string, s: string)
    requires forall i :: 0 <= i < |zeros| ==> zeros[i] == '0'
    requires AllDigits(s, false)
    ensures AllDigits(zeros + s, false)
    ensures DigitsValue(zeros + s, false) == DigitsValue(s, false)
    decreases |s|
  {
    if |s| == 0 {
      assert zeros + s == zeros;
      ZerosValue(zeros);
    } else {
      var n := |s| - 1;
      LeadingZeros(zeros, s[..n]);
      assert (zeros + s)[..|zeros + s| - 1] == zeros + s[..n];
    }
  }

  lemma {:induction false} ZerosValue(zeros: string)
    requires forall i :: 0 <= i < |zeros| ==> zeros[i] == '0'
    ensures AllDigits(zeros, false) && DigitsValue(zeros, false) == 0
    decreases |zeros|
  {
    if |zeros| > 0 {
      ZerosValue(zeros[..|zeros| - 1]);
    }
  }

  /** The padded text of `num` is all digits and reads back as `num`. */
  lemma Pad4Reads(num: nat)
    ensures var r := PadStart(IntToString(num), 4, '0');
            AllDigits(r, false) && |r| >= 4
            && (num < 10000 ==> |r| == 4)
            && DigitsValue(r, false) == num
            && ParseInt(r, Radix10) == Some(num)
  {
    var digits := IntToString(num);
    var r := PadStart(digits, 4, '0');
    var zeros := r[..|r| - |digits|];
    assert r == zeros + digits;
    LeadingZeros(zeros, digits);
    DigitsValueOfNatToString(num);
    ParseIntOfDigits(r);
    if num < 10000 {
      NatToStringShort(num);
    }
  }

  /** Numbers below 10000 print with at most four digits. */
  lemma NatToStringShort(n: nat)
    requires n < 10000
    ensures |NatToString(n)| <= 4
  {
    NatToStringStep(n);
    NatToStringStep(n / 10);
    NatToStringStep(n / 100);
    NatToStringStep(n / 1000);
  }

  /** Each further digit adds one character. */
  lemma NatToStringStep(n: nat)
    ensures n < 10 ==> |NatToString(n)| == 1
    ensures n >= 10 ==> |NatToString(n)| == |NatToString(n / 10)| + 1 && n / 10 / 10 == n / 100
    ensures n / 100 / 10 == n / 1000
  {
  }

  /** Padding an already padded value changes nothing. */
  lemma Pad4Idempotent(n: Value)
    ensures Pad4(Str(Pad4(n))) == Pad4(n)
  {
    var r := Pad4(n);
    assert Truthy(Str(r));
    assert KeepDigits(r) == r;
    Pad4Reads(Pad4Value(n));
  }

  /** A value below 10000 survives the padding: the four characters read back
      as the number. */
  lemma Pad4RoundTrip(k: nat)
    requires 0 < k < 10000
    ensures |Pad4(Num(k))| == 4
    ensures ParseInt(Pad4(Num(k)), Radix10) == Some(k)
  {
    DigitsValueOfNatToString(k);
    assert KeepDigits(IntToString(k)) == IntToString(k);
  }

  /** A positive number is padded from its own decimal text. */
  lemma Pad4OfPositive(k: nat)
    requires k > 0
    ensures Pad4(Num(k)) == PadStart(IntToString(k), 4, '0')
  {
    DigitsValueOfNatToString(k);
    assert KeepDigits(IntToString(k)) == IntToString(k);
  }

  lemma PadOneDigit(d: string)
    requires |d| == 1
    ensures PadStart(d, 4, '0') == "000" + d
  {
  }

  lemma PadThreeDigits(d: string)
    requires |d| == 3
    ensures PadStart(d, 4, '0') == "0" + d
  {
  }

  /** A single non-zero digit gets three zeros in front (`pad4(1)` is
      `"0001"`). */
  lemma Pad4SingleDigit(d: nat)
    requires 0 < d < 10
    ensures Pad4(Num(d)) == "000" + [DigitChar(d)]
  {
    Pad4OfPositive(d);
    PadOneDigit(IntToString(d));
  }

  /** Three digits get one zero in front (`pad4(123)` is `"0123"`). */
  lemma Pad4ThreeDigits(n: nat)
    requires 100 <= n < 1000
    ensures Pad4(Num(n)) == "0" + IntToString(n)
  {
    Pad4OfPositive(n);
    ThreeDigitText(n);
    PadThreeDigits(IntToString(n));
  }

  lemma ThreeDigitText(n: nat)
    requires 100 <= n < 1000
    ensures |IntToString(n)| == 3
  {
    NatToStringStep(n);
    NatToStringStep(n / 10);
    NatToStringStep(n / 100);
    assert 10 <= n / 10 < 100 && 1 <= n / 100 < 10;
  }

  // ---------------------------------------------------------------------------
  // toCamelCase
  // ---------------------------------------------------------------------------

  predicate IsLowerAscii(c: char) {
    'a' <= c <= 'z'
  }

  /** `s[i..i+2]` matches `/-([a-z])/`. */
  predicate HyphenLowerAt(s: string, i: int) {
    0 <= i && i + 1 < |s| && s[i] == '-' && IsLowerAscii(s[i + 1])
  }

  /** `str.replace(/-([a-z])/g, g => g[1].toUpperCase())`: scanning left to
      right, each hyphen followed by a lower-case ASCII letter becomes that
      letter upper-cased. No such pair is left afterwards, and a string with
      none is returned unchanged. */
  function ToCamelCase(s: string): (r: string)
    ensures forall i :: !HyphenLowerAt(r, i)
    ensures (forall i :: !HyphenLowerAt(s, i)) ==> r == s
    ensures |s| > 0 && !IsLowerAscii(s[0]) ==> |r| > 0 && !IsLowerAscii(r[0])
    decreases |s|
  {
    if |s| == 0 then ""
    else if HyphenLowerAt(s, 0) then
      var rest := ToCamelCase(s[2..]);
      var r := [UpperChar(s[1])] + rest;
      assert forall i :: 1 <= i ==> (HyphenLowerAt(r, i) <==> HyphenLowerAt(rest, i - 1));
      r
    else
      var rest := ToCamelCase(s[1..]);
      var r := [s[0]] + rest;
      assert forall i :: 1 <= i ==> (HyphenLowerAt(r, i) <==> HyphenLowerAt(rest, i - 1));
      assert forall i :: 1 <= i ==> (HyphenLowerAt(s, i) <==> HyphenLowerAt(s[1..], i - 1));
      assert s[0] == '-' && |s| > 1 ==> !IsLowerAscii(s[1]);
      NoPairShifts(s);
      assert s == [s[0]] + s[1..];
      r
  }

  lemma NoPairShifts(s: string)
    requires |s| > 0
    ensures (forall i :: !HyphenLowerAt(s, i)) ==> forall i :: !HyphenLowerAt(s[1..], i)
  {
    if forall i :: !HyphenLowerAt(s, i) {
      forall i ensures !HyphenLowerAt(s[1..], i) {
        assert HyphenLowerAt(s[1..], i) ==> HyphenLowerAt(s, i + 1);
      }
    }
  }

  /** Converting twice is converting once. */
  lemma CamelIdempotent(s: string)
    ensures ToCamelCase(ToCamelCase(s)) == ToCamelCase(s)
  {
  }

  /** The reverse conversion: every upper-case ASCII letter `X` becomes `-x`. */
  function ToKebabCase(s: string): (r: string)
    decreases |s|
  {
    if |s| == 0 then ""
    else (if 'A' <= s[0] <= 'Z' then ['-', LowerChar(s[0])] else [s[0]]) + ToKebabCase(s[1..])
  }

  /** For text without hyphens, camel case undoes kebab case. */
  lemma {:induction false} CamelUndoesKebab(s: string)
    requires '-' !in s
    ensures ToCamelCase(ToKebabCase(s)) == s
    decreases |s|
  {
    if |s| > 0 {
      var k := ToKebabCase(s[1..]);
      CamelUndoesKebab(s[1..]);
      if 'A' <= s[0] <= 'Z' {
        var t := ['-', LowerChar(s[0])] + k;
        assert ToKebabCase(s) == t;
        assert HyphenLowerAt(t, 0) && t[2..] == k;
        assert UpperChar(LowerChar(s[0])) == s[0];
      } else {
        var t := [s[0]] + k;
        assert ToKebabCase(s) == t;
        assert !HyphenLowerAt(t, 0) && t[1..] == k;
      }
      assert s == [s[0]] + s[1..];
    }
  }

  /** The documented example generalised: two words of lower-case letters
      joined by a hyphen (`"hello-world"`) become one word with the second
      word's initial upper-cased (`"helloWorld"`). */
  lemma CamelJoinsWords(a: string, b: string)
    requires forall i :: 0 <= i < |a| ==> IsLowerAscii(a[i])
    requires |b| > 0 && forall i :: 0 <= i < |b| ==> IsLowerAscii(b[i])
    ensures ToCamelCase(a + "-" + b) == a + [UpperChar(b[0])] + b[1..]
  {
    var camel := a + ([UpperChar(b[0])] + b[1..]);
    JoinedHasNoHyphen(a, b);
    KebabOfJoined(a, b);
    CamelUndoesKebab(camel);
    assert camel == a + [UpperChar(b[0])] + b[1..];
  }

  lemma JoinedHasNoHyphen(a: string, b: string)
    requires forall i :: 0 <= i < |a| ==> IsLowerAscii(a[i])
    requires |b| > 0 && forall i :: 0 <= i < |b| ==> IsLowerAscii(b[i])
    ensures '-' !in a + ([UpperChar(b[0])] + b[1..])
  {
    var camel := a + ([UpperChar(b[0])] + b[1..]);
    forall i | 0 <= i < |camel| ensures camel[i] != '-' {
      if i < |a| {
        assert camel[i] == a[i];
      } else if i > |a| {
        assert camel[i] == b[i - |a|];
      }
    }
  }

  lemma KebabOfJoined(a: string, b: string)
    requires forall i :: 0 <= i < |a| ==> IsLowerAscii(a[i])
    requires |b| > 0 && forall i :: 0 <= i < |b| ==> IsLowerAscii(b[i])
    ensures ToKebabCase(a + ([UpperChar(b[0])] + b[1..])) == a + "-" + b
  {
    var up := UpperChar(b[0]);
    var tail := b[1..];
    var k := ['-', b[0]] + tail;
    assert ToKebabCase(a + ([up] + tail)) == a + k by {
      KebabOfCapitalised(b[0], tail);
      KebabUnchanged(a);
      KebabConcat(a, [up] + tail);
    }
    HyphenBefore(a, b);
  }

  lemma HyphenBefore(a: string, b: string)
    requires |b| > 0
    ensures a + (['-', b[0]] + b[1..]) == a + "-" + b
  {
    assert ['-', b[0]] + b[1..] == "-" + b;
  }

  lemma KebabOfCapitalised(c: char, tail: string)
    requires IsLowerAscii(c)
    requires forall i :: 0 <= i < |tail| ==> IsLowerAscii(tail[i])
    ensures ToKebabCase([UpperChar(c)] + tail) == ['-', c] + tail
  {
    UpperThenLower(c);
    KebabCons(UpperChar(c), tail);
    KebabUnchanged(tail);
  }

  lemma UpperThenLower(c: char)
    requires IsLowerAscii(c)
    ensures 'A' <= UpperChar(c) <= 'Z' && LowerChar(UpperChar(c)) == c
  {
  }

  lemma KebabCons(x: char, rest: string)
    ensures ToKebabCase([x] + rest) == (if 'A' <= x <= 'Z' then ['-', LowerChar(x)] else [x]) + ToKebabCase(rest)
  {
    assert ([x] + rest)[1..] == rest;
  }

  /** Text without upper-case ASCII letters is its own kebab case. */
  lemma {:induction false} KebabUnchanged(s: string)
    requires forall i :: 0 <= i < |s| ==> !('A' <= s[i] <= 'Z')
    ensures ToKebabCase(s) == s
    decreases |s|
  {
    if |s| > 0 {
      KebabUnchanged(s[1..]);
      assert s == [s[0]] + s[1..];
    }
  }

  /** Kebab case works character by character. */
  lemma {:induction false} KebabConcat(a: string, b: string)
    ensures ToKebabCase(a + b) == ToKebabCase(a) + ToKebabCase(b)
    decreases |a|
  {
    if |a| > 0 {
      KebabConcat(a[1..], b);
      assert (a + b)[1..] == a[1..] + b;
    } else {
      assert a + b == b;
    }
  }

  // ---------------------------------------------------------------------------
  // formatCardDisplay
  // ---------------------------------------------------------------------------

  /** The bare suit glyphs, keyed by suit letter. */
  function SuitGlyph(suit: char): Option<string> {
    if suit == 'h' then Some("♥")
    else if suit == 'd' then Some("♦")
    else if suit == 'c' then Some("♣")
    else if suit == 's' then Some("♠")
    else None
  }

  /** The emoji presentation selector the pure-utils glyphs carry. */
  const EmojiSelector: string := "️"

  /** `formatCardDisplay(cardId)` of pure-utils: `''` for `''`; otherwise all
      but the last character, then the emoji glyph of the suit, or the last
      character itself when it is not a suit letter. */
  function FormatCardDisplay(card: string): (r: string)
    ensures card == "" <==> r == ""
    ensures card != "" ==> card[..|card| - 1] <= r
    ensures card != "" && SuitGlyph(card[|card| - 1]).None? ==> r == card
  {
    if card == "" then ""
    else
      var rank := card[..|card| - 1];
      var suit := card[|card| - 1];
      assert card == rank + [suit];
      rank + (match SuitGlyph(suit) case Some(g) => g + EmojiSelector case None => [suit])
  }

  /** A card ends in a suit letter. */
  predicate EndsInSuit(card: string) {
    |card| > 0 && SuitGlyph(card[|card| - 1]).Some?
  }

  /** Cards that end in a suit letter render differently. */
  lemma CardDisplayInjective(a: string, b: string)
    requires EndsInSuit(a) && EndsInSuit(b)
    requires FormatCardDisplay(a) == FormatCardDisplay(b)
    ensures a == b
  {
    var r := FormatCardDisplay(a);
    assert |r| == |a| + 1 && |r| == |b| + 1;
    var n := |a| - 1;
    assert a[..n] == r[..n] == b[..n];
    assert r[n] == SuitGlyph(a[n]).value[0] == SuitGlyph(b[n]).value[0];
    assert a == a[..n] + [a[n]] && b == b[..n] + [b[n]];
  }

  /** The text colour class of formatters.js: red for hearts and diamonds. */
  function CardColor(suit: char): (r: string)
    ensures r == "text-red-500" <==> suit == 'h' || suit == 'd'
  {
    if suit == 'h' || suit == 'd' then "text-red-500" else "text-black"
  }

  /** The markup of formatters.js around a colour class, rank and glyph. */
  function CardMarkup(color: string, rank: string, glyph: string): string {
    "<div class=\"card-display h-full w-full " + color + "\"><div class=\"rank\">"
    + rank + "</div><div>" + glyph + "</div></div>"
  }

  /** `formatCardDisplay(cardId)` of formatters.js: `''` for `''`, otherwise
      the markup with the rank, the colour class, and the bare glyph, which is
      empty for an unknown suit. */
  function FormatCardHtml(card: string): (r: string)
    ensures card == "" <==> r == ""
  {
    if card == "" then ""
    else
      var suit := card[|card| - 1];
      CardMarkup(CardColor(suit), card[..|card| - 1], SuitGlyph(suit).GetOr(""))
  }

  /** The two card formatters agree on a suit letter up to the emoji selector,
      and differ on an unknown suit: pure-utils echoes it, formatters.js drops
      it. */
  lemma CardFormattersCompared(card: string)
    requires card != ""
    ensures var rank := card[..|card| - 1];
            var suit := card[|card| - 1];
            FormatCardHtml(card) == CardMarkup(CardColor(suit), rank, SuitGlyph(suit).GetOr(""))
            && (EndsInSuit(card) ==> FormatCardDisplay(card) == rank + SuitGlyph(suit).value + EmojiSelector)
            && (!EndsInSuit(card) ==> FormatCardDisplay(card) == card
                                      && FormatCardHtml(card) == CardMarkup("text-black", rank, ""))
  {
  }

  // ---------------------------------------------------------------------------
  // formatChips of formatters.js, below 1000
  // ---------------------------------------------------------------------------

  /** `formatChips(amount)` of formatters.js: `'0'` for a falsy amount,
      otherwise `parseInt(amount, 10).toString()`, which is `'NaN'` when
      nothing parses. `None` marks amounts that parse to 1000 or more, whose
      `K`/`M` branches are not modelled. */
  function FormatChips(amount: Value): (r: Option<string>)
    ensures r.None? <==> Truthy(amount) && ParseInt(ToStr(amount), Radix10).Some?
                         && ParseInt(ToStr(amount), Radix10).value >= 1000
    ensures !Truthy(amount) ==> r == Some("0")
    ensures Truthy(amount) && ParseInt(ToStr(amount), Radix10).None? ==> r == Some("NaN")
    ensures r.Some? && Truthy(amount) && ParseInt(ToStr(amount), Radix10).Some? ==>
              ParseInt(r.value, Radix10) == ParseInt(ToStr(amount), Radix10)
  {
    if !Truthy(amount) then Some("0")
    else
      match ParseInt(ToStr(amount), Radix10)
      case None => Some("NaN")
      case Some(num) =>
        if num >= 1000 then None
        else ParseIntOfIntToString(num, Radix10); Some(IntToString(num))
  }

  /** A small chip count prints as itself. */
  lemma SmallChipsPrintPlain(k: int)
    requires k != 0 && k < 1000
    ensures FormatChips(Num(k)) == Some(IntToString(k))
  {
    ParseIntOfIntToString(k, Radix10);
  }
}
