/** The pieces of JavaScript's string semantics that the source leans on:
    `String.prototype.trim`, `parseInt`, `String(n)` for integers, ASCII case
    mapping, `replace(/x/g, '')`, `includes`, `join` and `split`.
    Strings are sequences of Unicode scalar values, while JavaScript's
    `length`, indices and `<` work on UTF-16 code units; the two agree inside
    the Basic Multilingual Plane, and `Utf16Length` and `CodeUnitKey` give the
    code-unit view where the source depends on it. */
module JsString {
  import opened Wrappers

  // ---------------------------------------------------------------------------
  // Whitespace and trim
  // ---------------------------------------------------------------------------

  /** ECMAScript WhiteSpace or LineTerminator: the set `trim` removes and
      `parseInt` skips (TAB, VT, FF, SP, NBSP, ZWNBSP, the Zs separators,
      LF, CR, LS, PS). */
  predicate IsSpace(c: char) {
    || c == '\t' || c == '\n' || c == '\U{000B}' || c == '\U{000C}' || c == '\r'
    || c == ' ' || c == '\U{00A0}' || c == '\U{1680}'
    || ('\U{2000}' <= c <= '\U{200A}')
    || c == '\U{2028}' || c == '\U{2029}' || c == '\U{202F}' || c == '\U{205F}'
    || c == '\U{3000}' || c == '\U{FEFF}'
  }

  /** Drops leading whitespace. */
  function TrimStart(s: string): (r: string)
    ensures |r| <= |s| && r == s[|s| - |r|..]
    ensures forall i :: 0 <= i < |s| - |r| ==> IsSpace(s[i])
    ensures r == [] || !IsSpace(r[0])
  {
    if |s| > 0 && IsSpace(s[0]) then TrimStart(s[1..]) else s
  }

  /** Drops trailing whitespace. */
  function TrimEnd(s: string): (r: string)
    ensures |r| <= |s| && r == s[..|r|]
    ensures forall i :: |r| <= i < |s| ==> IsSpace(s[i])
    ensures r == [] || !IsSpace(r[|r| - 1])
  {
    if |s| > 0 && IsSpace(s[|s| - 1]) then TrimEnd(s[..|s| - 1]) else s
  }

  /** `s.trim()`. */
  function Trim(s: string): (r: string)
    ensures r == [] || (!IsSpace(r[0]) && !IsSpace(r[|r| - 1]))
    ensures exists i :: SliceAt(s, i, r)
  {
    var a := TrimStart(s);
    var r := TrimEnd(a);
    SliceOfSuffix(s, |s| - |a|, |r|);
    assert r == [] || r[0] == a[0];
    assert SliceAt(s, |s| - |a|, r);
    r
  }

  /** A prefix of a suffix is a slice. */
  lemma SliceOfSuffix(s: string, k: nat, m: nat)
    requires k + m <= |s|
    ensures s[k..][..m] == s[k..k + m]
  {
  }

  /** `part` occurs in `s` starting at index `i`. */
  predicate SliceAt(s: string, i: int, part: string) {
    0 <= i <= |s| - |part| && s[i..i + |part|] == part
  }

  /** A string without outer whitespace is its own trim. */
  lemma TrimNoSpace(s: string)
    requires s == [] || (!IsSpace(s[0]) && !IsSpace(s[|s| - 1]))
    ensures Trim(s) == s
  {
  }

  /** Trimming twice is trimming once. */
  lemma TrimIdempotent(s: string)
    ensures Trim(Trim(s)) == Trim(s)
  {
    TrimNoSpace(Trim(s));
  }

  /** Nothing but whitespace (the empty string included). */
  predicate IsBlank(s: string) {
    forall i :: 0 <= i < |s| ==> IsSpace(s[i])
  }

  /** A string trims to empty exactly when it is all whitespace. */
  lemma {:induction false} TrimEmptyIffBlank(s: string)
    ensures Trim(s) == [] <==> IsBlank(s)
  {
    var a := TrimStart(s);
    if a != [] {
      assert !IsSpace(s[|s| - |a|]);
      assert TrimEnd(a) != [];
    }
  }

  // ---------------------------------------------------------------------------
  // Digits
  // ---------------------------------------------------------------------------

  predicate IsDigit(c: char) {
    '0' <= c <= '9'
  }

  predicate IsHexDigit(c: char) {
    IsDigit(c) || 'a' <= c <= 'f' || 'A' <= c <= 'F'
  }

  function HexValue(c: char): (v: nat)
    requires IsHexDigit(c)
    ensures v < 16
    ensures IsDigit(c) ==> v == c as int - '0' as int
  {
    if IsDigit(c) then c as int - '0' as int
    else if 'a' <= c <= 'f' then c as int - 'a' as int + 10
    else c as int - 'A' as int + 10
  }

  predicate AllDigits(s: string, hex: bool) {
    forall i :: 0 <= i < |s| ==> (if hex then IsHexDigit(s[i]) else IsDigit(s[i]))
  }

  /** The longest prefix of `s` made of digits of the radix (10, or 16 when `hex`). */
  function DigitRun(s: string, hex: bool): (r: string)
    ensures r <= s
    ensures AllDigits(r, hex)
    ensures |r| < |s| ==> !(if hex then IsHexDigit(s[|r|]) else IsDigit(s[|r|]))
  {
    if |s| > 0 && (if hex then IsHexDigit(s[0]) else IsDigit(s[0])) then
      [s[0]] + DigitRun(s[1..], hex)
    else []
  }

  /** The number a digit string denotes, most significant digit first. */
  function DigitsValue(z: string, hex: bool): nat
    requires AllDigits(z, hex)
  {
    if |z| == 0 then 0
    else DigitsValue(z[..|z| - 1], hex) * (if hex then 16 else 10) + HexValue(z[|z| - 1])
  }

  // ---------------------------------------------------------------------------
  // parseInt
  // ---------------------------------------------------------------------------

  /** Which radix argument `parseInt` received. */
  datatype Radix = Radix10 | NoRadix

  /** The text after `parseInt`'s leading whitespace and sign. */
  function AfterSign(s: string): string {
    var t := TrimStart(s);
    if |t| > 0 && (t[0] == '+' || t[0] == '-') then t[1..] else t
  }

  function Sign(s: string): int {
    var t := TrimStart(s);
    if |t| > 0 && t[0] == '-' then -1 else 1
  }

  predicate HasHexPrefix(u: string) {
    |u| >= 2 && u[0] == '0' && (u[1] == 'x' || u[1] == 'X')
  }

  /** JavaScript `parseInt(s, 10)` (`Radix10`) or `parseInt(s)` (`NoRadix`, where a
      `0x`/`0X` prefix selects radix 16). `None` stands for `NaN`. The sign of
      zero is not modelled: `-0` and `0` are the same number here. */
  function ParseInt(s: string, radix: Radix): (r: Option<int>)
    ensures radix == Radix10 ==>
      (r.Some? <==> |AfterSign(s)| > 0 && IsDigit(AfterSign(s)[0]))
    ensures radix == Radix10 && r.Some? ==>
      r.value == Sign(s) * DigitsValue(DigitRun(AfterSign(s), false), false)
  {
    var u := AfterSign(s);
    var hex := radix == NoRadix && HasHexPrefix(u);
    var body := if hex then u[2..] else u;
    var z := DigitRun(body, hex);
    if |z| == 0 then None else Some(Sign(s) * DigitsValue(z, hex))
  }

  /** Without leading whitespace or sign, `parseInt` reads `s` itself. */
  lemma AfterSignUnsigned(s: string)
    requires |s| > 0 && !IsSpace(s[0]) && s[0] != '+' && s[0] != '-'
    ensures AfterSign(s) == s
  {
    assert TrimStart(s) == s;
  }

  /** `parseInt(s, 10)` is `NaN` when no digit follows the sign. */
  lemma ParseIntNoDigit(s: string)
    requires |AfterSign(s)| > 0 && !IsDigit(AfterSign(s)[0])
    ensures ParseInt(s, Radix10) == None
  {
  }

  // ---------------------------------------------------------------------------
  // String(n) for integers
  // ---------------------------------------------------------------------------

  function DigitChar(d: nat): (c: char)
    requires d < 10
    ensures IsDigit(c) && HexValue(c) == d
  {
    ('0' as int + d) as char
  }

  /** Decimal digits of a natural number, without leading zeros. */
  function NatToString(n: nat): (r: string)
    ensures |r| >= 1 && AllDigits(r, false)
    ensures r[0] == '0' ==> n == 0 && |r| == 1
    ensures n >= 10 ==> |r| >= 2
    decreases n
  {
    if n < 10 then [DigitChar(n)] else NatToString(n / 10) + [DigitChar(n % 10)]
  }

  /** `String(n)` for an integer `n` (JavaScript prints integers in plain decimal
      below 10^21; larger magnitudes are not modelled). */
  function IntToString(n: int): (r: string)
    ensures |r| >= 1
    ensures n >= 0 ==> AllDigits(r, false)
    ensures n < 0 ==> r[0] == '-' && AllDigits(r[1..], false)
  {
    if n >= 0 then NatToString(n) else "-" + NatToString(-n)
  }

  /** A digit prints as itself. */
  lemma SingleDigitString(d: nat)
    requires d < 10
    ensures IntToString(d) == [('0' as int + d) as char]
  {
  }

  /** Reading back the decimal digits of `n` gives `n`. */
  lemma {:induction false} DigitsValueOfNatToString(n: nat)
    ensures DigitsValue(NatToString(n), false) == n
    decreases n
  {
    if n >= 10 {
      var r := NatToString(n);
      assert r[..|r| - 1] == NatToString(n / 10);
      DigitsValueOfNatToString(n / 10);
    }
  }

  lemma DigitRunOfAllDigits(s: string)
    requires AllDigits(s, false)
    ensures DigitRun(s, false) == s
  {
  }

  /** `parseInt(String(n))` is `n`, with or without radix 10. */
  lemma ParseIntOfIntToString(n: int, radix: Radix)
    ensures ParseInt(IntToString(n), radix) == Some(n)
  {
    var s := IntToString(n);
    var m: nat := if n >= 0 then n else 0 - n;
    var digits := NatToString(m);
    assert TrimStart(s) == s;
    assert AfterSign(s) == digits && Sign(s) * m == n;
    assert !HasHexPrefix(digits);
    DigitRunOfAllDigits(digits);
    DigitsValueOfNatToString(m);
    assert DigitsValue(DigitRun(digits, false), false) == m;
  }

  // ---------------------------------------------------------------------------
  // Case mapping, character removal, search, join and split
  // ---------------------------------------------------------------------------

  function UpperChar(c: char): char {
    if 'a' <= c <= 'z' then (c as int - 32) as char else c
  }

  function LowerChar(c: char): char {
    if 'A' <= c <= 'Z' then (c as int + 32) as char else c
  }

  /** `s.toUpperCase()` restricted to ASCII letters. */
  function ToUpper(s: string): (r: string)
    ensures |r| == |s|
    ensures forall i :: 0 <= i < |s| ==> r[i] == UpperChar(s[i])
  {
    seq(|s|, i requires 0 <= i < |s| => UpperChar(s[i]))
  }

  /** `s.toLowerCase()` restricted to ASCII letters. */
  function ToLower(s: string): (r: string)
    ensures |r| == |s|
    ensures forall i :: 0 <= i < |s| ==> r[i] == LowerChar(s[i])
  {
    seq(|s|, i requires 0 <= i < |s| => LowerChar(s[i]))
  }

  /** Case mapping forgets the case it started from. */
  lemma CaseFolds(c: char)
    ensures UpperChar(UpperChar(c)) == UpperChar(c) && UpperChar(LowerChar(c)) == UpperChar(c)
    ensures LowerChar(LowerChar(c)) == LowerChar(c) && LowerChar(UpperChar(c)) == LowerChar(c)
  {
  }

  /** Lower-casing an upper-cased string gives the lower-cased original. */
  lemma LowerOfUpper(s: string)
    ensures ToLower(ToUpper(s)) == ToLower(s)
  {
    forall i | 0 <= i < |s| ensures ToLower(ToUpper(s))[i] == ToLower(s)[i] {
      CaseFolds(s[i]);
    }
  }

  lemma UpperAppend(a: string, b: string)
    ensures ToUpper(a + b) == ToUpper(a) + ToUpper(b)
  {
    assert forall i :: 0 <= i < |a + b| ==> ToUpper(a + b)[i] == (ToUpper(a) + ToUpper(b))[i];
  }

  /** `s.replace(/c/g, '')`: every occurrence of `c` deleted, the rest kept in order. */
  function RemoveAll(s: string, c: char): (r: string)
    ensures c !in r
    ensures |r| <= |s|
    ensures forall x :: x in r ==> x in s
    ensures c !in s ==> r == s
  {
    if |s| == 0 then []
    else if s[0] == c then RemoveAll(s[1..], c)
    else [s[0]] + RemoveAll(s[1..], c)
  }

  /** Deleting a character distributes over concatenation. */
  lemma {:induction false} RemoveAllAppend(a: string, b: string, c: char)
    ensures RemoveAll(a + b, c) == RemoveAll(a, c) + RemoveAll(b, c)
  {
    if |a| > 0 {
      assert (a + b)[1..] == a[1..] + b;
      RemoveAllAppend(a[1..], b, c);
    } else {
      assert a + b == b;
    }
  }

  /** `hay.includes(needle)`. */
  predicate Contains(hay: string, needle: string) {
    exists i :: 0 <= i <= |hay| && SliceAt(hay, i, needle)
  }

  /** `Contains` computed by scanning from `from`; agrees with the definition. */
  function ContainsFrom(hay: string, needle: string, from: nat): (b: bool)
    requires from <= |hay|
    ensures b <==> exists i :: from <= i <= |hay| && SliceAt(hay, i, needle)
    decreases |hay| - from
  {
    if from + |needle| > |hay| then false
    else if hay[from..from + |needle|] == needle then assert SliceAt(hay, from, needle); true
    else
      var b := ContainsFrom(hay, needle, from + 1);
      assert forall i :: from <= i <= |hay| && SliceAt(hay, i, needle) ==> i == from || from + 1 <= i;
      b
  }

  function Includes(hay: string, needle: string): (b: bool)
    ensures b <==> Contains(hay, needle)
  {
    ContainsFrom(hay, needle, 0)
  }

  /** `parts.join(sep)`. */
  function Join(parts: seq<string>, sep: string): string {
    if |parts| == 0 then ""
    else if |parts| == 1 then parts[0]
    else parts[0] + sep + Join(parts[1..], sep)
  }

  /** `s.split(c)` for a one-character separator. */
  function Split(s: string, c: char): (r: seq<string>)
    ensures |r| >= 1
    decreases |s|
  {
    if c !in s then [s]
    else
      var k := FirstIndex(s, c);
      [s[..k]] + Split(s[k + 1..], c)
  }

  /** No piece of a split holds the separator. */
  lemma {:induction false} SplitNoSeparator(s: string, c: char)
    ensures forall i :: 0 <= i < |Split(s, c)| ==> c !in Split(s, c)[i]
    decreases |s|
  {
    if c in s {
      var k := FirstIndex(s, c);
      SplitNoSeparator(s[k + 1..], c);
      assert Split(s, c) == [s[..k]] + Split(s[k + 1..], c);
    }
  }

  /** Joining the pieces of a split with the separator gives back the text. */
  lemma {:induction false} SplitJoin(s: string, c: char)
    ensures Join(Split(s, c), [c]) == s
    decreases |s|
  {
    if c in s {
      var k := FirstIndex(s, c);
      var rest := Split(s[k + 1..], c);
      SplitJoin(s[k + 1..], c);
      JoinCons(s[..k], rest, [c]);
      assert s == s[..k] + [c] + s[k + 1..];
    }
  }

  lemma JoinCons(p: string, rest: seq<string>, sep: string)
    requires |rest| >= 1
    ensures Join([p] + rest, sep) == p + sep + Join(rest, sep)
  {
    assert ([p] + rest)[1..] == rest;
  }

  /** Position of the first `c` in `s`. */
  function FirstIndex(s: string, c: char): (k: nat)
    requires c in s
    ensures k < |s| && s[k] == c && c !in s[..k]
  {
    if s[0] == c then 0 else 1 + FirstIndex(s[1..], c)
  }

  // ---------------------------------------------------------------------------
  // UTF-16 code units
  // ---------------------------------------------------------------------------

  /** The UTF-16 encoding of one character: the character itself below
      U+10000, a high and a low surrogate above. The encoding decodes back to
      the character. */
  function Utf16(c: char): (units: seq<int>)
    ensures |units| == 1 <==> c as int < 0x10000
    ensures |units| == 1 || |units| == 2
    ensures |units| == 1 ==> units[0] == c as int && !(0xD800 <= units[0] < 0xE000)
    ensures |units| == 2 ==> 0xD800 <= units[0] < 0xDC00 <= units[1] < 0xE000
    ensures |units| == 2 ==> c as int == 0x10000 + (units[0] - 0xD800) * 0x400 + (units[1] - 0xDC00)
  {
    if c as int < 0x10000 then [c as int]
    else
      var offset := c as int - 0x10000;
      [0xD800 + offset / 0x400, 0xDC00 + offset % 0x400]
  }

  /** The code units of a whole string. */
  function Utf16Of(s: string): (units: seq<int>)
    ensures |s| <= |units| <= 2 * |s|
    decreases |s|
  {
    if |s| == 0 then [] else Utf16(s[0]) + Utf16Of(s[1..])
  }

  /** `s.length`: the number of UTF-16 code units, two for each character
      above U+FFFF. */
  function Utf16Length(s: string): (n: nat)
    ensures n == |Utf16Of(s)|
    ensures |s| <= n <= 2 * |s|
    decreases |s|
  {
    if |s| == 0 then 0 else |Utf16(s[0])| + Utf16Length(s[1..])
  }

  /** A string's JavaScript length is its number of characters exactly when
      it has none above U+FFFF. */
  lemma {:induction false} Utf16LengthIsSize(s: string)
    ensures Utf16Length(s) == |s| <==> forall i :: 0 <= i < |s| ==> s[i] as int < 0x10000
    decreases |s|
  {
    if |s| > 0 {
      Utf16LengthIsSize(s[1..]);
      assert forall i :: 1 <= i < |s| ==> s[i] == s[1..][i - 1];
    }
  }

  /** Lexicographic order on code-unit sequences, a proper prefix first. */
  predicate UnitsLess(u: seq<int>, v: seq<int>)
    decreases |u|
  {
    if |u| == 0 then |v| > 0
    else if |v| == 0 then false
    else if u[0] != v[0] then u[0] < v[0]
    else UnitsLess(u[1..], v[1..])
  }

  /** One number per character that orders characters as their code units
      do: the first unit, then the low surrogate's offset. */
  function CodeUnitKey(c: char): int {
    var u := Utf16(c);
    u[0] * 0x400 + (if |u| == 2 then u[1] - 0xDC00 else 0)
  }

  /** Different characters have different keys, and comparing keys is
      comparing code units. */
  lemma CodeUnitKeyOrder(x: char, y: char)
    ensures CodeUnitKey(x) == CodeUnitKey(y) ==> x == y
    ensures CodeUnitKey(x) < CodeUnitKey(y) <==> UnitsLess(Utf16(x), Utf16(y))
  {
    var u, v := Utf16(x), Utf16(y);
    if u[0] == v[0] {
      assert |u| == |v|;
      if |u| == 2 {
        assert u[1..] == [u[1]] && v[1..] == [v[1]];
        assert [u[1]][1..] == [] && [v[1]][1..] == [];
        assert UnitsLess(u, v) == UnitsLess([u[1]], [v[1]]);
        assert UnitsLess([u[1]], [v[1]]) == (u[1] < v[1]);
      }
    }
  }

  /** A shared prefix of code units does not decide the order. */
  lemma {:induction false} UnitsLessCommonPrefix(p: seq<int>, u: seq<int>, v: seq<int>)
    ensures UnitsLess(p + u, p + v) == UnitsLess(u, v)
    decreases |p|
  {
    if |p| > 0 {
      assert (p + u)[0] == p[0] == (p + v)[0];
      assert (p + u)[1..] == p[1..] + u && (p + v)[1..] == p[1..] + v;
      UnitsLessCommonPrefix(p[1..], u, v);
    } else {
      assert p + u == u && p + v == v;
    }
  }

  /** The encodings of two different characters already decide the order,
      whatever follows them. */
  lemma UnitsLessOfDifferentChars(x: char, y: char, s: seq<int>, t: seq<int>)
    requires x != y
    ensures UnitsLess(Utf16(x) + s, Utf16(y) + t) == UnitsLess(Utf16(x), Utf16(y))
  {
    var u, v := Utf16(x), Utf16(y);
    CodeUnitKeyOrder(x, y);
    if u[0] == v[0] {
      assert |u| == 2 && |v| == 2 && u[1] != v[1];
      assert (u + s)[1..] == [u[1]] + s && (v + t)[1..] == [v[1]] + t;
      assert u[1..] == [u[1]] && v[1..] == [v[1]];
    }
  }
}
