/** The input validators of src/utils/validators.js, with the bounds and
    patterns of src/js/constants.js (`VALIDATION_RULES`, `REGEX_PATTERNS`).
    Each validator answers `{valid, error?, value?, missing?}`; the error
    messages are represented by the reason they report. */
module Validators {
  import opened Wrappers
  import opened JsString
  import opened JsValue
  import JsonTree
  import Formatters
  import SeatParser

  // ---------------------------------------------------------------------------
  // Bounds and verdicts
  // ---------------------------------------------------------------------------

  const PlayerNameMinLength: nat := 1
  const PlayerNameMaxLength: nat := 50
  const MinChips: int := 0
  const MaxChips: int := 10000000
  const MinSeat: int := 1
  const MaxSeat: int := 10
  const MinBet: int := 0
  const MaxBet: int := 10000000

  /** Why a value was rejected. */
  datatype Reason = Empty | TooShort | TooLong | NotANumber | BelowMin | AboveMax | BadFormat

  /** `{valid: true, value?}`, `{valid: false, error}`, or the
      `{valid: false, missing}` of `validateRequiredFields`. */
  datatype Verdict =
    | Valid(value: Option<int>)
    | Invalid(reason: Reason)
    | MissingFields(missing: seq<string>)

  // ---------------------------------------------------------------------------
  // validatePlayerName
  // ---------------------------------------------------------------------------

  /** `validatePlayerName(name)`: a non-empty string whose trimmed
      `length` (UTF-16 code units) is between 1 and 50. */
  function ValidatePlayerName(name: Value): (r: Verdict)
    ensures r.Valid? <==> name.Str? && PlayerNameMinLength <= Utf16Length(Trim(name.s)) <= PlayerNameMaxLength
    ensures r.Valid? ==> r.value.None?
    ensures !Truthy(name) || !name.Str? ==> r == Invalid(Empty)
  {
    if !Truthy(name) || !name.Str? then Invalid(Empty)
    else
      var length := Utf16Length(Trim(name.s));
      if length < PlayerNameMinLength then Invalid(TooShort)
      else if length > PlayerNameMaxLength then Invalid(TooLong)
      else Valid(None)
  }

  /** An accepted name has at most 50 characters, fewer when some lie above
      U+FFFF; a name without such characters is measured by its characters. */
  lemma NameLengthInCodeUnits(s: string)
    ensures ValidatePlayerName(Str(s)).Valid? ==> PlayerNameMinLength <= |Trim(s)| <= PlayerNameMaxLength
    ensures (forall i :: 0 <= i < |Trim(s)| ==> Trim(s)[i] as int < 0x10000) ==>
              (ValidatePlayerName(Str(s)).Valid? <==> PlayerNameMinLength <= |Trim(s)| <= PlayerNameMaxLength)
  {
    Utf16LengthIsSize(Trim(s));
  }

  /** Surrounding whitespace never decides whether a name is accepted. */
  lemma NameIgnoresPadding(s: string)
    ensures ValidatePlayerName(Str(s)).Valid? == ValidatePlayerName(Str(Trim(s))).Valid?
  {
    TrimIdempotent(s);
  }

  // ---------------------------------------------------------------------------
  // validateChips, validateBet, validateSeat
  // ---------------------------------------------------------------------------

  /** The shared shape of `validateChips` and `validateBet`:
      `parseInt(unformatNumber(amount), 10)` checked against `[min, max]`. */
  function ValidateAmount(amount: Value, min: int, max: int): (r: Verdict)
    ensures var parsed := ParseInt(Formatters.UnformatNumber(amount), Radix10);
            (r.Valid? <==> parsed.Some? && min <= parsed.value <= max)
            && (r.Valid? ==> r.value == parsed)
            && (parsed.None? ==> r == Invalid(NotANumber))
  {
    match ParseInt(Formatters.UnformatNumber(amount), Radix10)
    case None => Invalid(NotANumber)
    case Some(num) =>
      if num < min then Invalid(BelowMin)
      else if num > max then Invalid(AboveMax)
      else Valid(Some(num))
  }

  /** `validateChips(chips)`: between 0 and 10,000,000 after comma
      stripping. */
  function ValidateChips(chips: Value): (r: Verdict)
    ensures var parsed := ParseInt(Formatters.UnformatNumber(chips), Radix10);
            (r.Valid? <==> parsed.Some? && MinChips <= parsed.value <= MaxChips)
            && (r.Valid? ==> r.value == parsed)
  {
    ValidateAmount(chips, MinChips, MaxChips)
  }

  /** `validateBet(amount)`: the same check with the bet bounds. */
  function ValidateBet(amount: Value): (r: Verdict)
    ensures var parsed := ParseInt(Formatters.UnformatNumber(amount), Radix10);
            (r.Valid? <==> parsed.Some? && MinBet <= parsed.value <= MaxBet)
            && (r.Valid? ==> r.value == parsed)
  {
    ValidateAmount(amount, MinBet, MaxBet)
  }

  /** A positive amount in range, given as a number, is accepted with its own
      value. */
  lemma PositiveAmountAccepted(k: int, min: int, max: int)
    requires 0 < k && min <= k <= max
    ensures ValidateAmount(Num(k), min, max) == Valid(Some(k))
  {
    NumberUnformatted(k);
    ParseIntOfIntToString(k, Radix10);
  }

  /** A positive number unformats to its decimal text. */
  lemma NumberUnformatted(k: int)
    requires k > 0
    ensures Formatters.UnformatNumber(Num(k)) == IntToString(k)
  {
    assert Truthy(Num(k)) && ToStr(Num(k)) == IntToString(k);
    var text := IntToString(k);
    assert forall i :: 0 <= i < |text| ==> IsDigit(text[i]);
    assert ',' !in text;
  }

  /** Comma grouping is ignored: `"1,000"` is accepted as 1000. */
  lemma GroupedChipsAccepted(s: string)
    requires s == "1,000"
    ensures ValidateChips(Str(s)) == Valid(Some(1000))
  {
    Formatters.UnformatExample(s);
    ThousandDigits("1000");
  }

  lemma ThousandDigits(t: string)
    requires t == "1000"
    ensures ParseInt(t, Radix10) == Some(1000)
  {
    assert NatToString(1000) == NatToString(100) + [DigitChar(0)];
    assert NatToString(100) == NatToString(10) + [DigitChar(0)];
    assert NatToString(10) == NatToString(1) + [DigitChar(0)];
    assert IntToString(1000) == t;
    ParseIntOfIntToString(1000, Radix10);
  }

  /** The number 0 is rejected as not a number, although 0 is the lower
      bound: `unformatNumber(0)` is `''`, since `0 || ''` is `''`. */
  lemma NumericZeroRejected()
    ensures ValidateChips(Num(0)) == Invalid(NotANumber)
    ensures ValidateBet(Num(0)) == Invalid(NotANumber)
  {
  }

  /** The check as its bounds intend it: a number is read as itself, and
      only text goes through comma stripping. */
  function ValidateAmountIntended(amount: Value, min: int, max: int): (r: Verdict)
    ensures amount.Num? ==> (r.Valid? <==> min <= amount.n <= max)
    ensures amount.Num? && r.Valid? ==> r.value == Some(amount.n)
    ensures !amount.Num? ==> r == ValidateAmount(amount, min, max)
  {
    match amount
    case Num(n) =>
      if n < min then Invalid(BelowMin)
      else if n > max then Invalid(AboveMax)
      else Valid(Some(n))
    case _ => ValidateAmount(amount, min, max)
  }

  /** The intended check accepts every in-range number, zero included, and
      agrees with the written one on every other number. */
  lemma IntendedAcceptsZero(k: int)
    requires MinChips <= k <= MaxChips
    ensures ValidateAmountIntended(Num(k), MinChips, MaxChips) == Valid(Some(k))
    ensures k != 0 ==> ValidateAmountIntended(Num(k), MinChips, MaxChips) == ValidateChips(Num(k))
  {
    if k != 0 {
      PositiveAmountAccepted(k, MinChips, MaxChips);
    }
  }

  /** `validateSeat(seat)`: `parseInt(seat, 10)` between 1 and 10. No `#` is
      stripped, so `"#3"` is rejected. */
  function ValidateSeat(seat: Value): (r: Verdict)
    ensures var parsed := ParseInt(ToStr(seat), Radix10);
            (r.Valid? <==> parsed.Some? && MinSeat <= parsed.value <= MaxSeat)
            && (r.Valid? ==> r.value == parsed)
  {
    match ParseInt(ToStr(seat), Radix10)
    case None => Invalid(NotANumber)
    case Some(num) =>
      if num < MinSeat || num > MaxSeat then Invalid(AboveMax)
      else Valid(Some(num))
  }

  /** Seats given as numbers are accepted exactly in 1..10, with the value
      the UI seat parser reads. */
  lemma NumericSeat(n: int)
    ensures ValidateSeat(Num(n)).Valid? <==> MinSeat <= n <= MaxSeat
    ensures ValidateSeat(Num(n)).Valid? ==> ValidateSeat(Num(n)).value == Some(SeatParser.ParseSeatNumber(Num(n)))
  {
    ParseIntOfIntToString(n, Radix10);
  }

  /** `"#3"` is rejected here, while the seat parser reads it as 3. */
  lemma HashSeatRejected(seat: string)
    requires seat == "#3"
    ensures ValidateSeat(Str(seat)) == Invalid(NotANumber)
    ensures SeatParser.ParseSeatNumber(Str(seat)) == 3
  {
    AfterSignUnsigned(seat);
    ParseIntNoDigit(seat);
    SingleDigitString(3);
    assert seat == "#" + IntToString(3);
    SeatParser.HashPrefixedSeat(3);
  }

  // ---------------------------------------------------------------------------
  // validateCard: /^[AKQJT2-9][shdc]$/i
  // ---------------------------------------------------------------------------

  predicate IsRank(c: char) {
    c in "AKQJT" || '2' <= c <= '9'
  }

  predicate IsSuit(c: char) {
    c in "shdc"
  }

  /** The pattern with the `i` flag: the rank is compared upper-cased, the suit
      lower-cased (ASCII letters only). */
  predicate CardPattern(s: string) {
    |s| == 2 && IsRank(UpperChar(s[0])) && IsSuit(LowerChar(s[1]))
  }

  /** `validateCard(card)`: a non-empty string matching the card pattern. */
  function ValidateCard(card: Value): (r: Verdict)
    ensures r.Valid? <==> card.Str? && CardPattern(card.s)
    ensures r.Valid? ==> r.value.None?
  {
    if !Truthy(card) || !card.Str? then Invalid(Empty)
    else if !CardPattern(card.s) then Invalid(BadFormat)
    else Valid(None)
  }

  /** Case never matters: a card is accepted exactly when its upper-case and
      its lower-case spellings are. */
  lemma CardCaseInsensitive(s: string)
    ensures ValidateCard(Str(s)).Valid? == ValidateCard(Str(ToUpper(s))).Valid?
    ensures ValidateCard(Str(s)).Valid? == ValidateCard(Str(ToLower(s))).Valid?
  {
    if |s| == 2 {
      CaseFolds(s[0]);
      CaseFolds(s[1]);
    }
  }

  /** A lower-case card renders with its suit glyph, so distinct accepted
      cards render distinctly. */
  lemma AcceptedCardsRenderDistinctly(a: string, b: string)
    requires ValidateCard(Str(a)).Valid? && ValidateCard(Str(b)).Valid?
    requires IsSuit(a[1]) && IsSuit(b[1])
    requires Formatters.FormatCardDisplay(a) == Formatters.FormatCardDisplay(b)
    ensures a == b
  {
    Formatters.CardDisplayInjective(a, b);
  }

  // ---------------------------------------------------------------------------
  // validateAppsScriptUrl: /^https:\/\/script\.google\.com\/macros\/s\/[A-Za-z0-9_-]+\/exec$/
  // ---------------------------------------------------------------------------

  const ScriptPrefix: string := "https://script.google.com/macros/s/"
  const ScriptSuffix: string := "/exec"

  predicate IsIdChar(c: char) {
    'A' <= c <= 'Z' || 'a' <= c <= 'z' || '0' <= c <= '9' || c == '_' || c == '-'
  }

  /** A deployment id: one or more letters, digits, `_` or `-`. */
  predicate IsScriptId(id: string) {
    |id| > 0 && forall i :: 0 <= i < |id| ==> IsIdChar(id[i])
  }

  /** The text is exactly prefix, id and suffix. */
  predicate ScriptUrlPattern(s: string)
    ensures ScriptUrlPattern(s) <==> exists id :: IsScriptId(id) && s == ScriptPrefix + id + ScriptSuffix
  {
    var p := |ScriptPrefix|;
    var q := |ScriptSuffix|;
    var ok := |s| > p + q && s[..p] == ScriptPrefix && s[|s| - q..] == ScriptSuffix && IsScriptId(s[p..|s| - q]);
    if ok then
      assert s == ScriptPrefix + s[p..|s| - q] + ScriptSuffix;
      true
    else
      assert forall id :: IsScriptId(id) && s == ScriptPrefix + id + ScriptSuffix ==> id == s[p..|s| - q];
      false
  }

  /** `validateAppsScriptUrl(url)`: a non-empty string matching the pattern as
      it stands; surrounding whitespace is not trimmed. */
  function ValidateAppsScriptUrl(url: Value): (r: Verdict)
    ensures r.Valid? <==> url.Str? && ScriptUrlPattern(url.s)
  {
    if !Truthy(url) || !url.Str? then Invalid(Empty)
    else if !ScriptUrlPattern(url.s) then Invalid(BadFormat)
    else Valid(None)
  }

  /** Every well-formed id gives an accepted URL, and a leading space makes
      it rejected. */
  lemma ScriptUrlRoundTrip(id: string)
    requires IsScriptId(id)
    ensures ValidateAppsScriptUrl(Str(ScriptPrefix + id + ScriptSuffix)).Valid?
    ensures !ValidateAppsScriptUrl(Str(" " + ScriptPrefix + id + ScriptSuffix)).Valid?
  {
    var s := " " + ScriptPrefix + id + ScriptSuffix;
    assert s[0] == ' ' && ScriptPrefix[0] == 'h';
  }

  // ---------------------------------------------------------------------------
  // validateRequiredFields
  // ---------------------------------------------------------------------------

  /** The required fields whose value is falsy, in the given order. */
  function Missing(data: JsonTree.Json, fields: seq<string>): (r: seq<string>)
    ensures forall f :: f in r <==> f in fields && !JsonTree.Truthy(JsonTree.Get(data, f))
    ensures |r| <= |fields|
    decreases |fields|
  {
    if |fields| == 0 then []
    else
      var n := |fields| - 1;
      var prior := Missing(data, fields[..n]);
      assert forall f :: f in fields <==> f in fields[..n] || f == fields[n];
      if !JsonTree.Truthy(JsonTree.Get(data, fields[n])) then prior + [fields[n]] else prior
  }

  /** `validateRequiredFields(data, requiredFields)`: walk the fields in order,
      collecting those whose value is falsy; valid exactly when none is.
      Reading a field of `null` or `undefined` throws a `TypeError`, which
      is the failure here; with no fields nothing is read. */
  method ValidateRequiredFields(data: JsonTree.Json, fields: seq<string>) returns (r: Result<Verdict>)
    ensures r.Failure? <==> (data.JNull? || data.JUndefined?) && |fields| > 0
    ensures r.Success? ==> (r.value.Valid? <==> forall f :: f in fields ==> JsonTree.Truthy(JsonTree.Get(data, f)))
    ensures r.Success? && r.value.Valid? ==> r.value.value.None?
    ensures r.Success? && !r.value.Valid? ==> r.value == MissingFields(Missing(data, fields))
  {
    if (data.JNull? || data.JUndefined?) && |fields| > 0 {
      return Failure("TypeError: cannot read property '" + fields[0] + "'");
    }
    var missing: seq<string> := [];
    var i := 0;
    while i < |fields|
      invariant 0 <= i <= |fields|
      invariant missing == Missing(data, fields[..i])
    {
      if !JsonTree.Truthy(JsonTree.Get(data, fields[i])) {
        missing := missing + [fields[i]];
      }
      assert fields[..i + 1][..i] == fields[..i];
      i := i + 1;
    }
    assert fields[..i] == fields;
    if |missing| > 0 {
      assert missing[0] in Missing(data, fields);
      return Success(MissingFields(missing));
    }
    assert forall f :: f in fields ==> f !in missing;
    return Success(Valid(None));
  }
}
