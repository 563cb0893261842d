# Poker hand logger core, modelled in Dafny

This project models the logic core of a browser-based poker hand logger. It
proves properties of that model. The logger records live poker hands into
Google Sheets. Its core is these parts:

- **The acting-order engine** (`ActionOrderManagerV2`). From a roster of
  `{name, seat}` and a button seat it builds two fixed order tables, preflop
  and postflop. It then answers "who acts next" as players fold or go all-in
  and the streets advance.
- **Seat parsing and string formatters.** The UI seat parser, four-digit zero
  padding, comma stripping, kebab-to-camel conversion, card rendering and the
  plain branch of the chip formatter.
- **Array and object helpers.** `chunk`, `unique`, `groupBy`, `isObject`,
  `deepMerge` and `deepClone`.
- **Input validators.** They take their bounds and patterns from the
  application constants.
- **Spreadsheet readers.** Type-sheet layout detection, row validation and
  grouping; the Index-sheet reader; the Hand-sheet block parser.
- **Small infrastructure pieces.**
  - The LRU + TTL cache.
  - The module loader's dependency sort.
  - The dotted-path configuration tree: get, set, merge, validate, reset.
  - The event bus's registry bookkeeping.

Each stateful object is an immutable record updated by pure transition
functions. This covers the order manager, the cache and its registry, the
configuration and the event bus. The clock, `window.state.indexRows` and which
listeners throw are all parameters.

JavaScript's own semantics are written out where the code depends on them:

- `parseInt`, with and without radix 10; without a radix, a `0x` prefix reads
  as hexadecimal;
- `String(n)` for integers;
- `trim` over the ECMAScript whitespace set;
- truthiness;
- `<` on strings;
- `replace(/c/g, '')`, `includes`, `split` and `join`.

Files, one module each:

| file | module | models |
|---|---|---|
| wrappers.dfy | Wrappers | `Option` (undefined/NaN) and `Result` (throws) |
| js_string.dfy | JsString | the string built-ins listed above |
| js_value.dfy | JsValue | scalar values from the UI and from sheet cells, truthiness, `String(v)` |
| json.dfy | JsonTree | plain data trees, `obj[key]`, `deepClone` |
| helpers.dfy | Helpers | src/utils/helpers.js |
| ordering.dfy | Ordering | string `<` and the two sorts the sheet readers use |
| seat_parser.dfy | SeatParser | src/utils/seat-parser.js and its copy in src/modules/pure-utils.js |
| formatters.dfy | Formatters | src/utils/formatters.js and src/modules/pure-utils.js |
| validators.dfy | Validators | src/utils/validators.js with src/js/constants.js |
| seat_resolver.dfy | SeatResolver | how the order engine reads seats and validates the button |
| positions.dfy | Positions | the position-label ladder and the sequential label arrays |
| order_tables.dfy | OrderTables | the preflop, postflop and sequential order tables |
| action_order.dfy | ActionOrder | the order manager's state and its transitions |
| csv_rows.dfy | CsvRows | the parsed CSV row all three sheet readers use, and the `String(r[k] || '')` cell read |
| type_sheet.dfy | TypeSheet | the Type-sheet reader of `buildTypeFromCsv` |
| index_sheet.dfy | IndexSheet | `buildIndexFromCsv` |
| hand_block.dfy | HandBlock | `parseHandBlock` |
| cache.dfy | CacheManager | src/js/cache-manager.js |
| module_loader.dfy | ModuleLoader | the dependency part of core/module-loader.js |
| config.dfy | Config | the in-memory part of core/config.js |
| events.dfy | Events | the registry part of core/events.js |

## Model

| member | source | states |
|---|---|---|
| SeatParser.ParseSeatNumber | src/utils/seat-parser.js:14-23 | A falsy seat other than 0 gives 0. A number is returned as it is. Blank text gives 0. |
| SeatParser.ParseSeatText | src/utils/seat-parser.js:16-22 | Text that trims to nothing reads as 0. |
| SeatParser.NumberRoundTrip | src/utils/seat-parser.js:16-22 | A number's text has no outer whitespace and no `#`, and `parseInt` reads it back as the same number. |
| SeatParser.ParseSeatIdempotent | src/utils/seat-parser.js:14-23 | Parsing an already parsed seat gives the same seat. |
| SeatParser.StrSeat | src/utils/seat-parser.js:16-22 | A string seat takes the trim, strip and parse branch. |
| SeatParser.HashPrefixedSeat | src/utils/seat-parser.js:19-21 | `"#" + String(n)` reads as `n`: every `#` is dropped before parsing. |
| SeatParser.WordSeatIsZero | src/utils/seat-parser.js:20-22 | Trimmed text without `#` that starts with neither a digit nor a sign reads as 0 (NaN falls back to 0). |
| SeatParser.WordTextIsZero | src/utils/seat-parser.js:20-22 | The same fact for the text branch alone. |
| SeatParser.DigitSeat | src/utils/seat-parser.js:20-22 | The decimal text of any integer reads as that integer. |
| SeatParser.HashOneExample | src/utils/seat-parser.js:11 | The documented example: `"#1"` is seat 1. |
| SeatParser.TwoExample | src/utils/seat-parser.js:12 | The documented example: `"2"` is seat 2. |
| SeatParser.WordExample | src/utils/seat-parser.js:20-22 | `"abc"` is seat 0. |
| SeatParser.SeatWordPrefixIsZero | src/modules/pure-utils.js:9-21 | `"Seat 10"`, although listed as an accepted form, reads as 0. |
| SeatParser.GetPlayerSeatNumber | src/utils/seat-parser.js:42-44 | A player's seat number is the parsed seat: a numeric seat is kept, and a falsy one gives 0. |
| SeatParser.CompareSeatNumbers | src/utils/seat-parser.js:31-35 | The comparator is zero exactly when the parsed seats are equal, and negative exactly when the first is smaller. |
| SeatParser.CompareAntisymmetric | src/utils/seat-parser.js:31-35 | Swapping the arguments negates the comparison. |
| SeatResolver.WordIsNaN | src/js/action-order-manager-v2.js:106 | A word that starts with a lower-case letter (not a hex prefix) is NaN to plain `parseInt`. |
| SeatResolver.SeatIsParseIntOfString | src/js/action-order-manager-v2.js:106 | The engine's seat reading is `parseInt(String(v))` with no radix, for every kind of value. |
| SeatResolver.Seats | src/js/action-order-manager-v2.js:105-106 | One parsed seat per roster entry. |
| SeatResolver.ParsedSeats | src/js/action-order-manager-v2.js:105-107 | The filtered seats are exactly the seats some roster entry parses to. |
| SeatResolver.ValidateButtonPosition | src/js/action-order-manager-v2.js:99-119 | The button validates iff it is truthy, the roster is non-empty, and the button parses to the parsed seat of some player. |
| SeatResolver.HashSeatIsNotASeat | src/js/action-order-manager-v2.js:106 | Text that starts with `#` is NaN to the engine. |
| SeatResolver.HashButtonNeverValidates | src/js/action-order-manager-v2.js:109-110 | A button written `"#3"` never validates, although the UI seat parser reads that text as 3. |
| SeatResolver.HashThreeIsSeatThree | src/utils/seat-parser.js:19-21 | The UI seat parser reads `"#3"` as 3. |
| SeatResolver.SeatMap | src/js/action-order-manager-v2.js:210-215 | The seat map has a key for exactly the seats that parse. |
| SeatResolver.SeatMapLastWins | src/js/action-order-manager-v2.js:210-215 | Each seat maps to the last roster player whose seat parses to it. |
| SeatResolver.TakenByMembers | src/js/action-order-manager-v2.js:210-215 | The seats taken by a roster prefix are exactly those its entries parse to. |
| SeatResolver.TakenByBound | src/js/action-order-manager-v2.js:210-215 | `n` entries take at most `n` seats. |
| SeatResolver.TakenByStep | src/js/action-order-manager-v2.js:210-215 | One more entry adds at most one seat, and none when its seat is already taken. |
| SeatResolver.DuplicateShrinks | src/js/action-order-manager-v2.js:210-215 | Two entries on one seat make the count of taken seats smaller than the entry count. |
| SeatResolver.DuplicateSeatCollapses | src/js/action-order-manager-v2.js:210-218 | Players sharing a seat collapse into one entry, so there are fewer occupied seats than players. |
| SeatResolver.InsertSorted | src/js/action-order-manager-v2.js:217 | Insertion keeps a seat list strictly increasing and adds exactly the new seat. |
| SeatResolver.SortedDistinct | src/js/action-order-manager-v2.js:217 | The numeric sort of the map keys is strictly increasing and holds the same seats. |
| SeatResolver.IncreasingCard | src/js/action-order-manager-v2.js:217-218 | A strictly increasing list is as long as its set of members. |
| SeatResolver.Occupied | src/js/action-order-manager-v2.js:217 | The occupied seats are strictly increasing and are exactly the parseable seats. |
| SeatResolver.OccupiedCount | src/js/action-order-manager-v2.js:217-218 | `totalPlayers` equals the number of keys in the seat map. |
| SeatResolver.IndexOf | src/js/action-order-manager-v2.js:228 | `indexOf` finds the first position holding the seat. |
| SeatResolver.ValidButtonIsOccupied | src/js/action-order-manager-v2.js:99-119 | A validated button's seat is among the occupied seats. |
| Positions.IntToStringInjective | src/js/action-order-manager-v2.js:253 | Different numbers give different `MP` labels. |
| Positions.LadderCases | src/js/action-order-manager-v2.js:244-253 | The ladder for three or more seats, independent of rule order: SB, BB, BTN last, then UTG, UTG+1, MP1, MP2, CO second to last, and MP numbers otherwise. |
| Positions.LadderLabel | src/js/action-order-manager-v2.js:244-253 | The label chain of the position ladder, first matching rule wins. |
| Positions.CutoffFromEightSeats | src/js/action-order-manager-v2.js:244-253 | `CO` appears in an `n`-seat ladder exactly when `n >= 8`. |
| Positions.NoMP3 | src/js/action-order-manager-v2.js:250-253 | `MP3` is never produced. |
| Positions.LadderInjective | src/js/action-order-manager-v2.js:244-253 | With three or more seats no two seats share a label. |
| Positions.MiddleDigits | src/js/action-order-manager-v2.js:250-253 | A numbered middle label is never `MP1` or `MP2`. |
| Positions.LabelAt | src/js/action-order-manager-v2.js:165 | The array entry, or `P<index+1>` past the end of the array. |
| Positions.PreflopArray | src/js/action-order-manager-v2.js:163-175 | The per-count preflop label array for three, four, five and six or more players; none below three. |
| Positions.PostflopArray | src/js/action-order-manager-v2.js:186-198 | The per-count postflop label array for three, four, five and six or more players; none below three. |
| Positions.SequentialPreflopLabel | src/js/action-order-manager-v2.js:160-177 | Heads-up gives `SB/BTN` then `BB`. Otherwise an index past the per-count array gives `P<index+1>`. |
| Positions.SequentialPostflopLabel | src/js/action-order-manager-v2.js:182-200 | The same for the postflop arrays. |
| Positions.SequentialArraysRotate | src/js/action-order-manager-v2.js:160-200 | Each postflop array is its preflop array rotated left by one, for three or more players. |
| Positions.SixPlayerLabels | src/js/action-order-manager-v2.js:173-174 | Six players get no preflop `CO` and no postflop `BTN`. |
| OrderTables.SequentialPrefix | src/js/action-order-manager-v2.js:131-150 | After `n` players the order holds `n` entries: each has the player's name, raw seat, array label and priority = index. |
| OrderTables.CreateSequentialOrder | src/js/action-order-manager-v2.js:126-155 | Every supplied player is kept, in supplied order, with the raw seat and priority = index. Bad and duplicate seats stay. |
| OrderTables.SequentialRelabelsOnly | src/js/action-order-manager-v2.js:126-200 | The two sequential tables differ only in their labels, which come from the per-count arrays. |
| OrderTables.ButtonIndex | src/js/action-order-manager-v2.js:228-235 | The index is -1 exactly when the button does not parse to an occupied seat; otherwise it is the button's seat. |
| OrderTables.PositionSlots | src/js/action-order-manager-v2.js:238-256 | One slot per occupied seat, the `i`-th on the seat `i + 1` places clockwise after the button. |
| OrderTables.Prioritised | src/js/action-order-manager-v2.js:259-307 | One entry per slot. |
| OrderTables.CreatePostflopOrder | src/js/action-order-manager-v2.js:315-395 | The table is empty exactly when the button seat is not occupied; otherwise it has one entry per occupied seat. |
| OrderTables.CreatePreflopOrder | src/js/action-order-manager-v2.js:205-310 | The same for the preflop table. |
| OrderTables.FirstAboveAt | src/js/action-order-manager-v2.js:240 | The next seat above an occupied seat is the next one in the sorted list. |
| OrderTables.NextOccupiedAt | src/js/action-order-manager-v2.js:240 | Clockwise, `occ[k]` is followed by `occ[(k + 1) % n]`. |
| OrderTables.ModSmall | src/js/action-order-manager-v2.js:240 | Reduces every index the builders compute to a single subtraction. |
| OrderTables.ClockwiseWalk | src/js/action-order-manager-v2.js:239-241 | The walk starts at the seat after the button. Each step moves to the next occupied seat, and the walk ends on the button. |
| OrderTables.ClockwiseInjective | src/js/action-order-manager-v2.js:239-241 | No seat is reached twice. |
| OrderTables.ClockwiseReaches | src/js/action-order-manager-v2.js:239-241 | Every occupied seat is reached. |
| OrderTables.PostflopEntries | src/js/action-order-manager-v2.js:362-391 | Entry `i` is the last player on the seat `i + 1` places after the button. Its seat is stored as a number and its priority is `i`. |
| OrderTables.PostflopClockwise | src/js/action-order-manager-v2.js:315-391 | The postflop table runs clockwise from the seat after the button to the button seat. |
| OrderTables.PostflopSeatsOnce | src/js/action-order-manager-v2.js:315-391 | One entry per distinct parseable seat: none is listed twice and none is missed. |
| OrderTables.PostflopLastPlayerWins | src/js/action-order-manager-v2.js:210-215 | Each entry names the last roster player on its seat. |
| OrderTables.PostflopLabels | src/js/action-order-manager-v2.js:373-382 | With three or more seats every postflop label comes from the ladder. |
| OrderTables.HeadsUpLabels | src/js/action-order-manager-v2.js:362-391 | Heads-up, the non-button player is `SB/BTN` and the button player is `BB`. |
| OrderTables.SingleSeat | src/js/action-order-manager-v2.js:348-359 | A lone player is a single `BTN/SB/BB` entry in both tables. |
| OrderTables.PreflopIsPostflopRotated | src/js/action-order-manager-v2.js:259-307 | With three or more seats, preflop is postflop rotated left by two, with priorities renumbered. With one or two seats the tables are equal. |
| ActionOrder.WithCounter | src/js/action-order-manager-v2.js:433-434 | Writing a street's counter makes it read back as written. |
| ActionOrder.ActiveEntries | src/js/action-order-manager-v2.js:412-414 | The filter keeps only table entries whose player is `'active'`. |
| ActionOrder.ActiveEntryAt | src/js/action-order-manager-v2.js:412-424 | The `k`-th active entry sits at a table index with exactly `k` active entries before it. |
| ActionOrder.GetCurrentPlayer | src/js/action-order-manager-v2.js:401-425 | `null` exactly when no entry is active. Otherwise an active entry of the table. |
| ActionOrder.CurrentPlayerRank | src/js/action-order-manager-v2.js:412-424 | The player to act is the active entry whose rank among the active entries is the counter modulo their number. |
| ActionOrder.MoveToNextPlayer | src/js/action-order-manager-v2.js:431-442 | Adds one to that street's counter, changes nothing else, and reports the new current player. |
| ActionOrder.AdvanceToStreet | src/js/action-order-manager-v2.js:468-484 | Records the street, sets its counter to zero, changes nothing else, and reports its current player. |
| ActionOrder.MoveTimes | src/js/action-order-manager-v2.js:431-442 | `n` moves add `n` to the street's counter and change nothing else. |
| ActionOrder.CurrentPlayerDependsOn | src/js/action-order-manager-v2.js:401-425 | The current player depends only on the table, the statuses and the counter modulo the active count. |
| ActionOrder.MovesCycle | src/js/action-order-manager-v2.js:401-442 | After as many moves as there are active players, the same player is to act again. |
| ActionOrder.MoveGoesToNextActive | src/js/action-order-manager-v2.js:401-442 | One move passes the turn to the next active entry in table order, wrapping round. |
| ActionOrder.PostflopStreetsShareCursor | src/js/action-order-manager-v2.js:401-442 | Every street name other than `preflop` reads the same table and counter. |
| ActionOrder.AdvanceStartsAtFirstActive | src/js/action-order-manager-v2.js:468-484 | A new street starts at its first active entry in table order. |
| ActionOrder.UpdatePlayerStatus | src/js/action-order-manager-v2.js:449-462 | Writes one status, adding unknown names, and touches nothing else. Returns the number of `'active'` names. |
| ActionOrder.UpdateCountDelta | src/js/action-order-manager-v2.js:449-462 | The returned count moves by the player leaving or entering `'active'`. |
| ActionOrder.InactiveNeverActs | src/js/action-order-manager-v2.js:401-462 | A player set to anything but `'active'` is never the player to act. |
| ActionOrder.Annotate | src/js/action-order-manager-v2.js:500-504 | Entry by entry: the table entry, its status when known, and `canAct` exactly when active. |
| ActionOrder.GetActionOrder | src/js/action-order-manager-v2.js:490-505 | The street's table entry by entry; `canAct` holds exactly for active players, and a status is present exactly for known names. |
| ActionOrder.CanActIsActive | src/js/action-order-manager-v2.js:490-505 | Filtering on `canAct` keeps exactly the active entries. |
| ActionOrder.CanActCount | src/js/action-order-manager-v2.js:490-513 | The `canAct` filter keeps as many entries as the table has active players. |
| ActionOrder.CanActSound | src/js/action-order-manager-v2.js:490-513 | Every entry the filter keeps is in the table and belongs to an active player. |
| ActionOrder.CanActComplete | src/js/action-order-manager-v2.js:490-513 | Every active player's table entry is kept by the filter. |
| ActionOrder.AllActedIff | src/js/action-order-manager-v2.js:513-532 | Every player the filter keeps has acted exactly when every active player in the table has a recorded action. |
| ActionOrder.PlayerActionsLastWins | src/js/action-order-manager-v2.js:522-532 | A player's recorded action is defined exactly when the player's last record carries one. |
| ActionOrder.IsBettingRoundComplete | src/js/action-order-manager-v2.js:512-540 | Complete iff at most one entry is active, or every active player has acted. Amounts are not consulted. |
| ActionOrder.ActiveStatus | src/js/action-order-manager-v2.js:54-57 | Every supplied name, and only those, is `'active'`. |
| ActionOrder.InitializeHand | src/js/action-order-manager-v2.js:41-92 | Records the hand and button, marks every player active and zeroes the counters. The tables are position-based iff the button validates, and sequential otherwise. |
| ActionOrder.NewManager | src/js/action-order-manager-v2.js:9-31 | A fresh manager: no hand, button 1, empty tables, street `preflop`, zero counters, no player status. |
| ActionOrder.ValidButtonTables | src/js/action-order-manager-v2.js:68-76 | A validated button gives non-empty position tables. |
| ActionOrder.AllActiveKept | src/js/action-order-manager-v2.js:412-414 | With every entry active the filter keeps the whole table. |
| ActionOrder.InitTablesNamePlayers | src/js/action-order-manager-v2.js:68-84 | Every entry of a freshly built table names a supplied player. |
| ActionOrder.FirstEntryActs | src/js/action-order-manager-v2.js:401-425 | With all entries active and the counter at zero, the first entry acts. |
| ActionOrder.InitFirstToAct | src/js/action-order-manager-v2.js:41-92 | Right after a hand starts, each non-empty table's first entry is to act. |
| ActionOrder.EndHand | src/js/action-order-manager-v2.js:545-563 | Back to the initial state, except that the button is kept. |
| ActionOrder.EndHandForgetsHand | src/js/action-order-manager-v2.js:545-563 | Starting a hand and then ending it leaves nothing behind but its button. |
| ActionOrder.NothingAfterEndHand | src/js/action-order-manager-v2.js:545-563 | After `endHand` nobody is to act and every round counts as complete. |
| ActionOrder.TurnRiverStayZero | src/js/action-order-manager-v2.js:9-33 | Every transition keeps the `turn` and `river` counters at zero. |
| JsValue.ToStr | src/modules/pure-utils.js:89 | `String(v)` for the scalar kinds: `undefined`, `null`, `true`/`false`, decimal digits, or the string itself. |
| Formatters.UnformatNumber | src/modules/pure-utils.js:88-90 | The result has no comma. A falsy value gives `''`. Comma-free text is kept. |
| Formatters.UnformatIdempotent | src/modules/pure-utils.js:88-90 | Stripping commas twice is stripping them once. |
| Formatters.RemoveCommasJoin | src/utils/formatters.js:32-34 | Deleting the commas of comma-joined groups concatenates the groups. |
| Formatters.UnformatJoin | src/utils/formatters.js:32-34 | Unformatting a comma-grouped number joins its groups. |
| Formatters.UnformatExample | src/utils/formatters.js:30 | The documented example: `"1,000"` gives `"1000"`. |
| Formatters.KeepDigits | src/modules/pure-utils.js:98 | Keeps only the digits, and keeps an all-digit text unchanged. |
| Formatters.PadStart | src/modules/pure-utils.js:98 | `padStart`: the text at the end, fill characters in front, length at least the width. |
| Formatters.Pad4Value | src/modules/pure-utils.js:98 | The number is the digits of `String(n || '0')` read in radix 10, or 0 when there are none. |
| Formatters.Pad4 | src/modules/pure-utils.js:97-99 | All digits and at least four long; exactly four below 10000; it reads back as the padded number. |
| Formatters.ParseIntOfDigits | src/modules/pure-utils.js:98 | A non-empty digit string reads as its value. |
| Formatters.LeadingZeros | src/modules/pure-utils.js:98 | Leading zeros do not change a digit string's value. |
| Formatters.ZerosValue | src/modules/pure-utils.js:98 | A string of zeros is worth 0. |
| Formatters.Pad4Reads | src/utils/formatters.js:66-69 | The padded text of a number is all digits and reads back as the number. |
| Formatters.NatToStringShort | src/utils/formatters.js:66-69 | Numbers below 10000 print with at most four digits. |
| Formatters.NatToStringStep | src/utils/formatters.js:66-69 | Each further decimal digit adds one character. |
| Formatters.Pad4Idempotent | src/utils/formatters.js:66-69 | Padding a padded value changes nothing. |
| Formatters.Pad4RoundTrip | src/utils/formatters.js:66-69 | A value from 1 to 9999 pads to four characters that read back as the value. |
| Formatters.Pad4OfPositive | src/utils/formatters.js:66-69 | A positive number is padded from its own decimal text. |
| Formatters.PadOneDigit | src/utils/formatters.js:66-69 | One character gets three zeros in front. |
| Formatters.PadThreeDigits | src/utils/formatters.js:66-69 | Three characters get one zero in front. |
| Formatters.Pad4SingleDigit | src/utils/formatters.js:63 | The documented example `pad4(1)` is `"0001"`, for every single digit. |
| Formatters.Pad4ThreeDigits | src/utils/formatters.js:64 | The documented example `pad4(123)` is `"0123"`, for every three-digit number. |
| Formatters.ToCamelCase | src/modules/pure-utils.js:106-108 | No hyphen-plus-lower-case pair is left, text without one is unchanged, and a first character that is not lower case stays that way. |
| Formatters.NoPairShifts | src/modules/pure-utils.js:106-108 | Text without a pair has no pair after its first character either. |
| Formatters.CamelIdempotent | src/modules/pure-utils.js:106-108 | Converting twice is converting once. |
| Formatters.CamelUndoesKebab | src/utils/formatters.js:78-80 | For hyphen-free text, camel case undoes kebab case. |
| Formatters.CamelJoinsWords | src/utils/formatters.js:76-80 | Two lower-case words joined by a hyphen become one word whose second part starts upper-case, as in the documented `"hello-world"` to `"helloWorld"`. |
| Formatters.FormatCardDisplay | src/modules/pure-utils.js:59-70 | `''` exactly for `''`. The output starts with the rank. An unknown suit is echoed unchanged. |
| Formatters.CardDisplayInjective | src/modules/pure-utils.js:59-70 | Cards ending in a suit letter render differently. |
| Formatters.CardColor | src/utils/formatters.js:95 | Red exactly for hearts and diamonds. |
| Formatters.FormatCardHtml | src/utils/formatters.js:89-98 | `''` exactly for `''`. |
| Formatters.CardFormattersCompared | src/utils/formatters.js:89-98 | The two card formatters agree on a suit letter up to the emoji selector. On an unknown suit one echoes it and the other drops it. |
| Formatters.FormatChips | src/utils/formatters.js:44-56 | `'0'` for a falsy amount and `'NaN'` when nothing parses. Otherwise the parsed integer below 1000; larger amounts take the K/M branch. |
| Formatters.SmallChipsPrintPlain | src/utils/formatters.js:44-55 | A non-zero count below 1000 prints as itself. |
| Helpers.Chunk | src/utils/helpers.js:117-123 | Every chunk has `size` elements except a last of 1 to `size`. There are no chunks exactly for an empty array. |
| Helpers.ChunkFlatten | src/utils/helpers.js:117-123 | Concatenating the chunks gives back the array. |
| Helpers.ChunkCount | src/utils/helpers.js:117-123 | The number of chunks is the length divided by `size`, rounded up. |
| Helpers.ChunkExample | src/utils/helpers.js:114 | The documented example: `[1,2,3,4,5]` in twos is `[[1,2],[3,4],[5]]`. |
| Helpers.FirstAt | src/utils/helpers.js:130-132 | The first occurrence of a value. |
| Helpers.Unique | src/utils/helpers.js:130-132 | No duplicates, and the same values as the input. |
| Helpers.UniqueKeepsFirstOrder | src/utils/helpers.js:130-132 | Values come out in the order of their first occurrences. |
| Helpers.UniqueOfDistinct | src/utils/helpers.js:130-132 | An array without duplicates is returned unchanged, so `unique` is idempotent. |
| Helpers.WithKey | src/utils/helpers.js:143-149 | A group holds only input items with its key. |
| Helpers.GroupBy | src/utils/helpers.js:143-149 | A group exists exactly for each key that occurs, and it holds that key's items in input order. |
| Helpers.GroupByStep | src/utils/helpers.js:143-149 | One more item adds its key, and a key not seen before had no items. |
| Helpers.GroupByPartition | src/utils/helpers.js:143-149 | Each item is in its key's group as often as in the input, and in no other group. |
| Helpers.WithKeyOrdered | src/utils/helpers.js:143-149 | Each group follows any ranking the input follows. |
| Helpers.WithKeyCount | src/utils/helpers.js:143-149 | An item's group holds it as often as the input does. |
| Helpers.GroupByExample | src/utils/helpers.js:139-142 | The documented example: two items of type 1 form one group `'1'`. |
| Helpers.IsObject | src/utils/helpers.js:105-107 | True exactly for objects: truthy, of type object and not an array. |
| Helpers.MergeInto | src/utils/helpers.js:81-98 | Only object into object changes anything. Then the keys are the union, untouched target keys keep their values, and source keys take the merged value. |
| Helpers.MergeField | src/utils/helpers.js:88-95 | A non-object overwrites. A truthy non-object target stays as it is. An object source always leaves a truthy value. |
| Helpers.DeepMerge | src/utils/helpers.js:81-98 | No sources, or a non-object target, returns the target. |
| Helpers.DeepMergeSplit | src/utils/helpers.js:81-98 | Sources are applied left to right: merging a list is merging its parts in turn. |
| Helpers.MergeIdempotent | src/utils/helpers.js:81-98 | Merging the same source twice is merging it once. |
| Helpers.MergeIntoEmpty | src/utils/helpers.js:81-98 | Merging an object into `{}` rebuilds the object exactly. |
| JsonTree.Get | src/utils/helpers.js:88 | A defined lookup means the value is an object that has the key. |
| JsonTree.DeepClone | src/utils/helpers.js:61-73 | The copy equals the original as a value. |
| Validators.ValidatePlayerName | src/utils/validators.js:17-33 | Valid iff a string whose trimmed `length`, counted in UTF-16 code units, is 1 to 50. A falsy or non-string value is reported as empty. |
| Validators.NameLengthInCodeUnits | src/utils/validators.js:22-30 | An accepted name has 1 to 50 characters after trimming. For a name with no character above U+FFFF, that character count decides acceptance exactly. |
| Validators.NameIgnoresPadding | src/utils/validators.js:22-30 | Surrounding whitespace never decides acceptance. |
| Validators.ValidateAmount | src/utils/validators.js:40-56 | Valid iff the comma-stripped value parses to a number in `[min, max]`, which is returned. An unparseable value is reported as not a number. |
| Validators.ValidateChips | src/utils/validators.js:40-56 | Valid iff the comma-stripped value parses to a number from 0 to 10,000,000, which is returned. |
| Validators.ValidateBet | src/utils/validators.js:85-101 | The same with the bet bounds. |
| Validators.PositiveAmountAccepted | src/utils/validators.js:40-56 | A positive in-range number is accepted with its own value. |
| Validators.GroupedChipsAccepted | src/utils/validators.js:41 | `"1,000"` is accepted as 1000. |
| Validators.ThousandDigits | src/utils/validators.js:41 | `"1000"` parses to 1000. |
| Validators.NumericZeroRejected | src/utils/validators.js:40-56 | The number 0 is rejected as not a number by both amount validators. |
| Validators.ValidateAmountIntended | src/utils/validators.js:40-56 | The corrected check: a number is valid iff it is in range, and is returned. Text is handled as before. |
| Validators.IntendedAcceptsZero | src/utils/validators.js:40-56 | The corrected check accepts every in-range chip count, 0 included, and agrees with the written one on every other number. |
| Validators.ValidateSeat | src/utils/validators.js:63-78 | Valid iff `parseInt(seat, 10)` lies in 1..10, which is returned. |
| Validators.NumericSeat | src/utils/validators.js:63-78 | A numeric seat is valid exactly in 1..10, with the value the UI seat parser reads. |
| Validators.HashSeatRejected | src/utils/validators.js:64 | `"#3"` is rejected, while the seat parser reads it as 3. |
| Validators.ValidateCard | src/utils/validators.js:125-135 | Valid iff a string matching the card pattern. |
| Validators.CardPattern | src/js/constants.js:177 | Two characters: a rank (either case) and a suit letter (either case). |
| Validators.CardCaseInsensitive | src/js/constants.js:177 | A card is accepted exactly when its upper-case and its lower-case spellings are. |
| Validators.AcceptedCardsRenderDistinctly | src/js/constants.js:177 | Distinct accepted cards with a lower-case suit render distinctly. |
| Validators.ScriptUrlPattern | src/js/constants.js:180 | Exactly the fixed prefix, a non-empty id of letters, digits, `_` or `-`, and the fixed suffix. |
| Validators.ValidateAppsScriptUrl | src/utils/validators.js:142-155 | Valid iff a string matching the pattern as it stands. |
| Validators.ScriptUrlRoundTrip | src/utils/validators.js:142-155 | Every well-formed id gives an accepted URL; with a leading space the URL is rejected. |
| Validators.Missing | src/utils/validators.js:163-181 | The missing fields are exactly the listed fields whose value is falsy. |
| Validators.ValidateRequiredFields | src/utils/validators.js:163-181 | `null` or `undefined` data with at least one field throws. Otherwise valid iff every field is truthy, and if not the falsy ones are reported in field order. |
| Ordering.StrLessIrreflexive | src/modules/data-loader.js:335 | No string is less than itself. |
| Ordering.StrLess | src/modules/data-loader.js:335 | JavaScript string `<`: characters compare by their UTF-16 code units, and a proper prefix is less than the longer string. |
| Ordering.StrLessIsCodeUnitOrder | src/modules/data-loader.js:335 | `StrLess` holds exactly when the UTF-16 encoding of the first string is lexicographically less than that of the second. |
| Ordering.AstralSortsBeforeReplacementChar | src/modules/data-loader.js:335 | U+1F600 sorts before U+FFFD, although its code point is larger. |
| Ordering.StrLessTransitive | src/modules/data-loader.js:335 | String `<` is transitive. |
| Ordering.StrLessTotal | src/modules/data-loader.js:335 | Of two different strings one is less. |
| Ordering.NotLessTransitive | src/modules/data-loader.js:335 | String `>=` is transitive. |
| Ordering.InsertKey | src/modules/data-loader.js:299 | Insertion keeps keys strictly increasing and adds exactly the new key. |
| Ordering.SortKeys | src/modules/data-loader.js:299 | The sorted keys are strictly increasing and are the same keys. |
| Ordering.IncreasingUnique | src/modules/data-loader.js:299 | Only one increasing arrangement of a key set exists, so the sort result is determined. |
| Ordering.FirstIsLeast | src/modules/data-loader.js:299 | Both increasing arrangements of one key set start with the least key. |
| Ordering.InsertNewest | src/modules/data-loader.js:335 | Insertion keeps newest-first order and adds exactly one item. |
| Ordering.PrependNewest | src/modules/data-loader.js:335 | An item no older than the head can go first. |
| Ordering.HeadStaysFirst | src/modules/data-loader.js:335 | The head stays first when an older item is inserted behind it. |
| Ordering.SortNewestFirst | src/modules/data-loader.js:335 | Newest first by the key, and a permutation of the input. |
| CsvRows.Cell | src/modules/data-loader.js:216 | A missing cell reads as `''`. |
| TypeSheet.Matches | src/modules/data-loader.js:144-151 | At most one vote per keyword; none exactly when no keyword occurs. |
| TypeSheet.DetectSheetStructure | src/modules/data-loader.js:138-167 | `unknown`, `new` and `old` each hold exactly under the header votes and first-row test of the source. |
| TypeSheet.UpperCells | src/modules/data-loader.js:142 | One upper-cased cell per header cell. |
| TypeSheet.JoinUpper | src/modules/data-loader.js:142 | Joining upper-cased cells upper-cases the joined text. |
| TypeSheet.DetectIgnoresHeaderCase | src/modules/data-loader.js:142 | The header's letter case never changes the verdict. |
| TypeSheet.NewVotesWin | src/modules/data-loader.js:159-163 | Three new-layout votes against fewer than three old ones always give `new`. |
| TypeSheet.BlankIsEmptyField | src/modules/data-loader.js:216-219 | A field trims to `''` exactly when its cell is blank. |
| TypeSheet.ValidateRowData | src/modules/data-loader.js:213-230 | A missing player or table number is reported exactly when that cell is blank. There are no other errors, and the row is valid iff none is reported. |
| TypeSheet.ValidRowHasNameAndTable | src/modules/data-loader.js:213-230 | Valid exactly when the trimmed name and table number are both non-empty. |
| TypeSheet.IsValidRow | src/modules/data-loader.js:216-221 | A row is valid when neither its player cell nor its table cell is blank. |
| TypeSheet.SampleRowVerdicts | test_corrected_type_sheet.js:14-16 | On the sample rows, bad chips are kept and an empty table number or player is dropped. |
| TypeSheet.ChipsNeverReject | src/modules/data-loader.js:223-227 | Changing the chips cell never changes whether a row is valid. |
| TypeSheet.ChipsText | src/modules/data-loader.js:247 | Only a missing chips cell becomes `'0'`. |
| TypeSheet.KeptRows | src/modules/data-loader.js:232-278 | Only valid data rows are kept, in sheet order. |
| TypeSheet.KeptRowsComplete | src/modules/data-loader.js:232-278 | Every valid data row is kept. |
| TypeSheet.KeptPlayers | src/modules/data-loader.js:232-278 | One player object per kept row, in the same order. |
| TypeSheet.RowNumberOfPlayer | src/modules/data-loader.js:268 | A player object records its row index. |
| TypeSheet.KeptPlayersRanked | src/modules/data-loader.js:232-278 | Kept players come in sheet order. |
| TypeSheet.KeptPlayersAreValidRows | src/modules/data-loader.js:232-278 | Exactly the valid data rows become players. |
| TypeSheet.TableKeys | src/modules/data-loader.js:287 | The table keys are exactly the table numbers that occur. |
| TypeSheet.GroupsNonEmpty | src/modules/data-loader.js:255-271 | No table's list is empty. |
| TypeSheet.BuildTypeFromCsv | src/modules/data-loader.js:118-300 | Nothing happens for an empty sheet. Otherwise the layout verdict, the grouping of kept players by table number, and sorted table names for exactly the groups. |
| TypeSheet.GroupPlacement | src/modules/data-loader.js:255-271 | A player is under its own table exactly when grouped, and never under another. |
| TypeSheet.InvalidRowDropped | src/modules/data-loader.js:235-238 | An invalid row's player is never kept. |
| TypeSheet.RowPlacement | src/modules/data-loader.js:232-278 | A data row lands in its own table's list exactly when valid, and in no other list. |
| TypeSheet.TablesKeepSheetOrder | src/modules/data-loader.js:271 | Each table's list keeps sheet order. |
| IndexSheet.RawCell | src/modules/data-loader.js:317-326 | A raw cell is defined exactly inside the row. |
| IndexSheet.ToNumber | src/modules/data-loader.js:314 | Blank text is 0. |
| IndexSheet.NumberOfPrefixed | src/modules/data-loader.js:314-315 | After an `0o`/`0O` or `0b`/`0B` prefix, the text reads as a number exactly when it is all octal or binary digits, and then as their value. A sign before the prefix gives NaN. |
| IndexSheet.OctalText | src/modules/data-loader.js:314 | `+"0o17"` is 15. |
| IndexSheet.BinaryText | src/modules/data-loader.js:314 | `+"0b11"` is 3. |
| IndexSheet.BadOctalText | src/modules/data-loader.js:314 | `+"0o8"` is NaN. |
| IndexSheet.TwoDigitValue | src/modules/data-loader.js:314 | Two digits of a radix read as the first times the radix plus the second. |
| IndexSheet.NumberOfTrimmedText | src/modules/data-loader.js:314 | Text with no whitespace at either end is read as it stands. |
| IndexSheet.NumberOfIntToString | src/modules/data-loader.js:314-315 | An integer's text reads back as the integer. |
| IndexSheet.RowNumber | src/modules/data-loader.js:314-315 | An empty or missing cell is row 0. |
| IndexSheet.HandNumberOfItem | src/modules/data-loader.js:313 | An item's hand number is column A as text. |
| IndexSheet.ItemOf | src/modules/data-loader.js:311-329 | One index row read into its seventeen fields: text fields as `String(r[k] \|\| '')`, row numbers as `+(r[k] \|\| 0)`, raw cells as they are. |
| IndexSheet.ListedRows | src/modules/data-loader.js:310-332 | Exactly the data rows with a non-empty hand number are listed. |
| IndexSheet.Items | src/modules/data-loader.js:310-332 | One item per listed row, in sheet order. |
| IndexSheet.BuildIndexFromCsv | src/modules/data-loader.js:305-337 | Sorted newest first and a permutation of the items. The hand-number list is `unique` of the sorted items' hand numbers: distinct, exactly those of the items, in the order of their first occurrence. |
| IndexSheet.HandNumbers | src/modules/data-loader.js:336 | One hand number per item, in order. |
| IndexSheet.ListedItems | src/modules/data-loader.js:305-337 | An item is listed exactly when it comes from a data row with a hand number. |
| IndexSheet.ListedHandNumbers | src/modules/data-loader.js:331 | No listed item has an empty hand number. |
| HandBlock.At | src/modules/data-loader.js:346-347 | A cell is text or undefined. |
| HandBlock.Starts | src/modules/data-loader.js:344-353 | Exactly the HAND rows of this hand number, in sheet order. |
| HandBlock.NextHandRow | src/modules/data-loader.js:371-373 | The first HAND row at or after a row, or the row count. |
| HandBlock.WantedDate | src/modules/data-loader.js:357-362 | A preferred date wins, and no chosen date is empty. |
| HandBlock.Filter | src/modules/data-loader.js:359 | Exactly this hand's Index rows. |
| HandBlock.WantedDateIsNewest | src/modules/data-loader.js:358-362 | Without a preferred date, no Index row of the hand is newer than the chosen date. |
| HandBlock.FindIndexRow | src/modules/data-loader.js:364 | The first Index row of this hand with the wanted date, or none. |
| HandBlock.SpanOf | src/modules/data-loader.js:363-374 | From the Index row's 1-based rows when one matches; otherwise from the last HAND row to just before the next HAND row. |
| HandBlock.SliceIndex | src/modules/data-loader.js:377 | A slice index never passes the length. |
| HandBlock.JsSlice | src/modules/data-loader.js:377 | A slice is never longer than the array. |
| HandBlock.Append | src/modules/data-loader.js:413-418 | `streets[street].push(a)`: that street's list ends with the new action; the other three lists are unchanged. |
| HandBlock.FindBySeat | src/modules/data-loader.js:411 | Finds the first player whose seat text matches: nobody before that player sits in the seat. Gives none exactly when no seat matches. |
| HandBlock.SeatName | src/modules/data-loader.js:411-412 | An action's player is the name of the first player sitting in its seat, or `''` when nobody does. |
| HandBlock.ReadRow | src/modules/data-loader.js:398-407 | A BOARD event adds one to the BOARD count. The street moves only on the third, fourth and fifth BOARD events, to the street that count names. |
| HandBlock.ReadRowEffects | src/modules/data-loader.js:385-421 | One row's effects. A HAND row replaces the hand fields. A PLAYER row appends its player. A BOARD event with a truthy column E appends that card. Any other EVENT appends its action, with its seat's player name, to the current street's list and to no other list. |
| HandBlock.ContentsStep | src/modules/data-loader.js:385-421 | Reading one more row keeps players, board, each street's actions and the hand fields equal to the row-by-row reference readings. |
| HandBlock.CountRows | src/modules/data-loader.js:385 | A count never exceeds the rows counted. |
| HandBlock.ReadRows | src/modules/data-loader.js:385-421 | While reading, the street matches the BOARD count. Players, board cards and the last HAND row are those of the rows read, in order. Each street holds exactly the non-BOARD EVENTs read while the BOARD count named that street, each under the name of the first earlier player in its seat. |
| HandBlock.NoPostflopActionsBeforeFlop | src/modules/data-loader.js:403-418 | Before the third BOARD event, no action is filed under flop, turn or river. |
| HandBlock.Scores | src/modules/data-loader.js:427-431 | One score per player. |
| HandBlock.ScoreOf | src/modules/data-loader.js:427-431 | A player's score is the name and the chip gain. |
| HandBlock.Leader | src/modules/data-loader.js:424-436 | The lead is never negative and no player gained more; with zero lead there is no name. |
| HandBlock.LeaderIsFirstLargest | src/modules/data-loader.js:432-435 | A positive lead belongs to the first player to reach it. |
| HandBlock.Results | src/modules/data-loader.js:447-453 | One result per player. A player is marked winner exactly when the lead is positive and the player has the leader's name. |
| HandBlock.NoWinnerIffNoGain | src/modules/data-loader.js:423-453 | Nobody wins exactly when no gain is positive. |
| HandBlock.WinnerIsFirstLargestGain | src/modules/data-loader.js:423-453 | The first player with the largest positive gain is a winner; nobody before gained as much and nobody gained more. |
| HandBlock.WinnersShareName | src/modules/data-loader.js:452 | Winners are exactly the players sharing the leader's name. |
| HandBlock.ReadBlock | src/modules/data-loader.js:380-454 | The hand read from a block. `hasBBAnte` iff the ante is positive. Ante, blinds and table come from the last HAND row, or are `0`/`''` without one. The board holds the truthy BOARD cards in order. Each street holds the actions the BOARD count places there. One result per PLAYER row, in order. |
| HandBlock.SelectBlock | src/modules/data-loader.js:344-377 | `null` without a matching HAND row, or exactly when the range is rejected. A block is found only when the hand exists. |
| HandBlock.ParseHandBlock | src/modules/data-loader.js:342-455 | `null` exactly when no HAND row matches or the range is rejected. Otherwise the hand is the one read from the selected block. |
| HandBlock.FallbackBlock | src/modules/data-loader.js:368-374 | Without an Index match the block runs from the last HAND row to just before the next HAND row. |
| HandBlock.IndexedBlock | src/modules/data-loader.js:365-367 | An Index-chosen block starts at the 0-based row its 1-based `startRow` names. |
| CacheManager.NewCache | src/js/cache-manager.js:30-47 | A new cache is empty and consistent, with non-zero defaults. |
| CacheManager.Without | src/js/cache-manager.js:58-60 | Drops exactly the key, keeps a duplicate-free list duplicate-free, and leaves a list without the key unchanged. |
| CacheManager.DistinctSize | src/js/cache-manager.js:59 | A duplicate-free access list is as long as its set. |
| CacheManager.SizeOfValid | src/js/cache-manager.js:59 | In a consistent cache the map and the access list have the same size. |
| CacheManager.MakeRoom | src/js/cache-manager.js:57-69 | Drops the key's place and, when full and new, evicts the least recently used entry; nothing else changes. |
| CacheManager.Set | src/js/cache-manager.js:55-76 | Stores the value with expiry `now + (ttl || default)`, makes the key most recent, and counts the set and any eviction. |
| CacheManager.SetKeepsValid | src/js/cache-manager.js:55-76 | `set` keeps `accessOrder` listing exactly the stored keys, each once. |
| CacheManager.SetKeepsOthers | src/js/cache-manager.js:55-76 | Every other key that `set` keeps holds the entry it held before. |
| CacheManager.SetKeys | src/js/cache-manager.js:55-76 | The keys after a set: the old ones plus the key, minus the least recent one when it evicts. |
| CacheManager.SetKeepsCapacity | src/js/cache-manager.js:59-69 | With room for at least one entry a set never grows the cache past its capacity. |
| CacheManager.Delete | src/js/cache-manager.js:114-118 | Removes the key from both structures, keeps every other entry, and keeps the cache consistent. |
| CacheManager.Get | src/js/cache-manager.js:83-108 | A miss, an expired entry deleted, or a hit that moves the key to the back. Each case is counted and consistency is kept. |
| CacheManager.SetThenGet | src/js/cache-manager.js:55-108 | A value just set is served until its expiry, inclusive. |
| CacheManager.Clear | src/js/cache-manager.js:123-127 | Empty and consistent, with the counters kept. |
| CacheManager.Sweep | src/js/cache-manager.js:135-142 | Keeps consistency and statistics, and only removes entries. |
| CacheManager.SweepKeeps | src/js/cache-manager.js:135-142 | Keeps exactly the entries not visited or not expired. |
| CacheManager.Cleanup | src/js/cache-manager.js:132-146 | Keeps consistency and statistics, and only removes entries. |
| CacheManager.CleanupRemovesExactlyExpired | src/js/cache-manager.js:132-146 | Removes exactly the expired entries and nothing else. |
| CacheManager.GetCache | src/js/cache-manager.js:187-192 | Returns the registered cache, or registers a new empty one built from the options. |
| CacheManager.GetCacheIsStable | src/js/cache-manager.js:187-192 | The same name yields the same cache whatever options a later call passes. |
| CacheManager.ClearAll | src/js/cache-manager.js:197-202 | Every registered cache is emptied, its counters kept. |
| CacheManager.PageCaches | src/js/cache-manager.js:240-242 | The page's three caches have TTLs of 5, 2 and 10 minutes. |
| ModuleLoader.DepsOf | core/module-loader.js:316 | A name missing from the table has no dependencies. |
| ModuleLoader.Dependencies | core/module-loader.js:30-35 | The constructor's table: `ui` needs `table`, `player` and `hand`; `hand` needs `player`; `player` needs `table`; `table` needs nothing. |
| ModuleLoader.Visit | core/module-loader.js:307-323 | A successful visit only extends the order and includes the module, and it keeps every module after its dependencies. |
| ModuleLoader.FewerUnvisited | core/module-loader.js:313 | Entering a module leaves fewer names to enter, so the search ends. |
| ModuleLoader.Push | core/module-loader.js:321-322 | Appends one module and marks it visited. |
| ModuleLoader.PushKeepsSorted | core/module-loader.js:317-322 | Pushing a module whose dependencies are all in keeps the order sorted. |
| ModuleLoader.VisitAll | core/module-loader.js:317-319 | Visiting a dependency list includes all of it and keeps the order sorted. |
| ModuleLoader.GetLoadOrder | core/module-loader.js:302-330 | No module twice, every requested module present, and each module after all of its dependencies. |
| ModuleLoader.VisitWithin | core/module-loader.js:307-323 | A visit adds only names inside every dependency-closed set containing the module. |
| ModuleLoader.VisitAllWithin | core/module-loader.js:317-319 | The same for a dependency list. |
| ModuleLoader.LoadOrderIsClosure | core/module-loader.js:302-330 | The order is the least dependency-closed set holding the requested modules. |
| ModuleLoader.PathStep | core/module-loader.js:315-318 | A dependency of the last module on a chain extends the chain. |
| ModuleLoader.RevisitIsCycle | core/module-loader.js:308-311 | Reaching a module that is still being visited closes a dependency cycle reachable from the requested modules. |
| ModuleLoader.VisitFailsOnCycle | core/module-loader.js:306-324 | While `visiting` lies on the chain of modules being entered, a thrown visit names a module on a reachable cycle. |
| ModuleLoader.VisitAllFailsOnCycle | core/module-loader.js:317-319 | The same for the loop over a dependency list. |
| ModuleLoader.LoadOrderFailsOnlyOnCycle | core/module-loader.js:302-330 | `getLoadOrder` throws only when a dependency cycle is reachable from a requested module. The message names a module on that cycle. |
| ModuleLoader.AcyclicLoadOrderSucceeds | core/module-loader.js:302-330 | With no dependency cycle reachable from the requested modules, `getLoadOrder` returns an order. |
| ModuleLoader.PathDescends | core/module-loader.js:302-330 | In an order that puts every module after its dependencies, a dependency path from a listed module stays in the order and moves strictly earlier at each step. |
| ModuleLoader.LoadOrderSucceedsOnlyWithoutCycle | core/module-loader.js:302-330 | When `getLoadOrder` returns an order, no dependency cycle is reachable from the requested modules. |
| ModuleLoader.LoadOrderFailsIffCycle | core/module-loader.js:302-330 | `getLoadOrder` throws exactly when a dependency cycle is reachable from a requested module. |
| ModuleLoader.UiLoadOrder | core/module-loader.js:30-35 | Loading `ui` gives `table`, `player`, `hand`, `ui`. |
| ModuleLoader.UiDependencies | core/module-loader.js:30-35 | The dependencies of `ui` load as `table`, `player`, `hand`. |
| ModuleLoader.UiTableStep | core/module-loader.js:30-35 | Visiting `table` first loads it alone. |
| ModuleLoader.UiPlayerStep | core/module-loader.js:30-35 | `player` then follows `table`. |
| ModuleLoader.UiHandStep | core/module-loader.js:30-35 | `hand` then follows `player`. |
| ModuleLoader.CycleReported | core/module-loader.js:309-311 | Two modules that need each other fail at the first one reached again. |
| ModuleLoader.UnknownModuleIsLeaf | core/module-loader.js:316 | A name missing from the table loads on its own. |
| ModuleLoader.ModuleClassName | core/module-loader.js:210-212 | The first character upper-cased, the rest kept, `Module` appended. |
| ModuleLoader.TableClassName | core/module-loader.js:210-212 | `table` gives `TableModule`. |
| ModuleLoader.DependencyGraph | core/module-loader.js:289-297 | The graph has the table's modules with the same dependencies. |
| Config.Keys | core/config.js:233 | A split path has at least one key. |
| Config.Defaults | core/config.js:17-60 | The built-in defaults: the `app`, `api`, `ui`, `data` and `modules` sections with their literal values. |
| Config.GetNested | core/config.js:232-236 | Once a step finds nothing, the result is `undefined`. |
| Config.ConfigGet | core/config.js:104-107 | The default exactly when the path reads `undefined`, otherwise the value at the path. |
| Config.SetNested | core/config.js:241-253 | Only the first key is added at the top. Every other top-level key is kept. A passing section becomes an object. |
| Config.GetAfterSet | core/config.js:241-253 | Reading a path back after writing a defined value gives the value. |
| Config.SetThenGet | core/config.js:104-131 | `set` then `get` returns the value, whatever default the read names. |
| Config.ArrayFreeEmpty | core/config.js:241-253 | Any write into `{}` meets no array. |
| Config.ArrayFreeUndefined | core/config.js:246-248 | Any write under a missing value meets no array. |
| Config.SetLeavesOthers | core/config.js:241-253 | A write leaves every path that branches off it unchanged, at every level. |
| Config.Merge | core/config.js:261-274 | Only object into object changes anything. Then the keys are the union, untouched target keys keep their values, and source keys take the merged value. |
| Config.MergeValue | core/config.js:264-271 | A non-plain-object saved value replaces the default. A plain object merges into an object. |
| Config.OwnEntries | core/config.js:264-265 | The keys `for ... in` with `hasOwnProperty` visits: an object's own fields; nothing for `null`, `undefined`, booleans and numbers. |
| Config.TextEntries | core/config.js:264-265 | A string's own keys are its indices, each naming its one-character string, and nothing else. |
| Config.ItemEntries | core/config.js:264-265 | An array's own keys are its indices, each naming its element, and nothing else. |
| Config.IndexNamesDistinct | core/config.js:264 | Different indices have different key names. |
| Config.MergeEntries | core/config.js:262-275 | Merging a set of own properties adds their keys, lets scalar values win, and keeps untouched target keys. With no properties the target is unchanged. |
| Config.MergeConfigOfObject | core/config.js:258-278 | A saved object is merged exactly as `merge(result, saved)` merges it. |
| Config.SavedTextSpreads | core/config.js:258-278 | A saved string puts its i-th character under key `"i"` of the result. |
| Config.MergeConfig | core/config.js:258-278 | Every default key survives alongside the saved value's own keys: an object's keys, or a string's or array's indices. A saved value with no own keys leaves the defaults. |
| Config.SavedValueWins | core/config.js:258-278 | A saved leaf wins over the default at its path. |
| Config.MergeableEmpty | core/config.js:258-278 | `{}` as defaults blocks no merge path. |
| Config.MergeableUndefined | core/config.js:265-267 | A missing default blocks no merge path. |
| Config.DefaultShowsThrough | core/config.js:258-278 | Where the saved tree has nothing, the default shows through. |
| Config.TrimPadded | core/config.js:335 | A string with one space on each side and non-space ends trims to its core. |
| Config.ValidAppsScriptUrl | core/config.js:332-337 | A non-empty string whose trimmed text matches the deployment URL pattern; anything else is invalid. |
| Config.PaddedUrlAccepted | core/config.js:332-337 | A deployment URL with a space on each side is accepted after trimming. |
| Config.SplitAtDot | core/config.js:309-315 | A dotted path of two dot-free keys splits into those keys. |
| Config.FixNumber | core/config.js:317-324 | A good number is left alone. |
| Config.FixNumbers | core/config.js:309-324 | The `forEach` over the numeric paths, applying one fix per path in list order. |
| Config.CheckUrl | core/config.js:302-306 | A falsy or valid URL is left alone. |
| Config.ValidateConfig | core/config.js:300-327 | Validation keeps the configuration an object. |
| Config.FixNumbersKeepObject | core/config.js:317-324 | The number fold keeps the configuration an object. |
| Config.DivergesPair | core/config.js:309-315 | Two different two-key paths branch off each other. |
| Config.SetKeepsSections | core/config.js:241-253 | Writing a two-key path turns no section into an array. |
| Config.FixNumberSpec | core/config.js:317-324 | After one fix a good number at the path is kept and a bad one is replaced by its default. Other paths are unchanged and no section becomes an array. |
| Config.FixNumbersSpec | core/config.js:317-324 | After the fold every listed path keeps its good number or holds its default, and unrelated paths are unchanged. |
| Config.RestDiverges | core/config.js:309-315 | The first of a list of distinct two-key paths branches off all the others, both ways. |
| Config.RepairedIsGood | core/config.js:317-324 | A repaired number is a good number when the default is one. |
| Config.RepairedUrlIsClean | core/config.js:302-306 | A repaired URL is falsy or valid. |
| Config.RepairedAfterUrl | core/config.js:300-324 | Paths the URL step leaves alone are repaired as they would be without it. |
| Config.ValidatedNumbers | core/config.js:300-324 | After validation each numeric setting is its repaired value. |
| Config.ValidatedUrl | core/config.js:300-324 | After validation the URL is its repaired value; the number fold does not touch it. |
| Config.CheckUrlKeepsNumbers | core/config.js:302-306 | The URL step leaves the numeric settings unchanged. |
| Config.NumberPathsFixable | core/config.js:309-324 | The numeric paths can be folded over any object whose `api` and `data` are not arrays. |
| Config.DefaultNumbers | core/config.js:12-67 | The defaults hold good numbers at the five numeric paths. |
| Config.ValidatedConfig | core/config.js:300-327 | After validation each numeric setting keeps its value if that is a non-negative number and is back at its default otherwise. A falsy or valid URL is kept; any other URL becomes `''`. |
| Config.ValidatedWith | core/config.js:300-327 | The same, with the exact kept or default value, for any defaults that are good at the numeric paths. |
| Config.NumberPathsShape | core/config.js:309-315 | The numeric paths are five different two-key paths under `api` or `data`, away from the URL. |
| Config.CheckUrlSpec | core/config.js:302-306 | After the URL step the URL is falsy or valid and no section became an array. |
| Config.NegativeTimeoutReset | core/config.js:317-324 | A negative timeout is put back to 30000. |
| Config.Reset | core/config.js:161-175 | No section restores the defaults. An unknown section changes nothing. A known section is replaced by its default and the rest is kept. |
| Events.FreshIsValid | core/events.js:11-26 | A new bus is consistent. |
| Events.TotalRemove | core/events.js:47 | The listener total splits into one list and the rest. |
| Events.TotalUpdate | core/events.js:47 | Replacing one list changes the total by the difference in length. |
| Events.TotalDelete | core/events.js:79-81 | Deleting a list takes its length off the total. |
| Events.ListenerCountBounded | core/events.js:198-201 | No event has more listeners than the total. |
| Events.Register | core/events.js:36-47 | Appends one registration to the event and keeps the bus consistent; other events are unchanged. |
| Events.On | core/events.js:31-55 | Refuses a non-function with its message. Otherwise it appends the listener and adds one to the total, leaving other events as they were. |
| Events.Once | core/events.js:60-71 | Refuses a non-function. Otherwise it registers a wrapper that forwards to the listener, adding one to the total. |
| Events.OnAny | core/events.js:176-185 | Refuses a non-function with its message. Otherwise it adds the listener to the wildcard set and keeps the bus consistent. |
| Events.AddKeepsDistinct | core/events.js:181 | Adding a new member keeps the wildcard set free of duplicates. |
| Events.Drop | core/events.js:184 | Deleting from the wildcard set removes exactly that listener and keeps the set free of duplicates. |
| Events.OffAny | core/events.js:184 | The unsubscribe function of `onAny` removes exactly that wildcard listener, changes nothing else and keeps the bus consistent. |
| Events.DropAppended | core/events.js:181-184 | Deleting a just-added member gives back the set before. |
| Events.OnAnyThenOffAny | core/events.js:176-185 | Subscribing a new wildcard listener and unsubscribing it restores the bus. |
| Events.CountFn | core/events.js:92-97 | Zero exactly when no registration is of the function. |
| Events.Without | core/events.js:93 | Removes exactly the function's registrations and keeps the rest in order. |
| Events.WithoutAbsent | core/events.js:93-106 | Removing an absent function changes nothing. |
| Events.Off | core/events.js:76-107 | With no listener the whole list goes and its length is returned. With one, every registration of it goes. The total drops by the count and other events are unchanged. |
| Events.OffAll | core/events.js:77-86 | `off(event)` removes the whole list and returns its length. The total drops by it, other events and the counters are unchanged, and the bus stays consistent. |
| Events.OffOne | core/events.js:89-106 | `off(event, fn)` removes every registration of `fn` and returns how many went. When none did the bus is unchanged. Other events are unchanged and the total drops by the count. |
| Events.RemoveAllListeners | core/events.js:112-120 | Every list and the wildcard set are emptied, the total is zero, and the event statistics stay. |
| Events.Succeeding | core/events.js:141-157 | All of a list succeeds exactly when no registration throws. |
| Events.WildcardSucceeding | core/events.js:162-168 | All wildcard listeners succeed exactly when none throws. |
| Events.Tally | core/events.js:126-127 | One more event in total and for this event; other counts unchanged. |
| Events.Emit | core/events.js:125-171 | The result counts the non-throwing registrations and wildcard listeners. The total grows by one plus one nested `'error'` event per throwing registration, unless the event is `'error'` itself. The event's own count grows by exactly one, `'error'` by the nested events too, and no other count changes. The wildcard set is kept, other events except `'error'` are untouched, and consistency is kept. The event's list gains nothing and keeps every registration whose function none of its `once` wrappers shares. |
| Events.Run | core/events.js:139-157 | The snapshot loop counts its non-throwing registrations. It never adds a registration to the event's list, and it keeps every registration whose function no `once` wrapper of the snapshot shares. Each throwing registration of an event other than `'error'` counts one nested `'error'` event and nothing else. |
| Events.RunStepSpared | core/events.js:65-68 | A registration whose function no wrapper of the snapshot shares survives the wrapper's self-removal in the first step, and so the whole loop. |
| Events.RunStepCounted | core/events.js:141-156 | The statistics of one registration's step and of the rest of the snapshot add up. |
| Events.QuietEmit | core/events.js:125-171 | Without a throwing listener the event is counted once and every listener counts as run. |
| Events.QuietRun | core/events.js:141-157 | Without a throwing listener the loop emits nothing more. |
| Events.RunDropsOnce | core/events.js:65-68 | A `once` wrapper that ran is gone afterwards. |
| Events.CountFnSubset | core/events.js:139-141 | A list drawn from one without a function has none of it either. |
| Events.EmitDropsOnce | core/events.js:65-68 | Emitting removes every `once` registration it ran. |
| Events.ListenerCount | core/events.js:198-201 | The length of the event's list. |
| Events.HasListenersIffCount | core/events.js:190-201 | `hasListeners` holds exactly when `listenerCount` is positive. |
| Events.HasListeners | core/events.js:190-193 | The event has a list and the list is non-empty. |
| Events.OnThenOff | core/events.js:54 | The unsubscribe function returned by `on` removes one registration and restores the event's list and the total. |
| Events.WithoutAppend | core/events.js:93 | Filtering distributes over concatenation. |
| Events.CountFnAppend | core/events.js:93-98 | Counting distributes over concatenation. |
| Events.OffOriginalKeepsOnce | core/events.js:65-70 | Removing the original listener does not remove its `once` wrapper. |
| Events.Namespaced | core/events.js:299-306 | The event name is the namespace, `:`, then the event. |
| Events.NamespacedInjective | core/events.js:299-306 | Within one namespace different events stay different. |
| Events.NamespacesCanMeet | core/events.js:299-306 | Across namespaces names can coincide. |
| JsString.TrimStart | src/utils/seat-parser.js:16 | Drops exactly the leading whitespace. |
| JsString.TrimEnd | src/utils/seat-parser.js:16 | Drops exactly the trailing whitespace. |
| JsString.Trim | src/utils/seat-parser.js:16 | A slice of the input with no whitespace at either end. |
| JsString.TrimNoSpace | src/utils/seat-parser.js:16 | Text without outer whitespace trims to itself. |
| JsString.TrimIdempotent | src/utils/seat-parser.js:16 | Trimming twice is trimming once. |
| JsString.TrimEmptyIffBlank | src/utils/seat-parser.js:17 | Text trims to empty exactly when it is all whitespace. |
| JsString.DigitRun | src/utils/seat-parser.js:20 | The longest digit prefix. |
| JsString.ParseInt | src/utils/seat-parser.js:20 | Radix 10: a number exactly when a digit follows the optional sign, with the sign applied to the leading digits. |
| JsString.ParseIntNoDigit | src/utils/seat-parser.js:20-22 | NaN when no digit follows the sign. |
| JsString.NatToString | src/utils/formatters.js:68 | Decimal digits without leading zeros. |
| JsString.IntToString | src/utils/formatters.js:68 | Digits, with a minus sign for negatives. |
| JsString.DigitsValueOfNatToString | src/utils/formatters.js:68 | Reading back printed digits gives the number. |
| JsString.ParseIntOfIntToString | src/utils/seat-parser.js:16-20 | `parseInt(String(n))` is `n`, with or without radix. |
| JsString.ToUpper | src/modules/data-loader.js:399 | Upper-cases each ASCII letter in place. |
| JsString.ToLower | src/modules/data-loader.js:142 | Lower-cases each ASCII letter in place. |
| JsString.CaseFolds | src/modules/data-loader.js:142 | Case mapping forgets the case it started from. |
| JsString.LowerOfUpper | src/modules/data-loader.js:142 | Lower-casing after upper-casing is lower-casing. |
| JsString.RemoveAll | src/utils/seat-parser.js:19 | No occurrence is left, nothing is added, and text without it is unchanged. |
| JsString.RemoveAllAppend | src/utils/seat-parser.js:19 | Deletion distributes over concatenation. |
| JsString.ContainsFrom | src/modules/data-loader.js:144-146 | The scan finds the needle exactly when it occurs. |
| JsString.Includes | src/modules/data-loader.js:144-146 | `includes` agrees with the definition. |
| JsString.Utf16 | src/utils/validators.js:24 | One code unit, not a surrogate, for a character below U+10000. Otherwise a high surrogate then a low surrogate, which decode back to the character. |
| JsString.Utf16Of | src/utils/validators.js:24 | A string's code units: at least one and at most two per character. |
| JsString.Utf16Length | src/utils/validators.js:24 | `length` is the number of code units, between the number of characters and twice that. |
| JsString.Utf16LengthIsSize | src/utils/validators.js:24 | `length` equals the character count exactly when no character lies above U+FFFF. |
| JsString.CodeUnitKeyOrder | src/modules/data-loader.js:335 | Different characters have different keys, and one key is less than another exactly when its character's code units are lexicographically less. |
| JsString.UnitsLessCommonPrefix | src/modules/data-loader.js:335 | A shared prefix of code units does not change the order. |
| JsString.UnitsLessOfDifferentChars | src/modules/data-loader.js:335 | When two characters differ, their code units decide the order whatever follows them. |
| JsString.Split | core/config.js:233 | A split always yields at least one piece. |
| JsString.SplitNoSeparator | core/config.js:233 | No piece of a split holds the separator. |
| JsString.SplitJoin | core/config.js:233 | Joining the pieces with the separator gives back the text. |

## Left out

- Browser storage, DOM, network and console output are not modelled. This covers:
  - IndexedDB;
  - the camera-button and `localStorage` code inside `buildTypeFromCsv`;
  - `load`, `save`, `setMany`, `onChange` and the v3 migration in core/config.js;
  - logging throughout.
- Timers, promises and dynamic `import()` are not modelled. This covers:
  - `load`, `unload`, `reload` and `_loadModule` in core/module-loader.js;
  - the cache's auto-cleanup interval;
  - `waitFor` in core/events.js.
- `_checkCircularDependency` in core/module-loader.js is not part of this model. `getLoadOrder` reports cycles itself.
- `IndexSheet.ToNumber`: covers signed decimal integers and unsigned `0x`, `0o` and `0b` integers. `Infinity`, `-Infinity` and text with a decimal point or an exponent (`"2.0"`, `"1e2"`) read as `None`, although `Number` gives them a value.
- Numbers are integers. Floating point, NaN as a stored value, `-0` and `Number`'s decimal and exponent forms are not modelled. `parseInt` results that are NaN are `None`.
- Strings are sequences of Unicode characters. JavaScript's `length` and `<` work on UTF-16 code units, and the model derives both from the characters: `JsString.Utf16Length` and `Ordering.StrLess`. Lone surrogates cannot occur in a Dafny string and are not modelled. Case mapping covers ASCII letters only; full Unicode case mapping is not modelled.
- `Config.TextEntries`: gives one index per character. For a character above U+FFFF, `for ... in` visits two indices, each holding a lone surrogate, and a Dafny string cannot hold those. For strings with no such characters the two agree.
- `Config.GetNested`: a step reads an object's fields only. The source's `current[key]` also finds array elements, string characters and `length`; a path through an array or string reads `undefined` here. The paths of the built-in defaults all run through objects.
- Object keys form a map, so key order is not modelled. This affects the key order of `for ... in`, `Object.keys`, `Map` iteration and JSON output. Prototype keys, `Date` objects and functions as data are not modelled either.
- `Formatters.FormatChips`: amounts of 1000 or more take the `toFixed` K/M branch, which uses floating point. That branch is `None`; only the plain branch is modelled.
- `formatNumber` (Intl), `formatChips` of pure-utils (`toLocaleString`) and the `getStats`/`deletePattern` members of the cache are not modelled.
- `Helpers.Unique`: values are compared structurally. The source's `Set` compares objects and arrays by identity, so two equal but separate objects both stay; for strings, numbers and the other scalars the two agree.
- `Helpers.DeepMerge`: returns the merged value and does not model mutation. The source changes `target` in place, returns that same object, and leaves arrays and other non-plain values of the sources shared with the result; a value model cannot state identity or sharing.
- `Helpers.Chunk`: requires `size >= 1`, because the source loop never ends for a size of 0 or less.
- `Ordering.SortNewestFirst`: the source comparator never answers 0, so the engine may order equal keys any way. The model keeps them stable, and its contract states only newest-first order and permutation.
- `TypeSheet.SampleRowVerdicts`: checks the verdicts for three rows of the sample sheet (bad chips, no table number, no player), not the full grouping of the sample.
- `Config.ValidatedConfig`: requires that `api` and `data` are not arrays. An array there would take named-property writes, and an array in this model holds only its elements, so the written property has nowhere to go.
- `Config.SetNested`: a write that has to pass through an existing array is not modelled; the source would give the array a named property. A `null` on the path is falsy and is replaced by `{}`, as in the source.
- `Config.Merge`: a target value that is `null` or an array is not modelled. The source throws on a `null` target and gives an array target named properties; the model returns such a target unchanged. The built-in defaults hold neither.
- `Config.MergeConfig`: the defaults are assumed to be an object, as the built-in ones are. A saved string or array is merged index by index, as `for ... in` visits it; other saved non-objects add nothing.
- `Config.SplitAtDot`: the five numeric path literals are split by this general lemma. The model states the five paths directly as key pairs.
- `Validators.ValidateRequiredFields`: fields are read as object properties only. A string, array or number as data reads every field as `undefined`; the source would find indices and `length` on strings and arrays.
- `Config.Reset`: the missing argument is written as `""`, which is just as falsy.
- Listeners are opaque identities. The listener bodies, `this` binding and arguments are not modelled, and a body's only effect is whether it throws; the set of throwing listeners is a parameter.
- `Events.Once`: the wrapper's fresh identity is supplied by the caller and is not required to be fresh. A wrapper whose identity equals another listener's would remove that listener too when it runs, which the source's closures cannot do. `Events.Run` therefore promises to keep only registrations whose function no wrapper of the snapshot shares.
- `Events.HasListeners`: the source returns `undefined` for an unknown event. The model reads that as `false`.
- `eventNames`, `getStats`, `setDebugMode`, `waitFor`, `emitSequence`, `emitIf` and `addEventFilter` in core/events.js are not modelled. Nor is the unused `onceListeners` map.
- `debug()` and the `window.actionManager` compatibility object of the order engine are not modelled.

## Findings

| source | as written | input that shows it | evidently intended | confidence | as-written member | corrected member |
|---|---|---|---|---|---|---|
| src/utils/validators.js:40-56 | `parseInt(unformatNumber(chips), 10)`, where `unformatNumber(0)` is `String(0 \|\| '')`, i.e. `''`, so `parseInt` gives NaN | `validateChips(0)` (likewise `validateBet(0)`) is rejected as not a number | 0 is accepted, since `MIN_CHIPS` and `MIN_BET` are 0 | not executed | Validators.NumericZeroRejected | Validators.IntendedAcceptsZero |
