/** `parseHandBlock(rows, handNumber, preferDate)` (src/modules/data-loader.js):
    find the block of Hand-sheet rows of one hand, then read its HAND, PLAYER
    and EVENT rows into blinds, board, per-street actions and players, and
    pick the winner by chip gain. `window.state.indexRows` is a parameter. */
module HandBlock {
  import opened Wrappers
  import opened JsString
  import opened JsValue
  import Ordering
  import IndexSheet
  import opened CsvRows

  /** `row[k]`: a cell past the end is `undefined`. */
  function At(r: Row, k: nat): (v: Value)
    ensures v == Undefined || v.Str?
  {
    if k < |r| then Str(r[k]) else Undefined
  }

  /** `String(row[k] || '')`. */
  function Text(r: Row, k: nat): string {
    if k < |r| then r[k] else ""
  }

  /** `row[1] === kind`. */
  predicate IsKind(r: Row, kind: string) {
    1 < |r| && r[1] == kind
  }

  // ---------------------------------------------------------------------------
  // Locating the block
  // ---------------------------------------------------------------------------

  /** A HAND row carrying this hand number. */
  predicate IsStartOf(r: Row, hand: string) {
    IsKind(r, "HAND") && Text(r, 2) == hand
  }

  /** `starts`: the rows below `hi` that open this hand, in sheet order. */
  function Starts(rows: seq<Row>, hand: string, hi: nat): (s: seq<nat>)
    requires hi <= |rows|
    ensures forall j :: 0 <= j < |s| ==> s[j] < hi && IsStartOf(rows[s[j]], hand)
    ensures forall a, b :: 0 <= a < b < |s| ==> s[a] < s[b]
    decreases hi
  {
    if hi == 0 then []
    else
      var prior := Starts(rows, hand, hi - 1);
      if IsStartOf(rows[hi - 1], hand) then prior + [hi - 1] else prior
  }

  /** No HAND row of this hand below `hi` is missed. */
  lemma {:induction false} StartsComplete(rows: seq<Row>, hand: string, hi: nat, i: nat)
    requires hi <= |rows| && i < hi && IsStartOf(rows[i], hand)
    ensures i in Starts(rows, hand, hi)
    decreases hi
  {
    if i < hi - 1 {
      StartsComplete(rows, hand, hi - 1, i);
    }
  }

  /** The first HAND row at or after `from`, or the row count. */
  function NextHandRow(rows: seq<Row>, from: nat): (r: nat)
    requires from <= |rows|
    ensures from <= r <= |rows|
    ensures forall k :: from <= k < r ==> !IsKind(rows[k], "HAND")
    ensures r < |rows| ==> IsKind(rows[r], "HAND")
    decreases |rows| - from
  {
    if from == |rows| || IsKind(rows[from], "HAND") then from else NextHandRow(rows, from + 1)
  }

  /** The `handUpdatedAt` the block is chosen by: `preferDate` when given,
      else that of the first Index row after sorting this hand's rows newest
      first; `None` is `null` (an empty date counts as none). */
  function WantedDate(indexRows: seq<IndexSheet.IndexItem>, hand: string, preferDate: string): (d: Option<string>)
    ensures preferDate != "" ==> d == Some(preferDate)
    ensures d.Some? ==> d.value != ""
  {
    if preferDate != "" then Some(preferDate)
    else
      var candidates := Filter(indexRows, hand);
      var sorted := Ordering.SortNewestFirst(candidates, IndexSheet.UpdatedAtOf);
      if |sorted| == 0 || sorted[0].handUpdatedAt == "" then None else Some(sorted[0].handUpdatedAt)
  }

  /** `indexRows.filter(x => x.handNumber === String(handNumber))`. */
  function Filter(indexRows: seq<IndexSheet.IndexItem>, hand: string): (r: seq<IndexSheet.IndexItem>)
    ensures forall x :: x in r <==> x in indexRows && x.handNumber == hand
    decreases |indexRows|
  {
    if |indexRows| == 0 then []
    else
      var rest := Filter(indexRows[1..], hand);
      assert forall x :: x in indexRows <==> x == indexRows[0] || x in indexRows[1..];
      if indexRows[0].handNumber == hand then [indexRows[0]] + rest else rest
  }

  /** Without a preferred date the block follows the newest Index row of the
      hand: no row of that hand is newer. */
  lemma WantedDateIsNewest(indexRows: seq<IndexSheet.IndexItem>, hand: string, x: IndexSheet.IndexItem)
    requires WantedDate(indexRows, hand, "").Some?
    requires x in indexRows && x.handNumber == hand
    ensures !Ordering.StrLess(WantedDate(indexRows, hand, "").value, x.handUpdatedAt)
  {
    var candidates := Filter(indexRows, hand);
    var sorted := Ordering.SortNewestFirst(candidates, IndexSheet.UpdatedAtOf);
    assert x in multiset(sorted);
    var j :| 0 <= j < |sorted| && sorted[j] == x;
    if j > 0 {
      assert !Ordering.StrLess(IndexSheet.UpdatedAtOf(sorted[0]), IndexSheet.UpdatedAtOf(sorted[j]));
    } else {
      Ordering.StrLessIrreflexive(x.handUpdatedAt);
    }
  }

  /** `indexRows.find(...)`: the first Index row of the hand with that date. */
  function FindIndexRow(indexRows: seq<IndexSheet.IndexItem>, hand: string, date: Option<string>): (r: Option<nat>)
    ensures r.Some? ==> r.value < |indexRows| && indexRows[r.value].handNumber == hand
                        && Some(indexRows[r.value].handUpdatedAt) == date
    ensures r.Some? ==> forall k :: 0 <= k < r.value ==>
                          !(indexRows[k].handNumber == hand && Some(indexRows[k].handUpdatedAt) == date)
    ensures r.None? ==> forall k :: 0 <= k < |indexRows| ==>
                          !(indexRows[k].handNumber == hand && Some(indexRows[k].handUpdatedAt) == date)
    decreases |indexRows|
  {
    if |indexRows| == 0 then None
    else if indexRows[0].handNumber == hand && Some(indexRows[0].handUpdatedAt) == date then Some(0)
    else
      match FindIndexRow(indexRows[1..], hand, date)
      case None => None
      case Some(k) => Some(k + 1)
  }

  /** Row indices of the block, inclusive; `None` is `NaN`. */
  datatype Span = Span(start: Option<int>, end: Option<int>)

  function MinusOne(v: Option<int>): Option<int> {
    match v
    case None => None
    case Some(n) => Some(n - 1)
  }

  /** The block's row range, given the Index row `found` the lookup chose:
      from that row's 1-based rows when there is one, otherwise from the last
      matching HAND row up to the row before the next HAND row (or the last
      row). */
  function SpanOf(rows: seq<Row>, hand: string, indexRows: seq<IndexSheet.IndexItem>, found: Option<nat>): (span: Span)
    requires |Starts(rows, hand, |rows|)| > 0
    requires found.Some? ==> found.value < |indexRows|
    ensures found.Some? ==>
              span == Span(MinusOne(indexRows[found.value].startRow), MinusOne(indexRows[found.value].endRow))
    ensures var starts := Starts(rows, hand, |rows|);
            var last := starts[|starts| - 1];
            found.None? ==> (span.start == Some(last) && span.end.Some?
              && last <= span.end.value < |rows|
              && (forall k :: last < k <= span.end.value ==> !IsKind(rows[k], "HAND"))
              && (span.end.value + 1 < |rows| ==> IsKind(rows[span.end.value + 1], "HAND")))
  {
    match found
    case Some(k) => Span(MinusOne(indexRows[k].startRow), MinusOne(indexRows[k].endRow))
    case None =>
      var starts := Starts(rows, hand, |rows|);
      var last := starts[|starts| - 1];
      Span(Some(last), Some(NextHandRow(rows, last + 1) - 1))
  }

  /** `startRowIdx < 0 || endRowIdx < startRowIdx`; a comparison with `NaN`
      is false. */
  predicate Rejected(span: Span) {
    (span.start.Some? && span.start.value < 0)
    || (span.start.Some? && span.end.Some? && span.end.value < span.start.value)
  }

  /** The index `Array.prototype.slice` makes of an argument: `NaN` is 0, a
      negative one counts from the end, and both are clamped to the length. */
  function SliceIndex(v: Option<int>, len: nat): (i: nat)
    ensures i <= len
  {
    match v
    case None => 0
    case Some(n) => if n < 0 then (if len + n < 0 then 0 else len + n) else if n > len then len else n
  }

  function JsSlice<T>(xs: seq<T>, begin: Option<int>, end: Option<int>): (r: seq<T>)
    ensures |r| <= |xs|
  {
    var b := SliceIndex(begin, |xs|);
    var e := SliceIndex(end, |xs|);
    if b < e then xs[b..e] else []
  }

  function PlusOne(v: Option<int>): Option<int> {
    match v
    case None => None
    case Some(n) => Some(n + 1)
  }

  // ---------------------------------------------------------------------------
  // Reading the block
  // ---------------------------------------------------------------------------

  datatype Street = Preflop | Flop | Turn | River

  /** `{player, action, amount, timestamp}`; a falsy amount or time is `null`. */
  datatype Action = Action(player: Value, action: string, amount: Value, timestamp: Value)

  datatype Streets = Streets(preflop: seq<Action>, flop: seq<Action>, turn: seq<Action>, river: seq<Action>)

  /** `{name, seat, initialChips, finalChips, hand}` from a PLAYER row. */
  datatype Player = Player(name: Value, seat: Value, initialChips: Value, finalChips: Value, hand: seq<string>)

  datatype Reading = Reading(
    handInfo: Option<Row>,
    table: string,
    ante: int,
    smallBlind: string,
    bigBlind: string,
    board: seq<string>,
    streets: Streets,
    players: seq<Player>,
    street: Street,
    seenBoard: nat)

  const Start := Reading(None, "", 0, "", "", [], Streets([], [], [], []), [], Preflop, 0)

  /** The street in force after `n` BOARD events: it changes on the 3rd, 4th
      and 5th only. */
  function StreetAfter(n: nat): Street {
    if n < 3 then Preflop else if n == 3 then Flop else if n == 4 then Turn else River
  }

  /** `streets[street]`. */
  function StreetActions(streets: Streets, street: Street): seq<Action> {
    match street
    case Preflop => streets.preflop
    case Flop => streets.flop
    case Turn => streets.turn
    case River => streets.river
  }

  /** `streets[street].push(a)`: that street's list gains `a` at its end and
      the other three lists stay as they were. */
  function Append(streets: Streets, street: Street, a: Action): (r: Streets)
    ensures StreetActions(r, street) == StreetActions(streets, street) + [a]
    ensures forall st :: st != street ==> StreetActions(r, st) == StreetActions(streets, st)
    ensures ActionCount(r) == ActionCount(streets) + 1
  {
    match street
    case Preflop => streets.(preflop := streets.preflop + [a])
    case Flop => streets.(flop := streets.flop + [a])
    case Turn => streets.(turn := streets.turn + [a])
    case River => streets.(river := streets.river + [a])
  }

  function ActionCount(streets: Streets): nat {
    |streets.preflop| + |streets.flop| + |streets.turn| + |streets.river|
  }

  /** `players.find(pp => String(pp.seat) === String(seat))`. */
  function FindBySeat(players: seq<Player>, seat: Value): (r: Option<Player>)
    ensures r.Some? ==> r.value in players && ToStr(r.value.seat) == ToStr(seat)
    ensures r.None? ==> forall p :: p in players ==> ToStr(p.seat) != ToStr(seat)
    ensures r.Some? ==> exists k :: 0 <= k < |players| && players[k] == r.value && NoSeatBefore(players, k, seat)
    decreases |players|
  {
    if |players| == 0 then None
    else if ToStr(players[0].seat) == ToStr(seat) then
      assert NoSeatBefore(players, 0, seat);
      Some(players[0])
    else
      assert forall p :: p in players ==> p == players[0] || p in players[1..];
      var found := FindBySeat(players[1..], seat);
      assert found.Some? ==> exists k :: 0 <= k < |players| && players[k] == found.value && NoSeatBefore(players, k, seat) by {
        if found.Some? {
          var k :| 0 <= k < |players| - 1 && players[1..][k] == found.value && NoSeatBefore(players[1..], k, seat);
          assert NoSeatBefore(players, k + 1, seat);
        }
      }
      found
  }

  /** Nobody before player `k` sits in `seat`. */
  predicate NoSeatBefore(players: seq<Player>, k: nat, seat: Value)
    requires k <= |players|
  {
    forall j :: 0 <= j < k ==> ToStr(players[j].seat) != ToStr(seat)
  }

  /** `v || fallback`. */
  function Or(v: Value, fallback: Value): Value {
    if Truthy(v) then v else fallback
  }

  /** `parseInt(row[6] || 0, 10) || 0`. */
  function Ante(r: Row): int {
    match ParseInt(Text(r, 6), Radix10)
    case None => 0
    case Some(n) => n
  }

  /** The hole cards: the trimmed column H split on spaces, or none. */
  function Cards(r: Row): seq<string> {
    var t := Trim(Text(r, 7));
    if t == "" then [] else Split(t, ' ')
  }

  /** `{name, seat, initialChips: row[5], finalChips: row[6], hand}` of a PLAYER row. */
  function PlayerOf(r: Row): Player {
    Player(At(r, 2), At(r, 3), At(r, 5), At(r, 6), Cards(r))
  }

  /** `p ? p.name : ''` for the first player sitting in `seat`. */
  function SeatName(players: seq<Player>, seat: Value): (name: Value)
    ensures NoSeatBefore(players, |players|, seat) ==> name == Str("")
    ensures !NoSeatBefore(players, |players|, seat) ==>
              exists k :: 0 <= k < |players| && ToStr(players[k].seat) == ToStr(seat) && NoSeatBefore(players, k, seat)
                          && name == players[k].name
  {
    match FindBySeat(players, seat)
    case Some(p) => p.name
    case None => Str("")
  }

  /** The action a non-BOARD EVENT row records, given the players read so far. */
  function PlayAction(players: seq<Player>, r: Row): Action {
    Action(SeatName(players, At(r, 3)), ToUpper(Text(r, 2)), Or(At(r, 4), Null), Or(At(r, 5), Null))
  }

  /** One row of the block. */
  function ReadRow(s: Reading, r: Row): (next: Reading)
    ensures next.street == StreetAfter(next.seenBoard) || next.street == s.street
    ensures next.seenBoard == s.seenBoard + (if IsKind(r, "EVENT") && ToUpper(Text(r, 2)) == "BOARD" then 1 else 0)
    ensures |next.board| <= |s.board| + 1
    ensures |next.players| == |s.players| + (if IsKind(r, "PLAYER") then 1 else 0)
  {
    if IsKind(r, "HAND") then
      s.(handInfo := Some(r), ante := Ante(r), smallBlind := Text(r, 8), bigBlind := Text(r, 9), table := Text(r, 17))
    else if IsKind(r, "PLAYER") then
      s.(players := s.players + [PlayerOf(r)])
    else if IsKind(r, "EVENT") then
      var kind := ToUpper(Text(r, 2));
      if kind == "BOARD" then
        var board := if Truthy(At(r, 4)) then s.board + [Text(r, 4)] else s.board;
        var seen := s.seenBoard + 1;
        var street := if seen == 3 then Flop else if seen == 4 then Turn else if seen == 5 then River else s.street;
        s.(board := board, seenBoard := seen, street := street)
      else
        s.(streets := Append(s.streets, s.street, PlayAction(s.players, r)))
    else s
  }

  /** The HAND-row fields agree with the last HAND row read, or keep their
      initial values when there is none. */
  predicate HandFields(s: Reading) {
    match s.handInfo
    case None => s.ante == 0 && s.table == "" && s.smallBlind == "" && s.bigBlind == ""
    case Some(h) => s.ante == Ante(h) && s.table == Text(h, 17) && s.smallBlind == Text(h, 8) && s.bigBlind == Text(h, 9)
  }

  /** What one row `r` changes from `s` to `next`: a PLAYER row adds its
      player, a BOARD event with a truthy column E adds that card, any other
      EVENT adds its action to the list of the street in force and to no
      other list, and a HAND row replaces the hand fields. */
  predicate RowEffects(s: Reading, r: Row, next: Reading) {
    && next.players == s.players + (if IsPlayerRow(r) then [PlayerOf(r)] else [])
    && next.board == s.board + (if IsBoardEvent(r) && Truthy(At(r, 4)) then [Text(r, 4)] else [])
    && next.handInfo == (if IsKind(r, "HAND") then Some(r) else s.handInfo)
    && (HandFields(s) ==> HandFields(next))
    && forall st :: StreetActions(next.streets, st)
                    == StreetActions(s.streets, st) + (if IsPlayEvent(r) && st == s.street then [PlayAction(s.players, r)] else [])
  }

  lemma ReadRowEffects(s: Reading, r: Row)
    ensures RowEffects(s, r, ReadRow(s, r))
  {
    if IsPlayEvent(r) {
      assert !IsKind(r, "HAND") && !IsKind(r, "PLAYER");
    }
  }

  // Reference readings of the first `n` rows, each defined row by row
  // without the reader's running state.

  /** The players of the PLAYER rows, in sheet order. */
  function PlayersIn(block: seq<Row>, n: nat): seq<Player>
    requires n <= |block|
  {
    if n == 0 then [] else PlayersIn(block, n - 1) + (if IsPlayerRow(block[n - 1]) then [PlayerOf(block[n - 1])] else [])
  }

  /** Column E of every BOARD event whose column E is truthy, in sheet order. */
  function BoardCards(block: seq<Row>, n: nat): seq<string>
    requires n <= |block|
  {
    if n == 0 then []
    else BoardCards(block, n - 1) + (if IsBoardEvent(block[n - 1]) && Truthy(At(block[n - 1], 4)) then [Text(block[n - 1], 4)] else [])
  }

  /** The actions of street `st`: every non-BOARD EVENT row met while the
      BOARD events above it put the hand on `st`, named after the first
      player above it sitting in its seat. */
  function ActionsOn(block: seq<Row>, n: nat, st: Street): seq<Action>
    requires n <= |block|
  {
    if n == 0 then []
    else
      var r := block[n - 1];
      ActionsOn(block, n - 1, st)
      + (if IsPlayEvent(r) && StreetAfter(CountRows(block, n - 1, BoardEvents)) == st
         then [PlayAction(PlayersIn(block, n - 1), r)] else [])
  }

  /** Before the third BOARD event every action is a preflop action. */
  lemma {:induction false} NoPostflopActionsBeforeFlop(block: seq<Row>, n: nat)
    requires n <= |block|
    requires CountRows(block, n, BoardEvents) < 3
    ensures ActionsOn(block, n, Flop) == [] && ActionsOn(block, n, Turn) == [] && ActionsOn(block, n, River) == []
    decreases n
  {
    if n > 0 {
      NoPostflopActionsBeforeFlop(block, n - 1);
    }
  }

  /** The last HAND row, if any. */
  function LastHandRow(block: seq<Row>, n: nat): Option<Row>
    requires n <= |block|
  {
    if n == 0 then None
    else if IsKind(block[n - 1], "HAND") then Some(block[n - 1])
    else LastHandRow(block, n - 1)
  }

  /** The reading of the first `n` rows holds what the reference readings give. */
  predicate Contents(block: seq<Row>, n: nat, s: Reading)
    requires n <= |block|
  {
    && s.players == PlayersIn(block, n)
    && s.board == BoardCards(block, n)
    && (forall st :: StreetActions(s.streets, st) == ActionsOn(block, n, st))
    && s.handInfo == LastHandRow(block, n)
    && HandFields(s)
  }

  /** Reading one more row keeps the reading in step with the reference readings. */
  lemma ContentsStep(block: seq<Row>, n: nat, prev: Reading, next: Reading)
    requires 1 <= n <= |block|
    requires Contents(block, n - 1, prev)
    requires prev.street == StreetAfter(CountRows(block, n - 1, BoardEvents))
    requires RowEffects(prev, block[n - 1], next)
    ensures Contents(block, n, next)
  {
    forall st ensures StreetActions(next.streets, st) == ActionsOn(block, n, st) {
      assert StreetActions(prev.streets, st) == ActionsOn(block, n - 1, st);
    }
  }

  /** `for (const row of block)` over the first `n` rows. While reading, the
      street is always the one the BOARD count gives; the players, the board
      cards, each street's actions and the hand fields are those the
      reference readings above give. */
  function ReadRows(block: seq<Row>, n: nat): (s: Reading)
    requires n <= |block|
    ensures s.street == StreetAfter(s.seenBoard) && |s.board| <= s.seenBoard
    ensures s.seenBoard == CountRows(block, n, BoardEvents)
    ensures |s.players| == CountRows(block, n, PlayerRows)
    ensures ActionCount(s.streets) == CountRows(block, n, PlayEvents)
    ensures Contents(block, n, s)
    decreases n
  {
    if n == 0 then Start
    else
      var prev := ReadRows(block, n - 1);
      ReadRowStep(prev, block[n - 1]);
      ReadRowEffects(prev, block[n - 1]);
      ContentsStep(block, n, prev, ReadRow(prev, block[n - 1]));
      ReadRow(prev, block[n - 1])
  }

  predicate IsBoardEvent(r: Row) {
    IsKind(r, "EVENT") && ToUpper(Text(r, 2)) == "BOARD"
  }

  predicate IsPlayerRow(r: Row) {
    IsKind(r, "PLAYER")
  }

  predicate IsPlayEvent(r: Row) {
    IsKind(r, "EVENT") && ToUpper(Text(r, 2)) != "BOARD"
  }

  /** The three kinds of row the reader counts. */
  datatype RowClass = BoardEvents | PlayerRows | PlayEvents

  predicate InClass(r: Row, c: RowClass) {
    match c
    case BoardEvents => IsBoardEvent(r)
    case PlayerRows => IsPlayerRow(r)
    case PlayEvents => IsPlayEvent(r)
  }

  /** How many of the first `n` rows are of class `c`. */
  function CountRows(block: seq<Row>, n: nat, c: RowClass): (k: nat)
    requires n <= |block|
    ensures k <= n
    decreases n
  {
    if n == 0 then 0 else CountRows(block, n - 1, c) + (if InClass(block[n - 1], c) then 1 else 0)
  }

  /** One row keeps the street in step with the BOARD count, adds at most
      one board card per BOARD event, a player per PLAYER row and an action
      per other EVENT row. */
  lemma ReadRowStep(s: Reading, r: Row)
    requires s.street == StreetAfter(s.seenBoard) && |s.board| <= s.seenBoard
    ensures var next := ReadRow(s, r);
            && next.street == StreetAfter(next.seenBoard)
            && next.seenBoard == s.seenBoard + (if IsBoardEvent(r) then 1 else 0)
            && |next.board| <= next.seenBoard
            && |next.players| == |s.players| + (if IsPlayerRow(r) then 1 else 0)
            && ActionCount(next.streets) == ActionCount(s.streets) + (if IsPlayEvent(r) then 1 else 0)
  {
    if IsPlayEvent(r) {
      assert !IsKind(r, "HAND") && !IsKind(r, "PLAYER");
    }
  }

  // ---------------------------------------------------------------------------
  // The winner
  // ---------------------------------------------------------------------------

  /** `parseInt(v || 0, 10)`; `None` is `NaN`. */
  function ReadChips(v: Value): Option<int> {
    if Truthy(v) then ParseInt(ToStr(v), Radix10) else Some(0)
  }

  /** `final - initial`, `NaN` when either side is. */
  function Gain(p: Player): Option<int> {
    match (ReadChips(p.initialChips), ReadChips(p.finalChips))
    case (Some(i), Some(f)) => Some(f - i)
    case _ => None
  }

  /** A player's name with the gain the scan compares. */
  datatype Score = Score(name: Value, gain: Option<int>)

  function Scores(players: seq<Player>): (r: seq<Score>)
    ensures |r| == |players|
  {
    seq(|players|, k requires 0 <= k < |players| => Score(players[k].name, Gain(players[k])))
  }

  lemma ScoreOf(players: seq<Player>, k: nat)
    requires k < |players|
    ensures Scores(players)[k] == Score(players[k].name, Gain(players[k]))
  {
  }

  /** `winnerName` and `maxGain` after the scan. */
  datatype Lead = Lead(name: Value, gain: int)

  /** The `players.forEach` scan over the first `n` scores: a gain replaces
      the lead only when strictly larger, and a `NaN` gain never does. */
  function Leader(scores: seq<Score>, n: nat): (w: Lead)
    requires n <= |scores|
    ensures w.gain >= 0
    ensures w.gain == 0 ==> w.name == Null
    ensures forall k :: 0 <= k < n && scores[k].gain.Some? ==> scores[k].gain.value <= w.gain
    decreases n
  {
    if n == 0 then Lead(Null, 0)
    else
      var prior := Leader(scores, n - 1);
      var g := scores[n - 1].gain;
      if g.Some? && g.value > prior.gain then Lead(scores[n - 1].name, g.value) else prior
  }

  /** Score `k` is the first of the first `n` to reach the lead's gain, and it
      carries the lead's name. */
  predicate IsFirstLargest(scores: seq<Score>, k: nat, n: nat, w: Lead)
    requires n <= |scores|
  {
    && k < n
    && scores[k] == Score(w.name, Some(w.gain))
    && forall m :: 0 <= m < k && scores[m].gain.Some? ==> scores[m].gain.value < w.gain
  }

  /** A positive lead was set by a player whose gain it is, and every
      earlier player gained strictly less. */
  lemma {:induction false} LeaderIsFirstLargest(scores: seq<Score>, n: nat)
    requires n <= |scores|
    requires Leader(scores, n).gain > 0
    ensures exists k :: IsFirstLargest(scores, k, n, Leader(scores, n))
    decreases n
  {
    var prior := Leader(scores, n - 1);
    var g := scores[n - 1].gain;
    if g.Some? && g.value > prior.gain {
      assert IsFirstLargest(scores, n - 1, n, Leader(scores, n));
    } else {
      LeaderIsFirstLargest(scores, n - 1);
      var k :| IsFirstLargest(scores, k, n - 1, prior);
      assert IsFirstLargest(scores, k, n, Leader(scores, n));
    }
  }

  /** `{name, initialChips, finalChips, hand, role}`; `winner` is role `'winner'`. */
  datatype PlayerResult = PlayerResult(name: Value, initialChips: Value, finalChips: Value, hand: seq<string>, winner: bool)

  function WinnerOf(players: seq<Player>): Lead {
    Leader(Scores(players), |players|)
  }

  /** `role: (p.name === winnerName && maxGain > 0) ? 'winner' : null`: every
      player sharing the leader's name is marked. */
  function Results(players: seq<Player>): (r: seq<PlayerResult>)
    ensures |r| == |players|
    ensures forall k :: 0 <= k < |r| ==> r[k].name == players[k].name && r[k].hand == players[k].hand
    ensures forall k :: 0 <= k < |r| ==> (r[k].winner <==> WinnerOf(players).gain > 0 && players[k].name == WinnerOf(players).name)
  {
    var lead := WinnerOf(players);
    seq(|players|, k requires 0 <= k < |players| =>
      var p := players[k];
      PlayerResult(p.name, p.initialChips, p.finalChips, p.hand, lead.gain > 0 && p.name == lead.name))
  }

  predicate Marked(players: seq<Player>, k: nat)
    requires k < |players|
  {
    Results(players)[k].winner
  }

  predicate GainAbove(players: seq<Player>, k: nat, bound: int)
    requires k < |players|
  {
    Gain(players[k]).Some? && Gain(players[k]).value > bound
  }

  predicate GainAtLeast(players: seq<Player>, k: nat, bound: int)
    requires k < |players|
  {
    Gain(players[k]).Some? && Gain(players[k]).value >= bound
  }

  /** Nobody wins exactly when no player's gain is positive. */
  lemma NoWinnerIffNoGain(players: seq<Player>)
    ensures (exists k :: 0 <= k < |players| && GainAbove(players, k, 0))
            <==> (exists k :: 0 <= k < |players| && Marked(players, k))
  {
    var scores := Scores(players);
    var lead := WinnerOf(players);
    if lead.gain > 0 {
      LeaderIsFirstLargest(scores, |players|);
      var k :| IsFirstLargest(scores, k, |players|, lead);
      ScoreOf(players, k);
      assert Marked(players, k) && GainAbove(players, k, 0);
    } else {
      forall k | 0 <= k < |players| ensures !GainAbove(players, k, 0) {
        ScoreOf(players, k);
      }
    }
  }

  /** When someone wins, the first player with the largest gain is a winner
      and nobody before that player gained as much. */
  lemma WinnerIsFirstLargestGain(players: seq<Player>)
    requires WinnerOf(players).gain > 0
    ensures exists k :: 0 <= k < |players| && Marked(players, k) && GainAtLeast(players, k, WinnerOf(players).gain)
              && (forall m :: 0 <= m < k ==> !GainAtLeast(players, m, WinnerOf(players).gain))
              && (forall m :: 0 <= m < |players| ==> !GainAbove(players, m, WinnerOf(players).gain))
  {
    var scores := Scores(players);
    var lead := WinnerOf(players);
    LeaderIsFirstLargest(scores, |players|);
    var k :| IsFirstLargest(scores, k, |players|, lead);
    ScoreOf(players, k);
    assert Marked(players, k);
    assert GainAtLeast(players, k, lead.gain);
    forall m | 0 <= m < |players| ensures !GainAbove(players, m, lead.gain) && (m < k ==> !GainAtLeast(players, m, lead.gain)) {
      ScoreOf(players, m);
    }
  }

  /** Every player marked as winner has the leader's name, so a namesake of
      the leader is marked too. */
  lemma WinnersShareName(players: seq<Player>, k: nat, m: nat)
    requires k < |players| && m < |players|
    requires Marked(players, k)
    ensures Marked(players, m) <==> players[m].name == players[k].name
  {
  }

  // ---------------------------------------------------------------------------
  // parseHandBlock
  // ---------------------------------------------------------------------------

  datatype Hand = Hand(
    handInfo: Option<Row>,
    table: string,
    ante: int,
    smallBlind: string,
    bigBlind: string,
    hasBBAnte: bool,
    board: seq<string>,
    actions: Streets,
    players: seq<PlayerResult>)

  /** The hand read from a block of rows. */
  function ReadBlock(block: seq<Row>): (h: Hand)
    ensures h.hasBBAnte <==> h.ante > 0
    ensures |h.players| == CountRows(block, |block|, PlayerRows)
    ensures ActionCount(h.actions) == CountRows(block, |block|, PlayEvents)
    ensures |h.board| <= CountRows(block, |block|, BoardEvents)
    ensures h.board == BoardCards(block, |block|)
    ensures forall st :: StreetActions(h.actions, st) == ActionsOn(block, |block|, st)
    ensures h.players == Results(PlayersIn(block, |block|))
    ensures h.handInfo == LastHandRow(block, |block|)
    ensures match h.handInfo
            case None => h.ante == 0 && h.table == "" && h.smallBlind == "" && h.bigBlind == ""
            case Some(row) => h.ante == Ante(row) && h.table == Text(row, 17) && h.smallBlind == Text(row, 8) && h.bigBlind == Text(row, 9)
  {
    var s := ReadRows(block, |block|);
    Hand(s.handInfo, s.table, s.ante, s.smallBlind, s.bigBlind, s.ante > 0, s.board, s.streets, Results(s.players))
  }

  /** The Index row the block is chosen by, if any. */
  function ChosenRow(indexRows: seq<IndexSheet.IndexItem>, hand: string, preferDate: string): (found: Option<nat>)
    ensures found.Some? ==> found.value < |indexRows|
  {
    FindIndexRow(indexRows, hand, WantedDate(indexRows, hand, preferDate))
  }

  /** The rows read for the Index row `found`, or `None` for `null`: no HAND
      row of that number, or a range that starts below row 0 or ends before
      it starts. */
  function SelectWith(rows: seq<Row>, hand: string, indexRows: seq<IndexSheet.IndexItem>, found: Option<nat>): (b: Option<seq<Row>>)
    requires found.Some? ==> found.value < |indexRows|
    ensures |Starts(rows, hand, |rows|)| == 0 ==> b.None?
    ensures |Starts(rows, hand, |rows|)| > 0 ==> (b.None? <==> Rejected(SpanOf(rows, hand, indexRows, found)))
    ensures b.Some? ==> exists i :: 0 <= i < |rows| && IsStartOf(rows[i], hand)
    ensures b.Some? ==> |b.value| <= |rows|
  {
    var starts := Starts(rows, hand, |rows|);
    if |starts| == 0 then None
    else
      assert IsStartOf(rows[starts[0]], hand);
      var span := SpanOf(rows, hand, indexRows, found);
      if Rejected(span) then None
      else Some(JsSlice(rows, span.start, PlusOne(span.end)))
  }

  /** The rows `parseHandBlock` reads, or `None` when it returns `null`. */
  function SelectBlock(rows: seq<Row>, hand: string, preferDate: string, indexRows: seq<IndexSheet.IndexItem>): (b: Option<seq<Row>>)
    ensures |Starts(rows, hand, |rows|)| == 0 ==> b.None?
    ensures b.Some? ==> exists i :: 0 <= i < |rows| && IsStartOf(rows[i], hand)
    ensures b.Some? ==> |b.value| <= |rows|
  {
    SelectWith(rows, hand, indexRows, ChosenRow(indexRows, hand, preferDate))
  }

  /** `parseHandBlock(rows, handNumber, preferDate)` with `indexRows` given;
      `None` is `null`. */
  function ParseHandBlock(rows: seq<Row>, hand: string, preferDate: string, indexRows: seq<IndexSheet.IndexItem>): (r: Option<Hand>)
    ensures r.None? <==> SelectBlock(rows, hand, preferDate, indexRows).None?
    ensures r.None? <==> |Starts(rows, hand, |rows|)| == 0
                         || Rejected(SpanOf(rows, hand, indexRows, ChosenRow(indexRows, hand, preferDate)))
    ensures r.Some? ==> (r.value.hasBBAnte <==> r.value.ante > 0)
    ensures r.Some? ==> SelectBlock(rows, hand, preferDate, indexRows).Some?
                        && r.value == ReadBlock(SelectBlock(rows, hand, preferDate, indexRows).value)
  {
    match SelectBlock(rows, hand, preferDate, indexRows)
    case None => None
    case Some(block) => Some(ReadBlock(block))
  }

  /** Without a matching Index row, the block runs from the last HAND row of
      the hand to just before the next HAND row. */
  lemma FallbackBlock(rows: seq<Row>, hand: string, preferDate: string, indexRows: seq<IndexSheet.IndexItem>)
    requires |Starts(rows, hand, |rows|)| > 0
    requires ChosenRow(indexRows, hand, preferDate).None?
    ensures var starts := Starts(rows, hand, |rows|);
            var last := starts[|starts| - 1];
            var end := NextHandRow(rows, last + 1);
            SelectBlock(rows, hand, preferDate, indexRows) == Some(rows[last..end])
  {
    FallbackSelect(rows, hand, indexRows);
  }

  /** The fallback block, independent of how the Index lookup failed. */
  lemma FallbackSelect(rows: seq<Row>, hand: string, indexRows: seq<IndexSheet.IndexItem>)
    requires |Starts(rows, hand, |rows|)| > 0
    ensures var starts := Starts(rows, hand, |rows|);
            var last := starts[|starts| - 1];
            var end := NextHandRow(rows, last + 1);
            SelectWith(rows, hand, indexRows, None) == Some(rows[last..end])
  {
    var starts := Starts(rows, hand, |rows|);
    var last := starts[|starts| - 1];
    var end := NextHandRow(rows, last + 1);
    var span := SpanOf(rows, hand, indexRows, None);
    assert span == Span(Some(last), Some(end - 1));
    SliceOfInclusiveSpan(rows, last, end - 1);
    assert SelectWith(rows, hand, indexRows, None) == Some(JsSlice(rows, span.start, PlusOne(span.end)));
  }

  /** An inclusive span of in-range rows is kept, and slices out exactly
      those rows. */
  lemma SliceOfInclusiveSpan<T>(xs: seq<T>, first: nat, last: nat)
    requires first <= last < |xs|
    ensures !Rejected(Span(Some(first), Some(last)))
    ensures JsSlice(xs, Some(first), PlusOne(Some(last))) == xs[first..last + 1]
  {
  }

  /** A block chosen by the Index row starts with the row it names:
      1-based `startRow` becomes the 0-based index `startRow - 1`. */
  lemma IndexedBlock(rows: seq<Row>, hand: string, preferDate: string, indexRows: seq<IndexSheet.IndexItem>, k: nat)
    requires |Starts(rows, hand, |rows|)| > 0
    requires ChosenRow(indexRows, hand, preferDate) == Some(k)
    requires indexRows[k].startRow.Some? && indexRows[k].endRow.Some?
    requires 1 <= indexRows[k].startRow.value <= indexRows[k].endRow.value <= |rows|
    ensures var first := indexRows[k].startRow.value - 1;
            var last := indexRows[k].endRow.value - 1;
            SelectBlock(rows, hand, preferDate, indexRows) == Some(rows[first..last + 1])
  {
    IndexedSelect(rows, hand, indexRows, k);
  }

  /** The block an Index row names, independent of how it was chosen. */
  lemma IndexedSelect(rows: seq<Row>, hand: string, indexRows: seq<IndexSheet.IndexItem>, k: nat)
    requires |Starts(rows, hand, |rows|)| > 0 && k < |indexRows|
    requires indexRows[k].startRow.Some? && indexRows[k].endRow.Some?
    requires 1 <= indexRows[k].startRow.value <= indexRows[k].endRow.value <= |rows|
    ensures var first := indexRows[k].startRow.value - 1;
            var last := indexRows[k].endRow.value - 1;
            SelectWith(rows, hand, indexRows, Some(k)) == Some(rows[first..last + 1])
  {
    var first := indexRows[k].startRow.value - 1;
    var last := indexRows[k].endRow.value - 1;
    assert SpanOf(rows, hand, indexRows, Some(k)) == Span(Some(first), Some(last));
    SliceOfInclusiveSpan(rows, first, last);
  }
}
