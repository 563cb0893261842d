/** The Type sheet reader inside `buildTypeFromCsv` (src/modules/data-loader.js):
    header-based layout detection, per-row validation and the grouping of
    player rows by table number. Columns: A Poker Room, B Table Name,
    C Table No., D Seat No., E Players, F Nationality, G Chips, H Keyplayer.
    The camera-button and logging parts are not modelled. */
module TypeSheet {
  import opened Wrappers
  import opened JsString
  import Ordering
  import Helpers
  import opened CsvRows

  const PokerRoomColumn: nat := 0
  const TableNameColumn: nat := 1
  const TableNoColumn: nat := 2
  const SeatColumn: nat := 3
  const PlayersColumn: nat := 4
  const NationalityColumn: nat := 5
  const ChipsColumn: nat := 6
  const KeyplayerColumn: nat := 7

  /** `String(r[k] || '').trim()`. */
  function Field(r: Row, k: nat): string {
    Trim(Cell(r, k))
  }

  // ---------------------------------------------------------------------------
  // detectSheetStructure
  // ---------------------------------------------------------------------------

  datatype Structure = NewLayout | OldLayout | UnknownLayout

  const NewKeywords: seq<string> := ["poker room", "table name", "players", "nationality", "keyplayer"]
  const OldKeywords: seq<string> := ["player", "table", "notable", "status"]

  /** `keywords.filter(k => hay.includes(k)).length`. */
  function Matches(hay: string, keywords: seq<string>): (n: nat)
    ensures n <= |keywords|
    ensures n == 0 <==> forall i :: 0 <= i < |keywords| ==> !Includes(hay, keywords[i])
    decreases |keywords|
  {
    if |keywords| == 0 then 0
    else
      var rest := Matches(hay, keywords[1..]);
      assert forall i :: 1 <= i < |keywords| ==> keywords[i] == keywords[1..][i - 1];
      (if Includes(hay, keywords[0]) then 1 else 0) + rest
  }

  /** `headerRow.join('|').toLowerCase()`. */
  function HeaderText(header: Row): string {
    ToLower(Join(header, "|"))
  }

  /** Column E of the sample row holds something other than whitespace,
      which is `String(sampleRow[4]).trim().length > 0` (see `BlankIsEmptyField`). */
  predicate HasPlayerInE(sample: Row) {
    !IsBlank(Cell(sample, PlayersColumn))
  }

  /** `detectSheetStructure(headerRow, dataRows)`: keyword votes on the header,
      tie-broken by whether the first data row fills column E. */
  function DetectSheetStructure(header: Row, dataRows: seq<Row>): (r: Structure)
    ensures var newVotes := Matches(HeaderText(header), NewKeywords);
            var oldVotes := Matches(HeaderText(header), OldKeywords);
            && (r == UnknownLayout <==> |header| == 0 || (newVotes < 3 && oldVotes < 2))
            && (r == NewLayout <==>
                  (|header| > 0 && newVotes >= 3 && (|dataRows| == 0 || HasPlayerInE(dataRows[0]) || oldVotes < 3)))
  {
    if |header| == 0 then UnknownLayout
    else
      var text := HeaderText(header);
      var newVotes := Matches(text, NewKeywords);
      var oldVotes := Matches(text, OldKeywords);
      if |dataRows| > 0 && newVotes >= 3 && HasPlayerInE(dataRows[0]) then NewLayout
      else if |dataRows| > 0 && oldVotes >= 3 && !HasPlayerInE(dataRows[0]) then OldLayout
      else if newVotes >= 3 then NewLayout
      else if oldVotes >= 2 then OldLayout
      else UnknownLayout
  }

  function UpperCells(header: Row): (r: Row)
    ensures |r| == |header|
  {
    seq(|header|, i requires 0 <= i < |header| => ToUpper(header[i]))
  }

  /** Joining upper-cased cells is upper-casing the joined text. */
  lemma {:induction false} JoinUpper(header: Row)
    ensures Join(UpperCells(header), "|") == ToUpper(Join(header, "|"))
    decreases |header|
  {
    if |header| == 1 {
      assert UpperCells(header)[0] == ToUpper(header[0]);
    } else if |header| > 1 {
      JoinUpper(header[1..]);
      assert UpperCells(header)[1..] == UpperCells(header[1..]);
      UpperAppend(header[0], "|" + Join(header[1..], "|"));
      UpperAppend("|", Join(header[1..], "|"));
      assert ToUpper("|") == "|";
    }
  }

  /** The header's letter case never changes the verdict. */
  lemma DetectIgnoresHeaderCase(header: Row, dataRows: seq<Row>)
    ensures DetectSheetStructure(UpperCells(header), dataRows) == DetectSheetStructure(header, dataRows)
  {
    JoinUpper(header);
    LowerOfUpper(Join(header, "|"));
  }

  /** A header vote of three new-layout keywords wins whenever the old-layout
      keywords number fewer than three, whatever the data rows hold. */
  lemma NewVotesWin(header: Row, dataRows: seq<Row>)
    requires Matches(HeaderText(header), NewKeywords) >= 3
    requires Matches(HeaderText(header), OldKeywords) < 3
    ensures DetectSheetStructure(header, dataRows) == NewLayout
  {
  }

  // ---------------------------------------------------------------------------
  // validateRowData
  // ---------------------------------------------------------------------------

  datatype RowProblem = MissingPlayer | MissingTableNo

  /** A field trims to `''` exactly when its cell is blank. */
  lemma BlankIsEmptyField(r: Row, k: nat)
    ensures Field(r, k) == "" <==> IsBlank(Cell(r, k))
  {
    TrimEmptyIffBlank(Cell(r, k));
  }

  /** `validateRowData(r)`: the row needs a player name and a table number;
      an unreadable chip count is only reported, never rejected. The test
      `!String(x).trim()` is written as "the cell is blank". */
  function ValidateRowData(r: Row): (errors: seq<RowProblem>)
    ensures MissingPlayer in errors <==> IsBlank(Cell(r, PlayersColumn))
    ensures MissingTableNo in errors <==> IsBlank(Cell(r, TableNoColumn))
    ensures errors == [] <==> IsValidRow(r)
    ensures |errors| <= 2
  {
    (if IsBlank(Cell(r, PlayersColumn)) then [MissingPlayer] else [])
    + (if IsBlank(Cell(r, TableNoColumn)) then [MissingTableNo] else [])
  }

  /** `validation.isValid`. */
  predicate IsValidRow(r: Row) {
    !IsBlank(Cell(r, PlayersColumn)) && !IsBlank(Cell(r, TableNoColumn))
  }

  /** A row is valid exactly when its trimmed name and table number are both
      non-empty, so every kept player has both. */
  lemma ValidRowHasNameAndTable(r: Row)
    ensures IsValidRow(r) <==> Field(r, PlayersColumn) != "" && Field(r, TableNoColumn) != ""
  {
    BlankIsEmptyField(r, PlayersColumn);
    BlankIsEmptyField(r, TableNoColumn);
  }

  /** Rows of the sample sheet in test_corrected_type_sheet.js: an unreadable
      chip count is kept, an empty Table No. or an empty player is dropped. */
  lemma SampleRowVerdicts(badChips: Row, noTable: Row, noPlayer: Row)
    requires badChips == ["Merit Hall", "", "005", "5", "Player5", "UK", "abc", "FALSE"]
    requires noTable == ["VIP Room", "Table Z", "", "6", "Player6", "DE", "50000", "TRUE"]
    requires noPlayer == ["Merit Hall", "Table B", "006", "7", "", "FR", "25000", "FALSE"]
    ensures ValidateRowData(badChips) == []
    ensures ValidateRowData(noTable) == [MissingTableNo]
    ensures ValidateRowData(noPlayer) == [MissingPlayer]
  {
    assert !IsSpace(Cell(badChips, PlayersColumn)[0]) && !IsSpace(Cell(badChips, TableNoColumn)[0]);
    assert !IsSpace(Cell(noTable, PlayersColumn)[0]);
    assert !IsSpace(Cell(noPlayer, TableNoColumn)[0]);
  }

  /** Chips are never a reason to reject a row. */
  lemma ChipsNeverReject(r: Row, chips: string)
    requires |r| > ChipsColumn
    ensures IsValidRow(r[ChipsColumn := chips]) == IsValidRow(r)
  {
    assert Cell(r[ChipsColumn := chips], PlayersColumn) == Cell(r, PlayersColumn);
    assert Cell(r[ChipsColumn := chips], TableNoColumn) == Cell(r, TableNoColumn);
  }

  // ---------------------------------------------------------------------------
  // Row grouping
  // ---------------------------------------------------------------------------

  /** The player object built from a valid row; `updatedAt` (the clock) is
      left out. */
  datatype PlayerRow = PlayerRow(
    name: string,
    chips: string,
    notable: bool,
    seat: string,
    status: string,
    nationality: string,
    tableNo: string,
    pokerRoom: string,
    originalIndex: nat)

  /** `String(r[6] != null ? r[6] : '0').trim()`: an empty cell stays empty,
      only a missing one becomes `'0'`. */
  function ChipsText(r: Row): (c: string)
    ensures |r| <= ChipsColumn ==> c == "0"
  {
    if ChipsColumn < |r| then Trim(r[ChipsColumn]) else "0"
  }

  /** Column H upper-cased equals `'TRUE'`; the cell is not trimmed. */
  predicate IsKeyplayer(r: Row) {
    ToUpper(Cell(r, KeyplayerColumn)) == "TRUE"
  }

  /** The player object for data row `i`. */
  function PlayerOf(r: Row, i: nat): PlayerRow {
    PlayerRow(
      Field(r, PlayersColumn),
      ChipsText(r),
      IsKeyplayer(r),
      Field(r, SeatColumn),
      "IN",
      Field(r, NationalityColumn),
      Field(r, TableNoColumn),
      Field(r, PokerRoomColumn),
      i)
  }

  function RowNumberOf(p: PlayerRow): int {
    p.originalIndex
  }

  /** The numbers of the data rows `1..hi-1` that pass validation, in sheet
      order. A valid row always has a name and a table number, so the
      source's second check (`if (player && table)`) never drops a row. */
  function KeptRows(rows: seq<Row>, hi: nat): (r: seq<nat>)
    requires hi <= |rows|
    ensures forall j :: 0 <= j < |r| ==> 1 <= r[j] < hi && IsValidRow(rows[r[j]])
    ensures forall a, b :: 0 <= a < b < |r| ==> r[a] < r[b]
    decreases hi
  {
    if hi <= 1 then []
    else
      var prior := KeptRows(rows, hi - 1);
      if IsValidRow(rows[hi - 1]) then prior + [hi - 1] else prior
  }

  /** Every valid data row below `hi` is kept. */
  lemma {:induction false} KeptRowsComplete(rows: seq<Row>, hi: nat, i: int)
    requires hi <= |rows| && 1 <= i < hi && IsValidRow(rows[i])
    ensures i in KeptRows(rows, hi)
    decreases hi
  {
    if i < hi - 1 {
      KeptRowsComplete(rows, hi - 1, i);
    }
  }

  /** The player objects of the kept rows, in sheet order. */
  function KeptPlayers(rows: seq<Row>): (r: seq<PlayerRow>)
    ensures var kept := KeptRows(rows, |rows|);
            |r| == |kept| && forall j :: 0 <= j < |r| ==> r[j] == PlayerOf(rows[kept[j]], kept[j])
  {
    var kept := KeptRows(rows, |rows|);
    seq(|kept|, j requires 0 <= j < |kept| => PlayerOf(rows[kept[j]], kept[j]))
  }

  lemma RowNumberOfPlayer(r: Row, i: nat)
    ensures RowNumberOf(PlayerOf(r, i)) == i
  {
  }

  /** The kept players come in sheet order. */
  lemma KeptPlayersRanked(rows: seq<Row>)
    ensures Helpers.Ranked(KeptPlayers(rows), RowNumberOf)
  {
    var kept := KeptRows(rows, |rows|);
    var r := KeptPlayers(rows);
    forall a, b | 0 <= a < b < |r| ensures RowNumberOf(r[a]) < RowNumberOf(r[b]) {
      RowNumberOfPlayer(rows[kept[a]], kept[a]);
      RowNumberOfPlayer(rows[kept[b]], kept[b]);
    }
  }

  /** Exactly the valid data rows become players. */
  lemma KeptPlayersAreValidRows(rows: seq<Row>, p: PlayerRow)
    ensures p in KeptPlayers(rows) <==> exists i :: 1 <= i < |rows| && IsValidRow(rows[i]) && p == PlayerOf(rows[i], i)
  {
    if p in KeptPlayers(rows) {
      KeptPlayerIsValidRow(rows, p);
    }
    if exists i :: 1 <= i < |rows| && IsValidRow(rows[i]) && p == PlayerOf(rows[i], i) {
      var i :| 1 <= i < |rows| && IsValidRow(rows[i]) && p == PlayerOf(rows[i], i);
      ValidRowIsKept(rows, i);
    }
  }

  lemma KeptPlayerIsValidRow(rows: seq<Row>, p: PlayerRow)
    requires p in KeptPlayers(rows)
    ensures exists i :: 1 <= i < |rows| && IsValidRow(rows[i]) && p == PlayerOf(rows[i], i)
  {
    var kept := KeptRows(rows, |rows|);
    var r := KeptPlayers(rows);
    var j :| 0 <= j < |r| && r[j] == p;
    var i := kept[j];
    assert 1 <= i < |rows| && IsValidRow(rows[i]) && p == PlayerOf(rows[i], i);
  }

  lemma ValidRowIsKept(rows: seq<Row>, i: nat)
    requires 1 <= i < |rows| && IsValidRow(rows[i])
    ensures PlayerOf(rows[i], i) in KeptPlayers(rows)
  {
    var kept := KeptRows(rows, |rows|);
    KeptRowsComplete(rows, |rows|, i);
    var j :| 0 <= j < |kept| && kept[j] == i;
    assert KeptPlayers(rows)[j] == PlayerOf(rows[i], i);
  }

  function TableNoOf(p: PlayerRow): string {
    p.tableNo
  }

  /** What the reader computes: the detected layout (which the source only
      logs), and the `playerDataByTable` and `allTables` it stores in
      `window.state`. */
  datatype TypeData = TypeData(structure: Structure, byTable: map<string, seq<PlayerRow>>, allTables: seq<string>)

  /** The distinct table numbers of the players, in order of first
      appearance; the same keys as `GroupBy`'s. */
  function TableKeys(players: seq<PlayerRow>): (keys: seq<string>)
    ensures forall t :: t in keys <==> Helpers.KeyOccurs(players, TableNoOf, t)
  {
    var column := seq(|players|, i requires 0 <= i < |players| => TableNoOf(players[i]));
    var keys := Helpers.Unique(column);
    assert forall t :: t in keys ==> Helpers.KeyOccurs(players, TableNoOf, t) by {
      forall t | t in keys ensures Helpers.KeyOccurs(players, TableNoOf, t) {
        var i :| 0 <= i < |column| && column[i] == t;
      }
    }
    assert forall t :: Helpers.KeyOccurs(players, TableNoOf, t) ==> t in keys by {
      forall t | Helpers.KeyOccurs(players, TableNoOf, t) ensures t in keys {
        var i :| 0 <= i < |players| && TableNoOf(players[i]) == t;
        assert column[i] == t;
      }
    }
    keys
  }

  /** No table's list is empty. */
  lemma GroupsNonEmpty(players: seq<PlayerRow>)
    ensures forall t :: t in Helpers.GroupBy(players, TableNoOf) ==> Helpers.GroupBy(players, TableNoOf)[t] != []
  {
    forall t | t in Helpers.GroupBy(players, TableNoOf) ensures Helpers.GroupBy(players, TableNoOf)[t] != [] {
      var i :| 0 <= i < |players| && TableNoOf(players[i]) == t;
      Helpers.WithKeyCount(players, TableNoOf, players[i]);
      assert players[i] in multiset(players);
    }
  }

  /** `buildTypeFromCsv(rows)`; `None` when there is no row at all (the
      source returns without touching the state). */
  function BuildTypeFromCsv(rows: seq<Row>): (r: Option<TypeData>)
    ensures r.None? <==> |rows| == 0
    ensures r.Some? ==> r.value.structure == DetectSheetStructure(rows[0], rows[1..if |rows| < 3 then |rows| else 3])
    ensures r.Some? ==> r.value.byTable == Helpers.GroupBy(KeptPlayers(rows), TableNoOf)
    ensures r.Some? ==> forall t :: t in r.value.allTables <==> t in r.value.byTable
    ensures r.Some? ==> Ordering.StrictlyIncreasing(r.value.allTables)
    ensures r.Some? ==> forall t :: t in r.value.byTable ==> r.value.byTable[t] != []
  {
    if |rows| == 0 then None
    else
      var players := KeptPlayers(rows);
      var byTable := Helpers.GroupBy(players, TableNoOf);
      GroupsNonEmpty(players);
      Some(TypeData(
        DetectSheetStructure(rows[0], rows[1..if |rows| < 3 then |rows| else 3]),
        byTable,
        Ordering.SortKeys(TableKeys(players))))
  }

  /** A player is listed under its own table exactly when it is among the
      grouped players, and never under another table. */
  lemma GroupPlacement(players: seq<PlayerRow>, p: PlayerRow)
    ensures var groups := Helpers.GroupBy(players, TableNoOf);
            && (p in players ==> p.tableNo in groups && p in groups[p.tableNo])
            && (forall t :: t in groups && (t != p.tableNo || p !in players) ==> p !in groups[t])
  {
    if p in players {
      Helpers.GroupByPartition(players, TableNoOf, p);
      assert TableNoOf(p) == p.tableNo;
    }
  }

  /** The player object of an invalid row is never kept. */
  lemma InvalidRowDropped(rows: seq<Row>, i: nat)
    requires 1 <= i < |rows| && !IsValidRow(rows[i])
    ensures PlayerOf(rows[i], i) !in KeptPlayers(rows)
  {
    var p := PlayerOf(rows[i], i);
    KeptPlayersAreValidRows(rows, p);
    forall j | 1 <= j < |rows| && PlayerOf(rows[j], j) == p ensures j == i {
      RowNumberOfPlayer(rows[j], j);
      RowNumberOfPlayer(rows[i], i);
    }
  }

  /** A data row lands in its own table's list exactly when it passes
      validation, and in no other list. */
  lemma RowPlacement(rows: seq<Row>, i: nat)
    requires 1 <= i < |rows|
    ensures var byTable := BuildTypeFromCsv(rows).value.byTable;
            var p := PlayerOf(rows[i], i);
            && (IsValidRow(rows[i]) ==> p.tableNo in byTable && p in byTable[p.tableNo])
            && (forall t :: t in byTable && t != p.tableNo ==> p !in byTable[t])
            && (!IsValidRow(rows[i]) ==> forall t :: t in byTable ==> p !in byTable[t])
  {
    var p := PlayerOf(rows[i], i);
    GroupPlacement(KeptPlayers(rows), p);
    if IsValidRow(rows[i]) {
      KeptPlayersAreValidRows(rows, p);
    } else {
      InvalidRowDropped(rows, i);
    }
  }

  /** Each table's list keeps sheet order. */
  lemma TablesKeepSheetOrder(rows: seq<Row>, t: string)
    requires |rows| > 0 && t in BuildTypeFromCsv(rows).value.byTable
    ensures var list := BuildTypeFromCsv(rows).value.byTable[t];
            forall a, b :: 0 <= a < b < |list| ==> list[a].originalIndex < list[b].originalIndex
  {
    var players := KeptPlayers(rows);
    KeptPlayersRanked(rows);
    Helpers.WithKeyOrdered(players, TableNoOf, t, RowNumberOf);
  }
}
