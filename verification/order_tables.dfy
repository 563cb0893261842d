/** The two fixed order tables of one hand (src/js/action-order-manager-v2.js):
    built from seat positions when the button seat validates, and from the
    supplied roster order otherwise. */
module OrderTables {
  import opened Wrappers
  import opened JsValue
  import opened SeatResolver
  import opened Positions

  /** One row of an order table: `{player, seat, position, priority}`. */
  datatype Entry = Entry(player: string, seat: Value, position: string, priority: int)

  // ---------------------------------------------------------------------------
  // Sequential fallback: createSequentialOrder
  // ---------------------------------------------------------------------------

  function SequentialLabel(kind: string, index: nat, total: nat): string {
    if kind == "preflop" then SequentialPreflopLabel(index, total)
    else SequentialPostflopLabel(index, total)
  }

  /** What `createSequentialOrder` has pushed after the first `n` players. */
  function SequentialPrefix(players: seq<Seated>, kind: string, n: nat): (r: seq<Entry>)
    requires n <= |players|
    ensures |r| == n
    ensures forall i :: 0 <= i < n ==>
      r[i] == Entry(players[i].name, players[i].seat, SequentialLabel(kind, i, |players|), i)
  {
    if n == 0 then []
    else
      var p := players[n - 1];
      SequentialPrefix(players, kind, n - 1)
        + [Entry(p.name, p.seat, SequentialLabel(kind, n - 1, |players|), n - 1)]
  }

  /** `createSequentialOrder(players, type)`: every supplied player in supplied
      order, bad and duplicate seats included, with the raw seat and
      priority = index. */
  function CreateSequentialOrder(players: seq<Seated>, kind: string): (r: seq<Entry>)
    ensures |r| == |players|
    ensures forall i :: 0 <= i < |r| ==>
      r[i].player == players[i].name && r[i].seat == players[i].seat && r[i].priority == i
  {
    SequentialPrefix(players, kind, |players|)
  }

  /** The fallback relabels the postflop table but never reorders it: the two
      tables differ only in their labels, which come from the per-count arrays. */
  lemma SequentialRelabelsOnly(players: seq<Seated>)
    ensures var pre := CreateSequentialOrder(players, "preflop");
            var post := CreateSequentialOrder(players, "postflop");
            |pre| == |post|
            && (forall i :: 0 <= i < |pre| ==>
                  pre[i].(position := post[i].position) == post[i]
                  && pre[i].position == SequentialPreflopLabel(i, |players|)
                  && post[i].position == SequentialPostflopLabel(i, |players|))
  {
    var pre := CreateSequentialOrder(players, "preflop");
    var post := CreateSequentialOrder(players, "postflop");
    assert forall i :: 0 <= i < |pre| ==>
      pre[i] == Entry(players[i].name, players[i].seat, SequentialPreflopLabel(i, |players|), i);
  }

  // ---------------------------------------------------------------------------
  // Seat geometry shared by createPreflopOrder and createPostflopOrder
  // ---------------------------------------------------------------------------

  /** `occupiedSeats.indexOf(parseInt(buttonPosition))`, -1 when absent. */
  function ButtonIndex(occ: seq<int>, button: Value): (k: int)
    ensures -1 <= k < |occ|
    ensures k >= 0 ==> ParseSeat(button) == Some(occ[k])
    ensures k == -1 <==> ParseSeat(button).None? || ParseSeat(button).value !in occ
  {
    var b := ParseSeat(button);
    if b.Some? && b.value in occ then IndexOf(occ, b.value) else -1
  }

  /** `occupiedSeats[(btnIndex + i + 1) % totalPlayers]`: the seat `i + 1` places
      clockwise after the button. */
  function Clockwise(occ: seq<int>, btn: nat, i: nat): int
    requires btn < |occ|
  {
    occ[(btn + i + 1) % |occ|]
  }

  /** An entry of the `positions` array: `{player, seat, position}`. */
  datatype Slot = Slot(player: Seated, seat: int, position: string)

  /** The `positions` array: the player on each seat clockwise from the one
      after the button, with its ladder label. */
  function PositionSlots(players: seq<Seated>, seats: seq<Option<int>>, btn: nat): (r: seq<Slot>)
    requires |seats| == |players| && btn < |Occupied(seats)|
    ensures |r| == |Occupied(seats)|
    ensures forall i :: 0 <= i < |r| ==> r[i].seat == Clockwise(Occupied(seats), btn, i)
    ensures forall i :: 0 <= i < |r| ==> r[i].position == LadderLabel(i, |r|)
    ensures forall i :: 0 <= i < |r| ==> r[i].seat in SeatMap(players, seats) && r[i].player == SeatMap(players, seats)[r[i].seat]
  {
    var occ := Occupied(seats);
    var seatMap := SeatMap(players, seats);
    seq(|occ|, i requires 0 <= i < |occ| =>
      var seat := Clockwise(occ, btn, i);
      Slot(seatMap[seat], seat, LadderLabel(i, |occ|)))
  }

  function ToEntry(slot: Slot, position: string, priority: int): Entry {
    Entry(slot.player.name, Num(slot.seat), position, priority)
  }

  /** Slots pushed in order, each with priority = `order.length`. */
  function Prioritised(slots: seq<Slot>): (r: seq<Entry>)
    ensures |r| == |slots|
  {
    seq(|slots|, k requires 0 <= k < |slots| => ToEntry(slots[k], slots[k].position, k))
  }

  // ---------------------------------------------------------------------------
  // createPostflopOrder and createPreflopOrder
  // ---------------------------------------------------------------------------

  /** The button seat is one of the occupied seats. */
  predicate ButtonOccupied(players: seq<Seated>, button: Value) {
    ButtonIndex(Occupied(Seats(players)), button) >= 0
  }

  /** `createPostflopOrder(players, buttonPosition)`. */
  function CreatePostflopOrder(players: seq<Seated>, button: Value): (r: seq<Entry>)
    ensures r == [] <==> !ButtonOccupied(players, button)
    ensures ButtonOccupied(players, button) ==> |r| == |Occupied(Seats(players))|
  {
    var seats := Seats(players);
    var occ := Occupied(seats);
    var n := |occ|;
    var btn := ButtonIndex(occ, button);
    if btn == -1 then []
    else if n == 1 then
      var seat := occ[btn];
      [Entry(SeatMap(players, seats)[seat].name, Num(seat), "BTN/SB/BB", 0)]
    else
      var pos := PositionSlots(players, seats, btn);
      seq(n, i requires 0 <= i < n =>
        ToEntry(pos[i], if n == 2 then (if i == 0 then "SB/BTN" else "BB") else pos[i].position, i))
  }

  /** `createPreflopOrder(players, buttonPosition)`. */
  function CreatePreflopOrder(players: seq<Seated>, button: Value): (r: seq<Entry>)
    ensures r == [] <==> !ButtonOccupied(players, button)
    ensures ButtonOccupied(players, button) ==> |r| == |Occupied(Seats(players))|
  {
    var seats := Seats(players);
    var occ := Occupied(seats);
    var n := |occ|;
    var btn := ButtonIndex(occ, button);
    if btn == -1 then []
    else
      var pos := PositionSlots(players, seats, btn);
      if n == 1 then [ToEntry(pos[0], "BTN/SB/BB", 0)]
      else if n == 2 then [ToEntry(pos[0], "SB/BTN", 0), ToEntry(pos[1], "BB", 1)]
      else Prioritised(RotatedSlots(pos))
  }

  /** The preflop seat order: from UTG round to the button, then SB and BB. */
  function RotatedSlots(pos: seq<Slot>): (r: seq<Slot>)
    requires |pos| >= 2
  {
    pos[2..] + [pos[0].(position := "SB"), pos[1].(position := "BB")]
  }

  // ---------------------------------------------------------------------------
  // Clockwise order, stated without modular arithmetic
  // ---------------------------------------------------------------------------

  /** The smallest seat of the increasing list `occ` above `s`, if any. */
  function FirstAbove(occ: seq<int>, s: int): Option<int> {
    if |occ| == 0 then None
    else if occ[0] > s then Some(occ[0])
    else FirstAbove(occ[1..], s)
  }

  /** The next occupied seat clockwise from `s`: the smallest occupied seat
      above `s`, wrapping round to the smallest seat of all. */
  function NextOccupied(occ: seq<int>, s: int): int
    requires |occ| > 0
  {
    match FirstAbove(occ, s)
    case Some(x) => x
    case None => occ[0]
  }

  lemma {:induction false} FirstAboveAt(occ: seq<int>, k: nat)
    requires Increasing(occ) && k < |occ|
    ensures FirstAbove(occ, occ[k]) == if k + 1 < |occ| then Some(occ[k + 1]) else None
  {
    if k > 0 {
      FirstAboveAt(occ[1..], k - 1);
    } else if |occ| > 1 {
      assert occ[1] > occ[0];
    } else {
      assert FirstAbove(occ[1..], occ[0]) == None;
    }
  }

  /** Seat `occ[k]` is followed clockwise by `occ[(k + 1) % n]`. */
  lemma NextOccupiedAt(occ: seq<int>, k: nat)
    requires Increasing(occ) && k < |occ|
    ensures NextOccupied(occ, occ[k]) == occ[(k + 1) % |occ|]
  {
    FirstAboveAt(occ, k);
  }

  /** `x % n` for `0 <= x < 2n`: every index the table builders compute. */
  lemma ModSmall(x: int, n: int)
    requires n > 0 && 0 <= x < 2 * n
    ensures x % n == if x < n then x else x - n
  {
    if x < n {
      assert x == 0 * n + x;
    } else {
      assert x == 1 * n + (x - n);
    }
  }

  /** Walking the table visits each occupied seat's clockwise successor in turn,
      starting after the button and ending on it. */
  lemma ClockwiseWalk(occ: seq<int>, btn: nat, i: nat)
    requires Increasing(occ) && btn < |occ| && i < |occ|
    ensures i == 0 ==> Clockwise(occ, btn, 0) == NextOccupied(occ, occ[btn])
    ensures i + 1 < |occ| ==> Clockwise(occ, btn, i + 1) == NextOccupied(occ, Clockwise(occ, btn, i))
    ensures Clockwise(occ, btn, |occ| - 1) == occ[btn]
  {
    var n := |occ|;
    NextOccupiedAt(occ, btn);
    ModSmall(btn + n, n);
    if i + 1 < n {
      var m := (btn + i + 1) % n;
      ModSmall(btn + i + 1, n);
      ModSmall(btn + i + 2, n);
      ModSmall(m + 1, n);
      NextOccupiedAt(occ, m);
    }
  }

  /** No occupied seat is reached twice around the table. */
  lemma ClockwiseInjective(occ: seq<int>, btn: nat)
    requires Increasing(occ) && btn < |occ|
    ensures forall i, j :: 0 <= i < j < |occ| ==> Clockwise(occ, btn, i) != Clockwise(occ, btn, j)
  {
    var n := |occ|;
    forall i, j | 0 <= i < j < n
      ensures Clockwise(occ, btn, i) != Clockwise(occ, btn, j)
    {
      ModSmall(btn + i + 1, n);
      ModSmall(btn + j + 1, n);
    }
  }

  /** The number of steps after the button at which seat `occ[k]` comes up. */
  lemma ClockwiseReaches(occ: seq<int>, btn: nat, k: nat) returns (i: nat)
    requires btn < |occ| && k < |occ|
    ensures i < |occ| && Clockwise(occ, btn, i) == occ[k]
  {
    var n := |occ|;
    i := if k > btn then k - btn - 1 else k + n - btn - 1;
    ModSmall(btn + i + 1, n);
  }

  // ---------------------------------------------------------------------------
  // Properties of the position-based tables
  // ---------------------------------------------------------------------------

  /** Entry `i` of the postflop table: the last roster player on the seat
      `i + 1` places clockwise after the button, that seat as a number, and
      priority `i`. */
  lemma PostflopEntries(players: seq<Seated>, button: Value)
    requires ButtonOccupied(players, button)
    ensures var seats := Seats(players);
            var occ := Occupied(seats);
            var btn := ButtonIndex(occ, button);
            var post := CreatePostflopOrder(players, button);
            forall i :: 0 <= i < |post| ==>
              post[i].seat == Num(Clockwise(occ, btn, i)) && post[i].priority == i
              && post[i].player == SeatMap(players, seats)[Clockwise(occ, btn, i)].name
  {
    var seats := Seats(players);
    var occ := Occupied(seats);
    var btn := ButtonIndex(occ, button);
    var post := CreatePostflopOrder(players, button);
    if |occ| == 1 {
      assert Clockwise(occ, btn, 0) == occ[btn];
    } else {
      var pos := PositionSlots(players, seats, btn);
      forall i | 0 <= i < |post|
        ensures post[i].seat == Num(Clockwise(occ, btn, i)) && post[i].priority == i
                && post[i].player == SeatMap(players, seats)[Clockwise(occ, btn, i)].name
      {
        assert post[i] == ToEntry(pos[i], post[i].position, i);
      }
    }
  }

  /** Each clockwise step lands on the next occupied seat. */
  lemma ClockwiseSteps(occ: seq<int>, btn: nat)
    requires Increasing(occ) && btn < |occ|
    ensures forall i :: 0 <= i < |occ| - 1 ==> Clockwise(occ, btn, i + 1) == NextOccupied(occ, Clockwise(occ, btn, i))
  {
    forall i | 0 <= i < |occ| - 1
      ensures Clockwise(occ, btn, i + 1) == NextOccupied(occ, Clockwise(occ, btn, i))
    {
      ClockwiseWalk(occ, btn, i);
    }
  }

  /** The seats of the postflop table, entry by entry. */
  lemma PostflopSeats(players: seq<Seated>, button: Value)
    requires ButtonOccupied(players, button)
    ensures var occ := Occupied(Seats(players));
            var btn := ButtonIndex(occ, button);
            var post := CreatePostflopOrder(players, button);
            |post| == |occ|
            && forall i :: 0 <= i < |post| ==> post[i].seat == Num(Clockwise(occ, btn, i))
  {
    PostflopEntries(players, button);
  }

  /** The postflop table starts at the first occupied seat clockwise after the
      button, moves each time to the next occupied seat clockwise, and ends on
      the button seat. */
  lemma PostflopClockwise(players: seq<Seated>, button: Value)
    requires ButtonOccupied(players, button)
    ensures var occ := Occupied(Seats(players));
            var b := ParseSeat(button).value;
            var post := CreatePostflopOrder(players, button);
            |post| > 0
            && post[0].seat == Num(NextOccupied(occ, b))
            && post[|post| - 1].seat == Num(b)
            && forall i :: 0 <= i < |post| - 1 ==>
                 post[i].seat.Num? && post[i + 1].seat == Num(NextOccupied(occ, post[i].seat.n))
  {
    var occ := Occupied(Seats(players));
    var btn := ButtonIndex(occ, button);
    var post := CreatePostflopOrder(players, button);
    assert ParseSeat(button).value == occ[btn];
    PostflopSeats(players, button);
    ClockwiseWalk(occ, btn, 0);
    ClockwiseSteps(occ, btn);
    forall i | 0 <= i < |post| - 1
      ensures post[i].seat.Num? && post[i + 1].seat == Num(NextOccupied(occ, post[i].seat.n))
    {
      assert post[i].seat == Num(Clockwise(occ, btn, i));
      assert post[i + 1].seat == Num(Clockwise(occ, btn, i + 1));
    }
  }

  /** One entry per distinct parseable seat: no seat twice, none missed. */
  lemma PostflopSeatsOnce(players: seq<Seated>, button: Value)
    requires ButtonOccupied(players, button)
    ensures var post := CreatePostflopOrder(players, button);
            (forall i, j :: 0 <= i < j < |post| ==> post[i].seat != post[j].seat)
            && (forall s :: Taken(Seats(players), s) <==> exists i :: 0 <= i < |post| && post[i].seat == Num(s))
  {
    var occ := Occupied(Seats(players));
    var btn := ButtonIndex(occ, button);
    var post := CreatePostflopOrder(players, button);
    PostflopEntries(players, button);
    ClockwiseInjective(occ, btn);
    forall s | Taken(Seats(players), s)
      ensures exists i :: 0 <= i < |post| && post[i].seat == Num(s)
    {
      var k := IndexOf(occ, s);
      var i := ClockwiseReaches(occ, btn, k);
      assert post[i].seat == Num(s);
    }
  }

  /** Each entry names the last roster player whose seat parses to the
      entry's seat. */
  lemma PostflopLastPlayerWins(players: seq<Seated>, button: Value, i: nat)
    requires ButtonOccupied(players, button)
    requires i < |CreatePostflopOrder(players, button)|
    ensures var post := CreatePostflopOrder(players, button);
            post[i].seat.Num?
            && exists j :: LastWithSeat(Seats(players), post[i].seat.n, j) && post[i].player == players[j].name
  {
    var seats := Seats(players);
    var occ := Occupied(seats);
    var btn := ButtonIndex(occ, button);
    PostflopEntries(players, button);
    SeatMapLastWins(players, seats, Clockwise(occ, btn, i));
  }

  /** With three or more seats every label comes from the ladder. */
  lemma PostflopLabels(players: seq<Seated>, button: Value)
    requires ButtonOccupied(players, button)
    requires |Occupied(Seats(players))| >= 3
    ensures var post := CreatePostflopOrder(players, button);
            forall i :: 0 <= i < |post| ==> post[i].position == LadderLabel(i, |post|)
  {
    var pos := PositionSlots(players, Seats(players), ButtonIndex(Occupied(Seats(players)), button));
    var post := CreatePostflopOrder(players, button);
    PostflopOfSlots(players, button);
    forall i | 0 <= i < |post| ensures post[i].position == LadderLabel(i, |post|) {
      assert post[i] == ToEntry(pos[i], pos[i].position, i);
    }
  }

  /** Heads-up, the player after the button is labelled `SB/BTN` and the
      button player `BB`. */
  lemma HeadsUpLabels(players: seq<Seated>, button: Value)
    requires ButtonOccupied(players, button)
    requires |Occupied(Seats(players))| == 2
    ensures var post := CreatePostflopOrder(players, button);
            |post| == 2
            && post[0].position == "SB/BTN" && post[0].seat != Num(ParseSeat(button).value)
            && post[1].position == "BB" && post[1].seat == Num(ParseSeat(button).value)
  {
    var occ := Occupied(Seats(players));
    var btn := ButtonIndex(occ, button);
    PostflopEntries(players, button);
    ClockwiseWalk(occ, btn, 0);
    ClockwiseInjective(occ, btn);
  }

  /** Alone at the table, the single player is `BTN/SB/BB` in both tables. */
  lemma SingleSeat(players: seq<Seated>, button: Value)
    requires ButtonOccupied(players, button)
    requires |Occupied(Seats(players))| == 1
    ensures var post := CreatePostflopOrder(players, button);
            var b := ParseSeat(button).value;
            post == [Entry(SeatMap(players, Seats(players))[b].name, Num(b), "BTN/SB/BB", 0)]
            && CreatePreflopOrder(players, button) == post
  {
  }

  /** Prioritising the rotated slots moves entry `k + 2` (round the table) to
      place `k`, when the first two slots are already labelled SB and BB. */
  lemma PrioritisedRotated(pos: seq<Slot>, k: nat)
    requires |pos| >= 3 && k < |pos|
    requires pos[0].position == "SB" && pos[1].position == "BB"
    ensures Prioritised(RotatedSlots(pos))[k] == Prioritised(pos)[(k + 2) % |pos|].(priority := k)
  {
    var n := |pos|;
    ModSmall(k + 2, n);
    var rotated := RotatedSlots(pos);
    var j := (k + 2) % n;
    if k < n - 2 {
      assert rotated[k] == pos[j];
    } else if k == n - 2 {
      assert rotated[k] == pos[0];
    } else {
      assert rotated[k] == pos[1];
    }
  }

  /** The postflop table of three or more seats, in terms of the `positions` array. */
  lemma PostflopOfSlots(players: seq<Seated>, button: Value)
    requires ButtonOccupied(players, button) && |Occupied(Seats(players))| >= 3
    ensures var pos := PositionSlots(players, Seats(players), ButtonIndex(Occupied(Seats(players)), button));
            CreatePostflopOrder(players, button) == Prioritised(pos)
  {
  }

  /** The preflop table of three or more seats, in terms of the `positions` array. */
  lemma PreflopOfSlots(players: seq<Seated>, button: Value)
    requires ButtonOccupied(players, button) && |Occupied(Seats(players))| >= 3
    ensures var pos := PositionSlots(players, Seats(players), ButtonIndex(Occupied(Seats(players)), button));
            CreatePreflopOrder(players, button) == Prioritised(RotatedSlots(pos))
  {
  }

  /** Preflop with three or more seats is the postflop table rotated left by
      two (UTG first, then SB and BB last), with the same labels and priority
      renumbered 0..N-1; with one or two seats the two tables are equal. */
  lemma PreflopIsPostflopRotated(players: seq<Seated>, button: Value)
    ensures var pre := CreatePreflopOrder(players, button);
            var post := CreatePostflopOrder(players, button);
            var n := |post|;
            |pre| == n
            && (n <= 2 ==> pre == post)
            && (n >= 3 ==> forall k :: 0 <= k < n ==> pre[k] == post[(k + 2) % n].(priority := k))
  {
    if ButtonOccupied(players, button) {
      var n := |Occupied(Seats(players))|;
      if n >= 3 {
        var pos := PositionSlots(players, Seats(players), ButtonIndex(Occupied(Seats(players)), button));
        PostflopOfSlots(players, button);
        PreflopOfSlots(players, button);
        forall k | 0 <= k < n
          ensures Prioritised(RotatedSlots(pos))[k] == Prioritised(pos)[(k + 2) % n].(priority := k)
        {
          PrioritisedRotated(pos, k);
        }
      } else {
        SmallTablesEqual(players, button);
      }
    }
  }

  /** With one or two occupied seats the preflop and postflop tables agree. */
  lemma SmallTablesEqual(players: seq<Seated>, button: Value)
    requires ButtonOccupied(players, button) && |Occupied(Seats(players))| <= 2
    ensures CreatePreflopOrder(players, button) == CreatePostflopOrder(players, button)
  {
    var seats := Seats(players);
    var occ := Occupied(seats);
    var btn := ButtonIndex(occ, button);
    var pos := PositionSlots(players, seats, btn);
    if |occ| == 1 {
      assert pos[0].seat == occ[btn];
      assert CreatePreflopOrder(players, button) == [ToEntry(pos[0], "BTN/SB/BB", 0)];
    } else {
      var pre := [ToEntry(pos[0], "SB/BTN", 0), ToEntry(pos[1], "BB", 1)];
      assert CreatePreflopOrder(players, button) == pre;
      var post := CreatePostflopOrder(players, button);
      assert |post| == 2 && post[0] == pre[0] && post[1] == pre[1];
      SameTwo(post, pre);
    }
  }

  lemma SameTwo(a: seq<Entry>, b: seq<Entry>)
    requires |a| == 2 && |b| == 2 && a[0] == b[0] && a[1] == b[1]
    ensures a == b
  {
  }
}
