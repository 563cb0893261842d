/** How the acting-order engine (src/js/action-order-manager-v2.js) turns a
    roster into seats. Unlike the UI seat parser, the engine calls plain
    `parseInt(seat)` with no radix and no `#` stripping, so `"#3"` is not a seat
    here, while `"0x3"` is seat 3. */
module SeatResolver {
  import opened Wrappers
  import opened JsString
  import opened JsValue
  import SeatParser

  /** `parseInt(v)` as the engine calls it; `None` is `NaN`. A number is its own
      seat, and `undefined`, `null` and booleans print as words, which are
      `NaN`; `SeatIsParseIntOfString` checks this against `parseInt(String(v))`. */
  function ParseSeat(v: Value): Option<int> {
    match v
    case Num(n) => Some(n)
    case Str(s) => ParseInt(s, NoRadix)
    case _ => None
  }

  /** A word that starts with a letter other than a hex prefix is `NaN`. */
  lemma WordIsNaN(w: string)
    requires |w| > 0 && 'a' <= w[0] <= 'z'
    ensures ParseInt(w, NoRadix).None?
  {
    AfterSignUnsigned(w);
    assert !HasHexPrefix(w);
  }

  /** `ParseSeat` is `parseInt(String(v))`. */
  lemma SeatIsParseIntOfString(v: Value)
    ensures ParseSeat(v) == ParseInt(ToStr(v), NoRadix)
  {
    match v
    case Num(n) => ParseIntOfIntToString(n, NoRadix);
    case Str(_) =>
    case Undefined => WordIsNaN(ToStr(v));
    case Null => WordIsNaN(ToStr(v));
    case Bool(_) => WordIsNaN(ToStr(v));
  }

  /** `players.map(p => parseInt(p.seat))`, with `None` for `NaN`. The table
      builders below work on these parsed seats. */
  function Seats(players: seq<Seated>): (r: seq<Option<int>>)
    ensures |r| == |players|
  {
    seq(|players|, i requires 0 <= i < |players| => ParseSeat(players[i].seat))
  }

  /** Some roster entry has a seat that parses to `s`. */
  predicate Taken(seats: seq<Option<int>>, s: int) {
    exists i :: 0 <= i < |seats| && seats[i] == Some(s)
  }

  /** `.filter(seat => !isNaN(seat))` on the parsed seats. */
  function ParsedSeats(seats: seq<Option<int>>): (r: seq<int>)
    ensures forall s :: s in r <==> Taken(seats, s)
    decreases |seats|
  {
    if |seats| == 0 then []
    else
      var init := seats[..|seats| - 1];
      var rest := ParsedSeats(init);
      assert forall i :: 0 <= i < |init| ==> init[i] == seats[i];
      match seats[|seats| - 1]
      case None => rest
      case Some(s) => rest + [s]
  }

  /** `validateButtonPosition(players, buttonPosition)`: the button is truthy,
      the roster is non-empty, and the button's seat number is the parsed seat
      of some player. */
  function ValidateButtonPosition(players: seq<Seated>, button: Value): (r: bool)
    ensures r <==> Truthy(button) && |players| > 0 && ParseSeat(button).Some?
                   && Taken(Seats(players), ParseSeat(button).value)
  {
    if !Truthy(button) || |players| == 0 then false
    else
      var buttonSeat := ParseSeat(button);
      buttonSeat.Some? && buttonSeat.value in ParsedSeats(Seats(players))
  }

  /** A seat written with a leading `#` is `NaN` for the engine. */
  lemma HashSeatIsNotASeat(s: string)
    requires |s| > 0 && s[0] == '#'
    ensures ParseSeat(Str(s)).None?
  {
    AfterSignUnsigned(s);
    assert !HasHexPrefix(s);
  }

  /** A button written `"#3"` never validates, although the UI seat parser
      reads the same text as seat 3. */
  lemma HashButtonNeverValidates(button: string, players: seq<Seated>)
    requires button == "#3"
    ensures SeatParser.ParseSeatNumber(Str(button)) == 3
    ensures !ValidateButtonPosition(players, Str(button))
  {
    HashThreeIsSeatThree(button);
    HashSeatIsNotASeat(button);
  }

  lemma HashThreeIsSeatThree(button: string)
    requires button == "#3"
    ensures SeatParser.ParseSeatNumber(Str(button)) == 3
  {
    SingleDigitString(3);
    assert button == "#" + IntToString(3);
    SeatParser.HashPrefixedSeat(3);
  }

  // ---------------------------------------------------------------------------
  // The seat map: `seatMap.set(parseInt(p.seat), p)` for every parseable seat
  // ---------------------------------------------------------------------------

  /** Entry `j` is the last one whose seat parses to `s`. */
  predicate LastWithSeat(seats: seq<Option<int>>, s: int, j: int) {
    0 <= j < |seats| && seats[j] == Some(s)
    && forall k :: j < k < |seats| ==> seats[k] != Some(s)
  }

  /** `seatMap`: every parseable seat mapped to the last player sitting there
      (`Map.set` on an existing key replaces its value); `SeatMapLastWins`
      states which player that is. */
  function SeatMap(players: seq<Seated>, seats: seq<Option<int>>): (m: map<int, Seated>)
    requires |seats| == |players|
    ensures forall s :: s in m <==> Taken(seats, s)
    decreases |players|
  {
    if |players| == 0 then map[]
    else
      var n := |players| - 1;
      var m := SeatMap(players[..n], seats[..n]);
      assert forall i :: 0 <= i < n ==> seats[..n][i] == seats[i];
      match seats[n]
      case None => m
      case Some(s) => m[s := players[n]]
  }

  /** A later player with the same seat replaces an earlier one. */
  lemma {:induction false} SeatMapLastWins(players: seq<Seated>, seats: seq<Option<int>>, s: int)
    requires |seats| == |players|
    requires s in SeatMap(players, seats)
    ensures exists j :: LastWithSeat(seats, s, j) && SeatMap(players, seats)[s] == players[j]
    decreases |players|
  {
    var n := |players| - 1;
    assert forall i :: 0 <= i < n ==> seats[..n][i] == seats[i] && players[..n][i] == players[i];
    if seats[n] == Some(s) {
      assert LastWithSeat(seats, s, n);
    } else {
      SeatMapLastWins(players[..n], seats[..n], s);
      var j :| LastWithSeat(seats[..n], s, j) && SeatMap(players[..n], seats[..n])[s] == players[..n][j];
      assert LastWithSeat(seats, s, j);
    }
  }

  /** The seats taken by the first `n` roster entries. */
  function TakenBy(seats: seq<Option<int>>, n: nat): set<int>
    requires n <= |seats|
  {
    if n == 0 then {}
    else
      var prior := TakenBy(seats, n - 1);
      match seats[n - 1]
      case None => prior
      case Some(s) => prior + {s}
  }

  /** The seats taken by a roster prefix are exactly those its entries
      parse to. */
  lemma {:induction false} TakenByMembers(seats: seq<Option<int>>, n: nat, s: int)
    requires n <= |seats|
    ensures s in TakenBy(seats, n) <==> exists k :: 0 <= k < n && seats[k] == Some(s)
  {
    if n > 0 {
      TakenByMembers(seats, n - 1, s);
      if seats[n - 1] == Some(s) {
        assert s in TakenBy(seats, n);
      } else if s in TakenBy(seats, n) {
        var k :| 0 <= k < n - 1 && seats[k] == Some(s);
      }
    }
  }

  /** Adding one element adds at most one to the size of a set. */
  lemma AddOneCard(a: set<int>, x: int)
    ensures |a + {x}| <= |a| + 1
    ensures x in a ==> a + {x} == a
  {
    if x !in a {
      assert |a + {x}| == |a| + |{x}|;
    }
  }

  /** `n` entries take at most `n` seats. */
  lemma {:induction false} TakenByBound(seats: seq<Option<int>>, n: nat)
    requires n <= |seats|
    ensures |TakenBy(seats, n)| <= n
  {
    if n > 0 {
      TakenByBound(seats, n - 1);
      TakenByStep(seats, n);
    }
  }

  lemma TakenByStep(seats: seq<Option<int>>, n: nat)
    requires 0 < n <= |seats|
    ensures |TakenBy(seats, n)| <= |TakenBy(seats, n - 1)| + 1
    ensures seats[n - 1].Some? && seats[n - 1].value in TakenBy(seats, n - 1) ==>
              TakenBy(seats, n) == TakenBy(seats, n - 1)
  {
    var prior := TakenBy(seats, n - 1);
    match seats[n - 1]
    case None =>
    case Some(s) => AddOneCard(prior, s);
  }

  /** With two entries on one seat, the first `n` entries take fewer than
      `n` seats. */
  lemma {:induction false} DuplicateShrinks(seats: seq<Option<int>>, i: int, j: int, n: nat)
    requires 0 <= i < j < n <= |seats|
    requires seats[i].Some? && seats[j] == seats[i]
    ensures |TakenBy(seats, n)| < n
  {
    if n == j + 1 {
      TakenByBound(seats, j);
      TakenByMembers(seats, j, seats[j].value);
      TakenByStep(seats, n);
    } else {
      DuplicateShrinks(seats, i, j, n - 1);
      TakenByStep(seats, n);
    }
  }

  /** Players that share a seat collapse into one map entry, so the map has
      fewer seats than the roster has players. */
  lemma DuplicateSeatCollapses(players: seq<Seated>, seats: seq<Option<int>>, i: int, j: int)
    requires |seats| == |players|
    requires 0 <= i < j < |players|
    requires seats[i].Some? && seats[j] == seats[i]
    ensures |SeatMap(players, seats).Keys| < |players|
  {
    forall s ensures s in SeatMap(players, seats).Keys <==> s in TakenBy(seats, |seats|) {
      TakenByMembers(seats, |seats|, s);
    }
    assert SeatMap(players, seats).Keys == TakenBy(seats, |seats|);
    DuplicateShrinks(seats, i, j, |seats|);
  }

  // ---------------------------------------------------------------------------
  // Occupied seats in ascending order
  // ---------------------------------------------------------------------------

  predicate Increasing(s: seq<int>) {
    forall i, j :: 0 <= i < j < |s| ==> s[i] < s[j]
  }

  /** Adds `x` to an increasing sequence, keeping it increasing and free of
      duplicates. */
  function InsertSorted(x: int, s: seq<int>): (r: seq<int>)
    requires Increasing(s)
    ensures Increasing(r)
    ensures forall y :: y in r <==> y == x || y in s
  {
    if |s| == 0 then [x]
    else if x < s[0] then
      assert forall y :: y in s ==> x < y by { AboveFirst(s); }
      IncreasingCons(x, s);
      [x] + s
    else if x == s[0] then s
    else
      var rest := InsertSorted(x, s[1..]);
      assert forall y :: y in rest ==> s[0] < y by { AboveFirst(s); }
      IncreasingCons(s[0], rest);
      [s[0]] + rest
  }

  /** Every later element of an increasing sequence is above its first. */
  lemma AboveFirst(s: seq<int>)
    requires Increasing(s) && |s| > 0
    ensures Increasing(s[1..])
    ensures forall y :: y in s[1..] ==> s[0] < y
    ensures forall y :: y in s ==> s[0] <= y
  {
    forall y | y in s ensures s[0] <= y {
      var k :| 0 <= k < |s| && s[k] == y;
    }
    forall y | y in s[1..] ensures s[0] < y {
      var k :| 0 <= k < |s[1..]| && s[1..][k] == y;
      assert s[k + 1] == y;
    }
  }

  /** A value below every element extends an increasing sequence at the front. */
  lemma IncreasingCons(x: int, s: seq<int>)
    requires Increasing(s) && forall y :: y in s ==> x < y
    ensures Increasing([x] + s)
  {
    var r := [x] + s;
    forall i, j | 0 <= i < j < |r| ensures r[i] < r[j] {
      if i == 0 {
        assert r[j] == s[j - 1] && s[j - 1] in s;
      } else {
        assert r[i] == s[i - 1] && r[j] == s[j - 1];
      }
    }
  }

  /** The distinct members of `s` in ascending order
      (`Array.from(seatMap.keys()).sort((a, b) => a - b)`). */
  function SortedDistinct(s: seq<int>): (r: seq<int>)
    ensures Increasing(r)
    ensures forall x :: x in r <==> x in s
    decreases |s|
  {
    if |s| == 0 then []
    else InsertSorted(s[|s| - 1], SortedDistinct(s[..|s| - 1]))
  }

  /** An increasing sequence has as many elements as its set. */
  lemma {:induction false} IncreasingCard(s: seq<int>)
    requires Increasing(s)
    ensures |set x | x in s| == |s|
  {
    if |s| > 0 {
      IncreasingCard(s[1..]);
      assert (set x | x in s) == {s[0]} + (set x | x in s[1..]);
    }
  }

  /** `occupiedSeats`: the distinct parseable seats, ascending. */
  function Occupied(seats: seq<Option<int>>): (r: seq<int>)
    ensures Increasing(r)
    ensures forall s :: s in r <==> Taken(seats, s)
  {
    SortedDistinct(ParsedSeats(seats))
  }

  /** One occupied seat per key of the seat map. */
  lemma OccupiedCount(players: seq<Seated>, seats: seq<Option<int>>)
    requires |seats| == |players|
    ensures |Occupied(seats)| == |SeatMap(players, seats).Keys|
  {
    var r := Occupied(seats);
    IncreasingCard(r);
    assert (set x | x in r) == SeatMap(players, seats).Keys;
  }

  /** `array.indexOf(x)` on an array without duplicates. */
  function IndexOf(s: seq<int>, x: int): (k: nat)
    requires x in s
    ensures k < |s| && s[k] == x
    ensures forall i :: 0 <= i < k ==> s[i] != x
  {
    if s[0] == x then 0 else 1 + IndexOf(s[1..], x)
  }

  /** When the button validates, its seat is occupied. */
  lemma ValidButtonIsOccupied(players: seq<Seated>, button: Value)
    requires ValidateButtonPosition(players, button)
    ensures ParseSeat(button).Some? && ParseSeat(button).value in Occupied(Seats(players))
  {
  }
}
