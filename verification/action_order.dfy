/** `ActionOrderManagerV2` (src/js/action-order-manager-v2.js) as a state record
    and transitions on it. The two order tables are fixed when a hand starts;
    a cursor per street then indexes the entries whose player is still
    `'active'`, modulo their number, so folding or going all-in never reorders
    the table. Flop, turn and river all read the postflop table and share the
    `flop` counter. */
module ActionOrder {
  import opened Wrappers
  import opened JsValue
  import opened SeatResolver
  import opened OrderTables

  /** `currentActionIndex`. Only `preflop` and `flop` are ever written. */
  datatype Counters = Counters(preflop: nat, flop: nat, turn: nat, river: nat)

  const ZeroCounters := Counters(0, 0, 0, 0)

  /** The fields of one `ActionOrderManagerV2` instance. */
  datatype Manager = Manager(
    handNumber: Value,
    buttonPosition: Value,
    preflop: seq<Entry>,
    postflop: seq<Entry>,
    currentStreet: string,
    actionIndex: Counters,
    playerStatus: map<string, string>)

  /** The constructor's initial state. */
  function NewManager(): Manager {
    Manager(Null, Num(1), [], [], "preflop", ZeroCounters, map[])
  }

  // ---------------------------------------------------------------------------
  // Street normalisation and the active filter
  // ---------------------------------------------------------------------------

  /** `absoluteOrder[street === 'preflop' ? 'preflop' : 'postflop']`. */
  function Table(m: Manager, street: string): seq<Entry> {
    if street == "preflop" then m.preflop else m.postflop
  }

  /** `currentActionIndex[street === 'preflop' ? 'preflop' : 'flop']`. */
  function Counter(m: Manager, street: string): nat {
    if street == "preflop" then m.actionIndex.preflop else m.actionIndex.flop
  }

  function WithCounter(m: Manager, street: string, v: nat): (r: Manager)
    ensures Counter(r, street) == v
  {
    if street == "preflop" then m.(actionIndex := m.actionIndex.(preflop := v))
    else m.(actionIndex := m.actionIndex.(flop := v))
  }

  /** `playerStatus[name] === 'active'`. */
  predicate IsActive(status: map<string, string>, name: string) {
    name in status && status[name] == "active"
  }

  /** `table.filter(p => playerStatus[p.player] === 'active')`. */
  function ActiveEntries(table: seq<Entry>, status: map<string, string>): (r: seq<Entry>)
    ensures |r| <= |table|
    ensures forall e :: e in r ==> e in table && IsActive(status, e.player)
    decreases |table|
  {
    if |table| == 0 then []
    else
      var n := |table| - 1;
      var prior := ActiveEntries(table[..n], status);
      if IsActive(status, table[n].player) then prior + [table[n]] else prior
  }

  /** The `k`-th active entry of a table is the entry at the table index with
      exactly `k` active entries before it. */
  lemma {:induction false} ActiveEntryAt(table: seq<Entry>, status: map<string, string>, k: nat)
    requires k < |ActiveEntries(table, status)|
    ensures exists j :: 0 <= j < |table| && table[j] == ActiveEntries(table, status)[k]
                        && IsActive(status, table[j].player)
                        && |ActiveEntries(table[..j], status)| == k
    decreases |table|
  {
    var n := |table| - 1;
    var prior := ActiveEntries(table[..n], status);
    if k < |prior| {
      ActiveEntryAt(table[..n], status, k);
      var j :| 0 <= j < n && table[..n][j] == prior[k]
               && IsActive(status, table[..n][j].player)
               && |ActiveEntries(table[..n][..j], status)| == k;
      assert table[..n][..j] == table[..j];
    }
  }

  // ---------------------------------------------------------------------------
  // getCurrentPlayer, moveToNextPlayer, advanceToStreet
  // ---------------------------------------------------------------------------

  /** `getCurrentPlayer(street)`: `null` when the street's table has no active
      entry (an empty table included); otherwise the active entry whose rank
      among the active entries is the street's counter modulo their number. */
  function GetCurrentPlayer(m: Manager, street: string): (r: Option<Entry>)
    ensures (r.None? <==> |ActiveEntries(Table(m, street), m.playerStatus)| == 0)
    ensures r.Some? ==> r.value in Table(m, street) && IsActive(m.playerStatus, r.value.player)
  {
    var table := Table(m, street);
    if |table| == 0 then None
    else
      var active := ActiveEntries(table, m.playerStatus);
      if |active| == 0 then None
      else
        var k := Counter(m, street) % |active|;
        assert active[k] in active;
        Some(active[k])
  }

  /** The player to act is the active entry whose rank among the active
      entries is the street's counter modulo their number. */
  lemma CurrentPlayerRank(m: Manager, street: string)
    requires GetCurrentPlayer(m, street).Some?
    ensures var table := Table(m, street);
            var active := ActiveEntries(table, m.playerStatus);
            var r := GetCurrentPlayer(m, street).value;
            exists j :: 0 <= j < |table| && table[j] == r
                        && IsActive(m.playerStatus, r.player)
                        && |ActiveEntries(table[..j], m.playerStatus)| == Counter(m, street) % |active|
  {
    var active := ActiveEntries(Table(m, street), m.playerStatus);
    ActiveEntryAt(Table(m, street), m.playerStatus, Counter(m, street) % |active|);
  }

  /** The result of a transition that also reports a player. */
  datatype Step = Step(manager: Manager, player: Option<Entry>)

  /** `moveToNextPlayer(street)`: advance the street's counter by one and report
      the player now to act. */
  function MoveToNextPlayer(m: Manager, street: string): (r: Step)
    ensures Counter(r.manager, street) == Counter(m, street) + 1
    ensures r.manager.(actionIndex := m.actionIndex) == m
    ensures r.player == GetCurrentPlayer(r.manager, street)
  {
    var next := WithCounter(m, street, Counter(m, street) + 1);
    Step(next, GetCurrentPlayer(next, street))
  }

  /** `advanceToStreet(newStreet)`: record the street, restart its counter, and
      report its first player. */
  function AdvanceToStreet(m: Manager, street: string): (r: Step)
    ensures r.manager.currentStreet == street && Counter(r.manager, street) == 0
    ensures r.manager.(actionIndex := m.actionIndex, currentStreet := m.currentStreet) == m
    ensures r.player == GetCurrentPlayer(r.manager, street)
  {
    var next := WithCounter(m.(currentStreet := street), street, 0);
    Step(next, GetCurrentPlayer(next, street))
  }

  /** `n` calls of `moveToNextPlayer(street)`. */
  function MoveTimes(m: Manager, street: string, n: nat): (r: Manager)
    ensures Counter(r, street) == Counter(m, street) + n
    ensures r.(actionIndex := m.actionIndex) == m
    decreases n
  {
    if n == 0 then m else MoveTimes(MoveToNextPlayer(m, street).manager, street, n - 1)
  }

  lemma {:induction false} MulAtLeast(k: nat, n: nat)
    requires k >= 1
    ensures k * n >= n
  {
    if k > 1 {
      MulAtLeast(k - 1, n);
      assert k * n == (k - 1) * n + n;
    }
  }

  /** Euclidean remainders are unique. */
  lemma ModUnique(a: int, n: int, q: int, r: int)
    requires n > 0 && 0 <= r < n && a == q * n + r
    ensures a % n == r
  {
    var q0 := a / n;
    var r0 := a % n;
    assert a == q0 * n + r0;
    assert (q - q0) * n == r0 - r;
    if q > q0 {
      MulAtLeast(q - q0, n);
    } else if q < q0 {
      MulAtLeast(q0 - q, n);
    }
  }

  lemma ModPeriod(c: nat, n: nat)
    requires n > 0
    ensures (c + n) % n == c % n
  {
    var q := c / n;
    assert c == q * n + c % n;
    assert c + n == (q + 1) * n + c % n;
    ModUnique(c + n, n, q + 1, c % n);
  }

  /** The player to act depends only on the street's table, the statuses and
      the counter modulo the number of active entries. */
  lemma CurrentPlayerDependsOn(m1: Manager, m2: Manager, street: string)
    requires Table(m1, street) == Table(m2, street) && m1.playerStatus == m2.playerStatus
    requires var n := |ActiveEntries(Table(m1, street), m1.playerStatus)|;
             n > 0 ==> Counter(m1, street) % n == Counter(m2, street) % n
    ensures GetCurrentPlayer(m1, street) == GetCurrentPlayer(m2, street)
  {
  }

  /** After as many moves as there are active players the same player is to
      act again: the cursor cycles through the active entries. */
  lemma MovesCycle(m: Manager, street: string)
    ensures var n := |ActiveEntries(Table(m, street), m.playerStatus)|;
            GetCurrentPlayer(MoveTimes(m, street, n), street) == GetCurrentPlayer(m, street)
  {
    var n := |ActiveEntries(Table(m, street), m.playerStatus)|;
    var r := MoveTimes(m, street, n);
    SameButCounters(r, m, street);
    CurrentPlayerPeriodic(r, m, street, n);
  }

  /** Adding the number of active entries to the counter leaves the player to
      act unchanged. */
  lemma CurrentPlayerPeriodic(m1: Manager, m2: Manager, street: string, n: nat)
    requires Table(m1, street) == Table(m2, street) && m1.playerStatus == m2.playerStatus
    requires n == |ActiveEntries(Table(m2, street), m2.playerStatus)|
    requires Counter(m1, street) == Counter(m2, street) + n
    ensures GetCurrentPlayer(m1, street) == GetCurrentPlayer(m2, street)
  {
    if n > 0 {
      ModPeriod(Counter(m2, street), n);
    }
    CurrentPlayerDependsOn(m1, m2, street);
  }

  /** After one move the player to act is the next active entry in table order,
      wrapping round after the last. */
  lemma MoveGoesToNextActive(m: Manager, street: string)
    requires GetCurrentPlayer(m, street).Some?
    ensures var table := Table(m, street);
            var n := |ActiveEntries(table, m.playerStatus)|;
            var next := MoveToNextPlayer(m, street).player;
            next.Some?
            && exists j :: 0 <= j < |table| && table[j] == next.value
                 && |ActiveEntries(table[..j], m.playerStatus)| == (Counter(m, street) + 1) % n
  {
    var r := MoveToNextPlayer(m, street).manager;
    var table := Table(m, street);
    var status := m.playerStatus;
    MoveKeepsTable(m, street);
    CurrentPlayerRank(r, street);
    var j :| 0 <= j < |table| && table[j] == GetCurrentPlayer(r, street).value
             && |ActiveEntries(table[..j], status)| == Counter(r, street) % |ActiveEntries(table, status)|;
    assert Counter(r, street) == Counter(m, street) + 1;
  }

  /** A move changes only the counter: the table and the statuses stay. */
  lemma MoveKeepsTable(m: Manager, street: string)
    ensures var r := MoveToNextPlayer(m, street).manager;
            Table(r, street) == Table(m, street) && r.playerStatus == m.playerStatus
  {
    SameButCounters(MoveToNextPlayer(m, street).manager, m, street);
  }

  /** Two states that differ at most in their counters read the same table
      and statuses. */
  lemma SameButCounters(a: Manager, b: Manager, street: string)
    requires a.(actionIndex := b.actionIndex) == b
    ensures Table(a, street) == Table(b, street) && a.playerStatus == b.playerStatus
  {
    assert a.preflop == b.preflop && a.postflop == b.postflop;
  }

  /** Flop, turn, river and any other non-preflop street name read the same
      table and the same counter. */
  lemma PostflopStreetsShareCursor(m: Manager, s1: string, s2: string)
    requires s1 != "preflop" && s2 != "preflop"
    ensures GetCurrentPlayer(m, s1) == GetCurrentPlayer(m, s2)
    ensures MoveToNextPlayer(m, s1).manager == MoveToNextPlayer(m, s2).manager
  {
  }

  /** A new street starts at its first active entry in table order. */
  lemma AdvanceStartsAtFirstActive(m: Manager, street: string)
    ensures var r := AdvanceToStreet(m, street);
            var table := Table(m, street);
            r.player.Some? ==>
              exists j :: 0 <= j < |table| && table[j] == r.player.value
                && IsActive(m.playerStatus, table[j].player)
                && |ActiveEntries(table[..j], m.playerStatus)| == 0
  {
    var r := AdvanceToStreet(m, street);
    assert Table(r.manager, street) == Table(m, street) && r.manager.playerStatus == m.playerStatus;
    if r.player.Some? {
      CurrentPlayerRank(r.manager, street);
    }
  }

  // ---------------------------------------------------------------------------
  // updatePlayerStatus
  // ---------------------------------------------------------------------------

  /** `Object.keys(playerStatus).filter(p => playerStatus[p] === 'active')`. */
  function ActiveNames(status: map<string, string>): set<string> {
    set k | k in status && status[k] == "active"
  }

  /** The result of `updatePlayerStatus`: the new state and the returned count. */
  datatype StatusUpdate = StatusUpdate(manager: Manager, activeCount: nat)

  /** `updatePlayerStatus(playerName, status)`: writes one status (adding an
      unknown name) and returns how many names are now `'active'`; tables,
      counters and street are untouched. */
  function UpdatePlayerStatus(m: Manager, name: string, status: string): (r: StatusUpdate)
    ensures r.manager.(playerStatus := m.playerStatus) == m
    ensures r.manager.playerStatus == m.playerStatus[name := status]
    ensures r.activeCount == |ActiveNames(r.manager.playerStatus)|
  {
    var next := m.(playerStatus := m.playerStatus[name := status]);
    StatusUpdate(next, |ActiveNames(next.playerStatus)|)
  }

  /** The returned count moves by at most one: down when an active player
      leaves `'active'`, up when a player becomes `'active'`. */
  lemma UpdateCountDelta(m: Manager, name: string, status: string)
    ensures UpdatePlayerStatus(m, name, status).activeCount
         == |ActiveNames(m.playerStatus)|
            - (if IsActive(m.playerStatus, name) then 1 else 0)
            + (if status == "active" then 1 else 0)
  {
    var rest := ActiveNames(m.playerStatus) - {name};
    ActiveNamesUpdate(m.playerStatus, name, status);
    ActiveNamesWithout(m.playerStatus, name);
    if status == "active" {
      assert |rest + {name}| == |rest| + 1;
    }
  }

  /** Writing one status changes the active names at that name only. */
  lemma ActiveNamesUpdate(ps: map<string, string>, name: string, status: string)
    ensures ActiveNames(ps[name := status])
         == if status == "active" then (ActiveNames(ps) - {name}) + {name} else ActiveNames(ps) - {name}
  {
  }

  lemma ActiveNamesWithout(ps: map<string, string>, name: string)
    ensures |ActiveNames(ps)| == |ActiveNames(ps) - {name}| + (if IsActive(ps, name) then 1 else 0)
  {
    var rest := ActiveNames(ps) - {name};
    if IsActive(ps, name) {
      assert ActiveNames(ps) == rest + {name};
    } else {
      assert ActiveNames(ps) == rest;
    }
  }

  /** A player set to anything but `'active'` is never the player to act. */
  lemma InactiveNeverActs(m: Manager, name: string, status: string, street: string)
    requires status != "active"
    ensures var current := GetCurrentPlayer(UpdatePlayerStatus(m, name, status).manager, street);
            current.Some? ==> current.value.player != name
  {
  }

  // ---------------------------------------------------------------------------
  // getActionOrder and isBettingRoundComplete
  // ---------------------------------------------------------------------------

  /** An entry of `getActionOrder`: `{...entry, status, canAct}`. */
  datatype Annotated = Annotated(entry: Entry, status: Option<string>, canAct: bool)

  function Annotate(table: seq<Entry>, status: map<string, string>): (r: seq<Annotated>)
    ensures |r| == |table|
    ensures forall i :: 0 <= i < |r| ==> r[i].entry == table[i]
    ensures forall i :: 0 <= i < |r| ==>
      (r[i].canAct <==> IsActive(status, table[i].player))
      && (r[i].status.Some? <==> table[i].player in status)
  {
    seq(|table|, i requires 0 <= i < |table| =>
      var s := if table[i].player in status then Some(status[table[i].player]) else None;
      Annotated(table[i], s, s == Some("active")))
  }

  /** `getActionOrder(street)`: the street's table with each player's status
      and whether it may act; `[]` for an empty table. */
  function GetActionOrder(m: Manager, street: string): (r: seq<Annotated>)
    ensures |r| == |Table(m, street)|
    ensures forall i :: 0 <= i < |r| ==>
      r[i].entry == Table(m, street)[i]
      && (r[i].canAct <==> IsActive(m.playerStatus, Table(m, street)[i].player))
      && (r[i].status.Some? <==> Table(m, street)[i].player in m.playerStatus)
  {
    var table := Table(m, street);
    if |table| == 0 then [] else Annotate(table, m.playerStatus)
  }

  /** `.filter(p => p.canAct)`. */
  function CanAct(xs: seq<Annotated>): (r: seq<Annotated>)
    decreases |xs|
  {
    if |xs| == 0 then []
    else
      var n := |xs| - 1;
      CanAct(xs[..n]) + (if xs[n].canAct then [xs[n]] else [])
  }

  /** Filtering the annotated table on `canAct` keeps exactly the active
      entries. */
  lemma CanActIsActive(table: seq<Entry>, status: map<string, string>)
    ensures |CanAct(Annotate(table, status))| == |ActiveEntries(table, status)|
    ensures forall x :: x in CanAct(Annotate(table, status)) ==> x.entry in table && IsActive(status, x.entry.player)
    ensures forall i :: 0 <= i < |table| && IsActive(status, table[i].player) ==>
              exists x :: x in CanAct(Annotate(table, status)) && x.entry == table[i]
  {
    CanActCount(table, status);
    CanActSound(table, status);
    forall i | 0 <= i < |table| && IsActive(status, table[i].player)
      ensures exists x :: x in CanAct(Annotate(table, status)) && x.entry == table[i]
    {
      CanActComplete(table, status, i);
    }
  }

  /** One step of `Annotate`: the annotations of a prefix are a prefix of
      the annotations. */
  lemma AnnotatePrefix(table: seq<Entry>, status: map<string, string>)
    requires |table| > 0
    ensures var n := |table| - 1;
            var xs := Annotate(table, status);
            && xs[..n] == Annotate(table[..n], status)
            && CanAct(xs) == CanAct(Annotate(table[..n], status)) + (if xs[n].canAct then [xs[n]] else [])
  {
    var n := |table| - 1;
    var xs := Annotate(table, status);
    assert forall i :: 0 <= i < n ==> table[..n][i] == table[i];
    assert xs[..n] == Annotate(table[..n], status);
  }

  lemma {:induction false} CanActCount(table: seq<Entry>, status: map<string, string>)
    ensures |CanAct(Annotate(table, status))| == |ActiveEntries(table, status)|
    decreases |table|
  {
    if |table| > 0 {
      AnnotatePrefix(table, status);
      CanActCount(table[..|table| - 1], status);
    }
  }

  lemma {:induction false} CanActSound(table: seq<Entry>, status: map<string, string>)
    ensures forall x :: x in CanAct(Annotate(table, status)) ==> x.entry in table && IsActive(status, x.entry.player)
    decreases |table|
  {
    if |table| > 0 {
      var n := |table| - 1;
      AnnotatePrefix(table, status);
      CanActSound(table[..n], status);
      assert forall e :: e in table[..n] ==> e in table;
    }
  }

  lemma {:induction false} CanActComplete(table: seq<Entry>, status: map<string, string>, i: int)
    requires 0 <= i < |table| && IsActive(status, table[i].player)
    ensures exists x :: x in CanAct(Annotate(table, status)) && x.entry == table[i]
    decreases |table|
  {
    var n := |table| - 1;
    var xs := Annotate(table, status);
    AnnotatePrefix(table, status);
    if i == n {
      assert xs[n] in CanAct(xs);
    } else {
      CanActComplete(table[..n], status, i);
      var x :| x in CanAct(Annotate(table[..n], status)) && x.entry == table[..n][i];
      assert x in CanAct(xs);
    }
  }

  /** One action record `{player, action}`. */
  datatype ActionRecord = ActionRecord(player: string, action: Value)

  /** `playerActions`: the action of each truthy player name's last record. */
  function PlayerActions(actions: seq<ActionRecord>): map<string, Value>
    decreases |actions|
  {
    if |actions| == 0 then map[]
    else
      var n := |actions| - 1;
      var prior := PlayerActions(actions[..n]);
      if actions[n].player != "" then prior[actions[n].player := actions[n].action] else prior
  }

  /** Record `j` is the last one for `name`. */
  predicate LastRecord(actions: seq<ActionRecord>, name: string, j: int) {
    0 <= j < |actions| && actions[j].player == name
    && forall k :: j < k < |actions| ==> actions[k].player != name
  }

  /** The player's last record carries an action that is not `undefined`. */
  predicate HasActed(actions: seq<ActionRecord>, name: string) {
    name != "" && exists j :: 0 <= j < |actions| && LastRecord(actions, name, j) && actions[j].action != Undefined
  }

  /** `playerActions[name] !== undefined` holds exactly when the player has
      acted. */
  lemma {:induction false} PlayerActionsLastWins(actions: seq<ActionRecord>, name: string)
    ensures (name in PlayerActions(actions) && PlayerActions(actions)[name] != Undefined)
            <==> HasActed(actions, name)
    decreases |actions|
  {
    if |actions| > 0 {
      var n := |actions| - 1;
      PlayerActionsLastWins(actions[..n], name);
      if actions[n].player != name {
        HasActedSkip(actions, name);
      } else if name != "" {
        HasActedLast(actions, name);
      }
    }
  }

  /** A last record for someone else leaves whether `name` has acted as it
      was. */
  lemma HasActedSkip(actions: seq<ActionRecord>, name: string)
    requires |actions| > 0 && actions[|actions| - 1].player != name
    ensures HasActed(actions, name) <==> HasActed(actions[..|actions| - 1], name)
  {
    var n := |actions| - 1;
    assert forall j :: LastRecord(actions[..n], name, j) ==> LastRecord(actions, name, j);
    assert forall j :: LastRecord(actions, name, j) ==> j < n && LastRecord(actions[..n], name, j);
  }

  /** A last record for `name` decides alone whether `name` has acted. */
  lemma HasActedLast(actions: seq<ActionRecord>, name: string)
    requires |actions| > 0 && actions[|actions| - 1].player == name && name != ""
    ensures HasActed(actions, name) <==> actions[|actions| - 1].action != Undefined
  {
    var n := |actions| - 1;
    assert LastRecord(actions, name, n);
    assert forall j :: LastRecord(actions, name, j) ==> j == n;
  }

  /** `isBettingRoundComplete(street, actions)`: done when at most one entry
      of the street's table is active (an empty table included), or when every
      active entry's player has acted. Amounts are never compared. */
  function IsBettingRoundComplete(m: Manager, street: string, actions: seq<ActionRecord>): (r: bool)
    ensures r <==> |ActiveEntries(Table(m, street), m.playerStatus)| <= 1
                   || forall i :: 0 <= i < |Table(m, street)| && IsActive(m.playerStatus, Table(m, street)[i].player)
                                  ==> HasActed(actions, Table(m, street)[i].player)
  {
    var active := CanAct(GetActionOrder(m, street));
    GetActionOrderAnnotates(m, street);
    CanActCount(Table(m, street), m.playerStatus);
    AllActedIff(m, street, actions);
    if |active| <= 1 then true
    else
      var acted := PlayerActions(actions);
      forall x | x in active :: Acted(acted, x.entry.player)
  }

  /** `playerActions[name] !== undefined`. */
  predicate Acted(acted: map<string, Value>, name: string) {
    name in acted && acted[name] != Undefined
  }

  /** `getActionOrder` annotates the street's table, the empty one included. */
  lemma GetActionOrderAnnotates(m: Manager, street: string)
    ensures GetActionOrder(m, street) == Annotate(Table(m, street), m.playerStatus)
  {
  }

  /** Every entry that can act has acted exactly when every active entry of
      the table has. */
  lemma AllActedIff(m: Manager, street: string, actions: seq<ActionRecord>)
    ensures var table := Table(m, street);
            var acted := PlayerActions(actions);
            (forall x | x in CanAct(GetActionOrder(m, street)) :: Acted(acted, x.entry.player))
            <==> (forall i :: 0 <= i < |table| && IsActive(m.playerStatus, table[i].player) ==> HasActed(actions, table[i].player))
  {
    var table := Table(m, street);
    var acted := PlayerActions(actions);
    var active := CanAct(GetActionOrder(m, street));
    GetActionOrderAnnotates(m, street);
    CanActSound(table, m.playerStatus);
    if forall x | x in active :: Acted(acted, x.entry.player) {
      forall i | 0 <= i < |table| && IsActive(m.playerStatus, table[i].player)
        ensures HasActed(actions, table[i].player)
      {
        CanActComplete(table, m.playerStatus, i);
        PlayerActionsLastWins(actions, table[i].player);
      }
    }
    if forall i :: 0 <= i < |table| && IsActive(m.playerStatus, table[i].player) ==> HasActed(actions, table[i].player) {
      forall x | x in active ensures Acted(acted, x.entry.player) {
        var i :| 0 <= i < |table| && table[i] == x.entry;
        PlayerActionsLastWins(actions, x.entry.player);
      }
    }
  }

  // ---------------------------------------------------------------------------
  // initializeHand and endHand
  // ---------------------------------------------------------------------------

  /** `playerStatus` after `initializeHand`: every supplied name `'active'`. */
  function ActiveStatus(players: seq<Seated>): (r: map<string, string>)
    ensures forall k :: k in r <==> exists i :: 0 <= i < |players| && players[i].name == k
    ensures forall k :: k in r ==> r[k] == "active"
    decreases |players|
  {
    if |players| == 0 then map[]
    else
      var n := |players| - 1;
      assert forall i :: 0 <= i < n ==> players[..n][i] == players[i];
      ActiveStatus(players[..n])[players[n].name := "active"]
  }

  /** `initializeHand(playersInHand, buttonPosition, handNumber)`: every name
      becomes `'active'`, all four counters restart, and the tables are
      position-based when the button validates and sequential otherwise. The
      current street is left as it was. */
  function InitializeHand(m: Manager, players: seq<Seated>, button: Value, handNumber: Value): (r: Manager)
    ensures r.handNumber == handNumber && r.buttonPosition == button
    ensures r.currentStreet == m.currentStreet && r.actionIndex == ZeroCounters
    ensures forall name :: name in r.playerStatus <==> exists i :: 0 <= i < |players| && players[i].name == name
    ensures forall name :: name in r.playerStatus ==> r.playerStatus[name] == "active"
    ensures ValidateButtonPosition(players, button) ==>
              r.preflop == CreatePreflopOrder(players, button)
              && r.postflop == CreatePostflopOrder(players, button)
              && |r.preflop| > 0 && |r.postflop| > 0
    ensures !ValidateButtonPosition(players, button) ==>
              r.preflop == CreateSequentialOrder(players, "preflop")
              && r.postflop == CreateSequentialOrder(players, "postflop")
  {
    var valid := ValidateButtonPosition(players, button);
    ValidButtonTables(players, button);
    Manager(handNumber, button,
            if valid then CreatePreflopOrder(players, button) else CreateSequentialOrder(players, "preflop"),
            if valid then CreatePostflopOrder(players, button) else CreateSequentialOrder(players, "postflop"),
            m.currentStreet, ZeroCounters, ActiveStatus(players))
  }

  /** A validated button gives non-empty position tables. */
  lemma ValidButtonTables(players: seq<Seated>, button: Value)
    ensures ValidateButtonPosition(players, button) ==>
              |CreatePreflopOrder(players, button)| > 0 && |CreatePostflopOrder(players, button)| > 0
  {
    if ValidateButtonPosition(players, button) {
      ValidButtonIsOccupied(players, button);
    }
  }

  /** When every entry is active, the filter keeps the whole table. */
  lemma {:induction false} AllActiveKept(table: seq<Entry>, status: map<string, string>)
    requires forall i :: 0 <= i < |table| ==> IsActive(status, table[i].player)
    ensures ActiveEntries(table, status) == table
    decreases |table|
  {
    if |table| > 0 {
      var n := |table| - 1;
      AllActiveKept(table[..n], status);
      assert table[..n] + [table[n]] == table;
    }
  }

  /** Every entry of `table` names one of `players`. */
  predicate NamesPlayers(table: seq<Entry>, players: seq<Seated>) {
    forall i :: 0 <= i < |table| ==> exists j :: 0 <= j < |players| && players[j].name == table[i].player
  }

  lemma PostflopNamesPlayers(players: seq<Seated>, button: Value)
    requires ButtonOccupied(players, button)
    ensures NamesPlayers(CreatePostflopOrder(players, button), players)
  {
    var post := CreatePostflopOrder(players, button);
    forall i | 0 <= i < |post|
      ensures exists j :: 0 <= j < |players| && players[j].name == post[i].player
    {
      PostflopLastPlayerWins(players, button, i);
    }
  }

  lemma PreflopNamesPlayers(players: seq<Seated>, button: Value)
    requires ButtonOccupied(players, button)
    ensures NamesPlayers(CreatePreflopOrder(players, button), players)
  {
    var pre := CreatePreflopOrder(players, button);
    var post := CreatePostflopOrder(players, button);
    PostflopNamesPlayers(players, button);
    PreflopIsPostflopRotated(players, button);
    var n := |post|;
    forall i | 0 <= i < |pre|
      ensures exists j :: 0 <= j < |players| && players[j].name == pre[i].player
    {
      if n >= 3 {
        ModSmall(i + 2, n);
        assert pre[i].player == post[(i + 2) % n].player;
      } else {
        assert pre[i].player == post[i].player;
      }
    }
  }

  /** Every entry of a freshly built table belongs to a supplied player. */
  lemma InitTablesNamePlayers(players: seq<Seated>, button: Value)
    ensures var valid := ValidateButtonPosition(players, button);
            var pre := if valid then CreatePreflopOrder(players, button) else CreateSequentialOrder(players, "preflop");
            var post := if valid then CreatePostflopOrder(players, button) else CreateSequentialOrder(players, "postflop");
            NamesPlayers(pre, players) && NamesPlayers(post, players)
  {
    if ValidateButtonPosition(players, button) {
      ValidButtonIsOccupied(players, button);
      PreflopNamesPlayers(players, button);
      PostflopNamesPlayers(players, button);
    } else {
      var pre := CreateSequentialOrder(players, "preflop");
      var post := CreateSequentialOrder(players, "postflop");
      assert forall i :: 0 <= i < |pre| ==> players[i].name == pre[i].player;
      assert forall i :: 0 <= i < |post| ==> players[i].name == post[i].player;
    }
  }

  /** With every entry active and the counter at zero, the table's first
      entry is to act. */
  lemma FirstEntryActs(m: Manager, street: string)
    requires |Table(m, street)| > 0 && Counter(m, street) == 0
    requires forall i :: 0 <= i < |Table(m, street)| ==> IsActive(m.playerStatus, Table(m, street)[i].player)
    ensures GetCurrentPlayer(m, street) == Some(Table(m, street)[0])
  {
    AllActiveKept(Table(m, street), m.playerStatus);
  }

  /** When every supplied player is active, so is every entry naming one. */
  lemma NamedAreActive(table: seq<Entry>, players: seq<Seated>, status: map<string, string>)
    requires NamesPlayers(table, players)
    requires forall j :: 0 <= j < |players| ==> IsActive(status, players[j].name)
    ensures forall i :: 0 <= i < |table| ==> IsActive(status, table[i].player)
  {
    forall i | 0 <= i < |table|
      ensures IsActive(status, table[i].player)
    {
      var j :| 0 <= j < |players| && players[j].name == table[i].player;
    }
  }

  /** Right after `initializeHand` the first entry of each table is to act. */
  lemma InitFirstToAct(m: Manager, players: seq<Seated>, button: Value, handNumber: Value, street: string)
    ensures var r := InitializeHand(m, players, button, handNumber);
            |Table(r, street)| > 0 ==> GetCurrentPlayer(r, street) == Some(Table(r, street)[0])
  {
    var r := InitializeHand(m, players, button, handNumber);
    var table := Table(r, street);
    assert NamesPlayers(table, players) by {
      InitTablesNamePlayers(players, button);
    }
    forall j | 0 <= j < |players|
      ensures IsActive(r.playerStatus, players[j].name)
    {
      assert players[j].name in r.playerStatus;
    }
    NamedAreActive(table, players, r.playerStatus);
    if |table| > 0 {
      FirstEntryActs(r, street);
    }
  }

  /** `endHand()`: back to the constructor's state, except that the button
      position is kept. */
  function EndHand(m: Manager): (r: Manager)
    ensures r.buttonPosition == m.buttonPosition
    ensures r.(buttonPosition := NewManager().buttonPosition) == NewManager()
  {
    m.(handNumber := Null, preflop := [], postflop := [], actionIndex := ZeroCounters,
       playerStatus := map[], currentStreet := "preflop")
  }

  /** Ending a hand leaves nothing of it behind but the button it was dealt
      with. */
  lemma EndHandForgetsHand(m: Manager, players: seq<Seated>, button: Value, handNumber: Value)
    ensures EndHand(InitializeHand(m, players, button, handNumber)) == EndHand(m).(buttonPosition := button)
  {
  }

  /** After `endHand` nobody is to act and every betting round counts as
      complete. */
  lemma NothingAfterEndHand(m: Manager, street: string, actions: seq<ActionRecord>)
    ensures GetCurrentPlayer(EndHand(m), street).None?
    ensures IsBettingRoundComplete(EndHand(m), street, actions)
  {
  }

  // ---------------------------------------------------------------------------
  // The turn and river counters
  // ---------------------------------------------------------------------------

  /** The `turn` and `river` counters are never used. */
  predicate TurnRiverUnused(m: Manager) {
    m.actionIndex.turn == 0 && m.actionIndex.river == 0
  }

  /** Every transition keeps the `turn` and `river` counters at zero. */
  lemma TurnRiverStayZero(m: Manager, street: string, name: string, status: string,
                          players: seq<Seated>, button: Value, handNumber: Value)
    requires TurnRiverUnused(m)
    ensures TurnRiverUnused(NewManager())
    ensures TurnRiverUnused(MoveToNextPlayer(m, street).manager)
    ensures TurnRiverUnused(AdvanceToStreet(m, street).manager)
    ensures TurnRiverUnused(UpdatePlayerStatus(m, name, status).manager)
    ensures TurnRiverUnused(InitializeHand(m, players, button, handNumber))
    ensures TurnRiverUnused(EndHand(m))
  {
  }
}
