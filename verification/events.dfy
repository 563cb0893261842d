/** The registry bookkeeping of `EventBus` (core/events.js): per-event
    listener lists, the wildcard set and the statistics, with listeners as
    opaque function identities. What a listener does when it runs is not
    modelled, except whether it throws, which is given as the set of
    listeners that throw. */
module Events {
  import opened Wrappers
  import Helpers

  /** The identity of a function value. */
  type Listener = nat

  /** One entry of an event's list: the function registered and, for the
      wrapper that `once` creates, the listener it forwards to. */
  datatype Registration = Registration(fn: Listener, wraps: Option<Listener>)

  /** The bus: `listeners`, `wildcardListeners` (a set kept in insertion
      order) and `stats`. */
  datatype Bus = Bus(
    listeners: map<string, seq<Registration>>,
    wildcard: seq<Listener>,
    totalEvents: nat,
    totalListeners: int,
    eventCounts: map<string, nat>)

  /** `new EventBus()`. */
  const Fresh: Bus := Bus(map[], [], 0, 0, map[])

  /** `this.listeners.get(event)`, with `[]` for a missing event. */
  function Registrations(b: Bus, event: string): seq<Registration> {
    if event in b.listeners then b.listeners[event] else []
  }

  // ---------------------------------------------------------------------------
  // The listener total
  // ---------------------------------------------------------------------------

  /** Some key of a non-empty map. */
  ghost function Pick(m: map<string, seq<Registration>>): (k: string)
    requires |m| != 0
    ensures k in m
  {
    assert m.Keys != {};
    var k :| k in m; k
  }

  /** The sum of the lengths of all lists. */
  ghost function Total(m: map<string, seq<Registration>>): nat
    decreases |m|
  {
    if |m| == 0 then 0
    else
      var k := Pick(m);
      MapRemove(m, k);
      |m[k]| + Total(m - {k})
  }

  /** The total splits into one list and the rest, whichever list. */
  lemma {:induction false} TotalRemove(m: map<string, seq<Registration>>, k: string)
    requires k in m
    ensures Total(m) == |m[k]| + Total(m - {k})
    decreases |m|
  {
    MapRemove(m, k);
    var j := Pick(m);
    assert Total(m) == |m[j]| + Total(m - {j});
    if j != k {
      var mj := m - {j};
      var mk := m - {k};
      MapRemove(m, j);
      assert k in mj && mj[k] == m[k];
      assert j in mk && mk[j] == m[j];
      TotalRemove(mj, k);
      TotalRemove(mk, j);
      RemoveBoth(m, j, k);
    }
  }

  lemma RemoveBoth(m: map<string, seq<Registration>>, j: string, k: string)
    ensures (m - {j}) - {k} == (m - {k}) - {j}
  {
    assert ((m - {j}) - {k}).Keys == ((m - {k}) - {j}).Keys;
  }

  lemma MapRemove(m: map<string, seq<Registration>>, k: string)
    requires k in m
    ensures |m - {k}| == |m| - 1
  {
    assert (m - {k}).Keys == m.Keys - {k};
  }

  /** Replacing one list changes the total by the difference in length. */
  lemma TotalUpdate(m: map<string, seq<Registration>>, k: string, v: seq<Registration>)
    ensures k in m ==> Total(m[k := v]) == Total(m) - |m[k]| + |v|
    ensures k !in m ==> Total(m[k := v]) == Total(m) + |v|
  {
    TotalOfUpdate(m, k, v);
    TotalDelete(m, k);
  }

  lemma TotalOfUpdate(m: map<string, seq<Registration>>, k: string, v: seq<Registration>)
    ensures Total(m[k := v]) == |v| + Total(m - {k})
  {
    var u := m[k := v];
    TotalRemove(u, k);
    SameRemoved(u, m, k);
  }

  lemma SameRemoved(u: map<string, seq<Registration>>, m: map<string, seq<Registration>>, k: string)
    requires forall j :: j != k ==> (j in u <==> j in m) && (j in u ==> u[j] == m[j])
    ensures u - {k} == m - {k}
  {
  }

  /** Deleting a list takes its length off the total. */
  lemma TotalDelete(m: map<string, seq<Registration>>, k: string)
    ensures Total(m - {k}) == Total(m) - (if k in m then |m[k]| else 0)
  {
    if k in m {
      TotalRemove(m, k);
    } else {
      assert m - {k} == m;
    }
  }

  /** The bookkeeping is right: `totalListeners` is the number of
      registrations, and the wildcard set has no duplicates. */
  ghost predicate Valid(b: Bus) {
    b.totalListeners == Total(b.listeners) && Helpers.Distinct(b.wildcard)
  }

  lemma FreshIsValid()
    ensures Valid(Fresh)
  {
  }

  /** No list is longer than the total. */
  lemma ListenerCountBounded(b: Bus, event: string)
    requires Valid(b)
    ensures ListenerCount(b, event) <= b.totalListeners
  {
    if event in b.listeners {
      TotalRemove(b.listeners, event);
    }
  }

  // ---------------------------------------------------------------------------
  // Registering
  // ---------------------------------------------------------------------------

  /** Appends one registration to the event's list and counts it. */
  function Register(b: Bus, event: string, reg: Registration): (r: Bus)
    ensures Registrations(r, event) == Registrations(b, event) + [reg]
    ensures forall e :: e != event ==> Registrations(r, e) == Registrations(b, e)
    ensures Valid(b) ==> Valid(r)
  {
    TotalUpdate(b.listeners, event, Registrations(b, event) + [reg]);
    b.(listeners := b.listeners[event := Registrations(b, event) + [reg]],
       totalListeners := b.totalListeners + 1)
  }

  /** `on(event, listener)`; `None` is a value that is not a function, which
      is refused. The unsubscribe function it returns is
      `Off(_, event, Some(listener))`. */
  function On(b: Bus, event: string, listener: Option<Listener>): (r: Result<Bus>)
    ensures listener.None? <==> r.Failure?
    ensures r.Failure? ==> r.error == "Event listener must be a function"
    ensures r.Success? ==> && Registrations(r.value, event) == Registrations(b, event) + [Registration(listener.value, None)]
                           && r.value.totalListeners == b.totalListeners + 1
                           && (forall e :: e != event ==> Registrations(r.value, e) == Registrations(b, e))
    ensures r.Success? && Valid(b) ==> Valid(r.value)
  {
    if listener.None? then Failure("Event listener must be a function")
    else Success(Register(b, event, Registration(listener.value, None)))
  }

  /** `once(event, listener)`: registers a new wrapper function `wrapper`
      (the caller supplies its fresh identity) that removes itself and then
      calls the listener. */
  function Once(b: Bus, event: string, listener: Option<Listener>, wrapper: Listener): (r: Result<Bus>)
    ensures listener.None? <==> r.Failure?
    ensures r.Failure? ==> r.error == "Event listener must be a function"
    ensures r.Success? ==> && Registrations(r.value, event) == Registrations(b, event) + [Registration(wrapper, listener)]
                           && r.value.totalListeners == b.totalListeners + 1
    ensures r.Success? && Valid(b) ==> Valid(r.value)
  {
    if listener.None? then Failure("Event listener must be a function")
    else Success(Register(b, event, Registration(wrapper, listener)))
  }

  /** `onAny(listener)`: adds to the wildcard set; adding a member again
      changes nothing. */
  function OnAny(b: Bus, listener: Option<Listener>): (r: Result<Bus>)
    ensures listener.None? <==> r.Failure?
    ensures r.Failure? ==> r.error == "Wildcard listener must be a function"
    ensures r.Success? ==> && (forall l :: l in r.value.wildcard <==> l in b.wildcard || l == listener.value)
                           && r.value.listeners == b.listeners
    ensures r.Success? && Valid(b) ==> Valid(r.value)
  {
    if listener.None? then Failure("Wildcard listener must be a function")
    else if listener.value in b.wildcard then Success(b)
    else
      AddKeepsDistinct(listener.value, b.wildcard);
      Success(b.(wildcard := b.wildcard + [listener.value]))
  }

  lemma AddKeepsDistinct(x: Listener, s: seq<Listener>)
    requires x !in s
    ensures Helpers.Distinct(s) ==> Helpers.Distinct(s + [x])
  {
    if Helpers.Distinct(s) {
      Helpers.DistinctCons(x, s);
    }
  }

  /** `Set.prototype.delete` on the wildcard set: the member goes, the others
      keep their insertion order. */
  function Drop(s: seq<Listener>, x: Listener): (r: seq<Listener>)
    ensures forall l :: l in r <==> l in s && l != x
    ensures Helpers.Distinct(s) ==> Helpers.Distinct(r)
    ensures x !in s ==> r == s
  {
    if |s| == 0 then []
    else
      var rest := Drop(s[1..], x);
      assert forall l :: l in s <==> l == s[0] || l in s[1..];
      assert Helpers.Distinct(s) ==> Helpers.Distinct(s[1..]) && s[0] !in s[1..] by {
        if Helpers.Distinct(s) { Helpers.DistinctTail(s); }
      }
      if s[0] == x then rest
      else
        assert Helpers.Distinct(s) ==> Helpers.Distinct([s[0]] + rest) by {
          if Helpers.Distinct(s) { Helpers.DistinctCons(s[0], rest); }
        }
        [s[0]] + rest
  }

  /** The function `onAny` returns: `wildcardListeners.delete(listener)`. */
  function OffAny(b: Bus, listener: Listener): (r: Bus)
    ensures forall l :: l in r.wildcard <==> l in b.wildcard && l != listener
    ensures r.(wildcard := b.wildcard) == b
    ensures Valid(b) ==> Valid(r)
  {
    b.(wildcard := Drop(b.wildcard, listener))
  }

  lemma {:induction false} DropAppended(s: seq<Listener>, x: Listener)
    requires x !in s
    ensures Drop(s + [x], x) == s
  {
    if |s| > 0 {
      assert (s + [x])[1..] == s[1..] + [x];
      DropAppended(s[1..], x);
    }
  }

  /** The unsubscribe function `onAny` returns undoes the subscription of a
      new wildcard listener. */
  lemma OnAnyThenOffAny(b: Bus, l: Listener)
    requires l !in b.wildcard
    ensures OffAny(OnAny(b, Some(l)).value, l) == b
  {
    DropAppended(b.wildcard, l);
  }

  // ---------------------------------------------------------------------------
  // Removing
  // ---------------------------------------------------------------------------

  /** How many registrations of `fn` a list holds. */
  function CountFn(regs: seq<Registration>, fn: Listener): (n: nat)
    ensures n <= |regs|
    ensures n == 0 <==> forall i :: 0 <= i < |regs| ==> regs[i].fn != fn
  {
    if |regs| == 0 then 0
    else (if regs[0].fn == fn then 1 else 0) + CountFn(regs[1..], fn)
  }

  /** `eventListeners.filter(wrapper => wrapper.fn !== listener)`. */
  function Without(regs: seq<Registration>, fn: Listener): (r: seq<Registration>)
    ensures |r| + CountFn(regs, fn) == |regs|
    ensures forall i :: 0 <= i < |r| ==> r[i].fn != fn
    ensures forall reg :: reg in regs && reg.fn != fn <==> reg in r
  {
    if |regs| == 0 then []
    else if regs[0].fn == fn then Without(regs[1..], fn)
    else [regs[0]] + Without(regs[1..], fn)
  }

  /** Removing registrations that are not there leaves the list as it
      is. */
  lemma {:induction false} WithoutAbsent(regs: seq<Registration>, fn: Listener)
    requires CountFn(regs, fn) == 0
    ensures Without(regs, fn) == regs
  {
    if |regs| > 0 {
      WithoutAbsent(regs[1..], fn);
    }
  }

  /** `off(event, listener)`. With no listener the event's whole list goes
      and its length is returned; with one, every registration of that
      function goes, the rest keep their order, and the number removed is
      returned, the bus being left as it was when that is 0. */
  function Off(b: Bus, event: string, listener: Option<Listener>): (r: (Bus, nat))
    ensures listener.None? ==> && r.1 == |Registrations(b, event)|
                               && event !in r.0.listeners
                               && r.0.totalListeners == b.totalListeners - r.1
    ensures listener.Some? ==> && r.1 == CountFn(Registrations(b, event), listener.value)
                               && CountFn(Registrations(r.0, event), listener.value) == 0
                               && (r.1 == 0 ==> r.0 == b)
                               && (r.1 > 0 ==> Registrations(r.0, event) == Without(Registrations(b, event), listener.value))
                               && r.0.totalListeners == b.totalListeners - r.1
    ensures forall e :: e != event ==> Registrations(r.0, e) == Registrations(b, e)
    ensures r.0.wildcard == b.wildcard && r.0.totalEvents == b.totalEvents && r.0.eventCounts == b.eventCounts
    ensures Valid(b) ==> Valid(r.0)
  {
    if listener.None? then OffAll(b, event) else OffOne(b, event, listener.value)
  }

  /** `off(event)`: the event's whole list goes. */
  function OffAll(b: Bus, event: string): (r: (Bus, nat))
    ensures r.1 == |Registrations(b, event)| && event !in r.0.listeners
    ensures r.0.totalListeners == b.totalListeners - r.1
    ensures forall e :: e != event ==> Registrations(r.0, e) == Registrations(b, e)
    ensures r.0.wildcard == b.wildcard && r.0.totalEvents == b.totalEvents && r.0.eventCounts == b.eventCounts
    ensures Valid(b) ==> Valid(r.0)
  {
    var regs := Registrations(b, event);
    TotalDelete(b.listeners, event);
    (b.(listeners := b.listeners - {event}, totalListeners := b.totalListeners - |regs|), |regs|)
  }

  /** `off(event, listener)`: every registration of that function goes. */
  function OffOne(b: Bus, event: string, l: Listener): (r: (Bus, nat))
    ensures r.1 == CountFn(Registrations(b, event), l)
    ensures CountFn(Registrations(r.0, event), l) == 0
    ensures r.1 == 0 ==> r.0 == b
    ensures r.1 > 0 ==> Registrations(r.0, event) == Without(Registrations(b, event), l)
    ensures r.0.totalListeners == b.totalListeners - r.1
    ensures forall e :: e != event ==> Registrations(r.0, e) == Registrations(b, e)
    ensures r.0.wildcard == b.wildcard && r.0.totalEvents == b.totalEvents && r.0.eventCounts == b.eventCounts
    ensures Valid(b) ==> Valid(r.0)
  {
    var regs := Registrations(b, event);
    if event !in b.listeners then
      (b, 0)
    else
      var filtered := Without(regs, l);
      if |filtered| != |regs| then
        TotalUpdate(b.listeners, event, filtered);
        (b.(listeners := b.listeners[event := filtered], totalListeners := b.totalListeners - (|regs| - |filtered|)),
         |regs| - |filtered|)
      else
        (b, 0)
  }

  /** `removeAllListeners()`: every list and the wildcard set are emptied;
      the event statistics stay. */
  function RemoveAllListeners(b: Bus): (r: Bus)
    ensures forall e :: Registrations(r, e) == [] && ListenerCount(r, e) == 0
    ensures r.wildcard == [] && r.totalListeners == 0 && Valid(r)
    ensures r.totalEvents == b.totalEvents && r.eventCounts == b.eventCounts
  {
    Bus(map[], [], b.totalEvents, 0, b.eventCounts)
  }

  // ---------------------------------------------------------------------------
  // Emitting
  // ---------------------------------------------------------------------------

  /** Whether running a registration throws: a `once` wrapper throws exactly
      when the listener it forwards to does. */
  predicate Throws(reg: Registration, throwing: set<Listener>) {
    (if reg.wraps.Some? then reg.wraps.value else reg.fn) in throwing
  }

  /** How many registrations run without throwing. */
  function Succeeding(regs: seq<Registration>, throwing: set<Listener>): (n: nat)
    ensures n <= |regs|
    ensures n == |regs| <==> forall i :: 0 <= i < |regs| ==> !Throws(regs[i], throwing)
  {
    if |regs| == 0 then 0
    else (if Throws(regs[0], throwing) then 0 else 1) + Succeeding(regs[1..], throwing)
  }

  /** How many wildcard listeners run without throwing. */
  function WildcardSucceeding(ls: seq<Listener>, throwing: set<Listener>): (n: nat)
    ensures n <= |ls|
    ensures n == |ls| <==> forall i :: 0 <= i < |ls| ==> ls[i] !in throwing
  {
    if |ls| == 0 then 0
    else (if ls[0] in throwing then 0 else 1) + WildcardSucceeding(ls[1..], throwing)
  }

  /** How many registrations throw. */
  function Failures(regs: seq<Registration>, throwing: set<Listener>): nat {
    |regs| - Succeeding(regs, throwing)
  }

  /** `eventCounts.get(event) || 0`. */
  function CountOf(counts: map<string, nat>, event: string): nat {
    if event in counts then counts[event] else 0
  }

  /** Between `b` and `r` exactly `nested` `'error'` events were counted:
      each once in the total and once under `'error'`, and no other event
      was counted. */
  ghost predicate Counted(b: Bus, r: Bus, nested: nat) {
    && r.totalEvents == b.totalEvents + nested
    && CountOf(r.eventCounts, "error") == CountOf(b.eventCounts, "error") + nested
    && (forall e :: e != "error" ==> (e in r.eventCounts <==> e in b.eventCounts) && CountOf(r.eventCounts, e) == CountOf(b.eventCounts, e))
  }

  /** What one pass over `regs` of `event` adds to the statistics: each
      throwing registration of an event other than `'error'` raises one
      nested `'error'` event; nothing else is counted. */
  ghost predicate CountsErrors(b: Bus, r: Bus, event: string, regs: seq<Registration>, throwing: set<Listener>) {
    Counted(b, r, if event == "error" then 0 else Failures(regs, throwing))
  }

  lemma CountedTrans(b: Bus, m: Bus, r: Bus, x: nat, y: nat)
    requires Counted(b, m, x) && Counted(m, r, y)
    ensures Counted(b, r, x + y)
  {
  }

  /** The failures of a list are those of its head and of its tail. */
  lemma FailuresCons(regs: seq<Registration>, throwing: set<Listener>)
    requires |regs| > 0
    ensures Failures(regs, throwing) == (if Throws(regs[0], throwing) then 1 else 0) + Failures(regs[1..], throwing)
  {
  }

  /** Counting an `'error'` event is one nested error. */
  lemma TallyError(b: Bus)
    ensures Counted(b, Tally(b, "error"), 1)
  {
  }

  /** No `once` wrapper of the snapshot shares `reg`'s function, so the
      self-removal of the wrappers never reaches `reg`. */
  predicate Spared(snapshot: seq<Registration>, reg: Registration) {
    forall w :: w in snapshot && w.wraps.Some? ==> w.fn != reg.fn
  }

  /** Only `'error'` stops the nesting of error events. */
  function Depth(event: string): nat {
    if event == "error" then 0 else 1
  }

  /** The statistics step at the start of `emit`. */
  function Tally(b: Bus, event: string): (r: Bus)
    ensures r.totalEvents == b.totalEvents + 1
    ensures event in r.eventCounts && r.eventCounts[event] == (if event in b.eventCounts then b.eventCounts[event] else 0) + 1
    ensures forall e :: e != event ==> (e in r.eventCounts <==> e in b.eventCounts)
    ensures forall e :: e != event && e in b.eventCounts ==> r.eventCounts[e] == b.eventCounts[e]
    ensures r.listeners == b.listeners && r.wildcard == b.wildcard && r.totalListeners == b.totalListeners
  {
    var seen := if event in b.eventCounts then b.eventCounts[event] else 0;
    b.(totalEvents := b.totalEvents + 1, eventCounts := b.eventCounts[event := seen + 1])
  }

  /** `emit(event)`: counts the event, runs a snapshot of its list, then the
      wildcard listeners, and returns how many ran without throwing. A
      throwing registration of any event but `'error'` raises a nested
      `'error'` event, whose own count is not added. */
  function Emit(b: Bus, event: string, throwing: set<Listener>): (r: (Bus, nat))
    ensures r.1 == Succeeding(Registrations(b, event), throwing) + WildcardSucceeding(b.wildcard, throwing)
    ensures r.0.totalEvents == b.totalEvents + 1 + (if event == "error" then 0 else Failures(Registrations(b, event), throwing))
    ensures event != "error" ==> CountOf(r.0.eventCounts, event) == CountOf(b.eventCounts, event) + 1
    ensures CountsErrors(Tally(b, event), r.0, event, Registrations(b, event), throwing)
    ensures r.0.wildcard == b.wildcard
    ensures forall e :: e != event && e != "error" ==> Registrations(r.0, e) == Registrations(b, e)
    ensures forall reg :: reg in Registrations(r.0, event) ==> reg in Registrations(b, event)
    ensures forall reg :: reg in Registrations(b, event) && Spared(Registrations(b, event), reg) ==> reg in Registrations(r.0, event)
    ensures Valid(b) ==> Valid(r.0)
    decreases Depth(event), 1, 0
  {
    var counted := Tally(b, event);
    var ran := Run(counted, event, Registrations(counted, event), throwing);
    (ran.0, ran.1 + WildcardSucceeding(ran.0.wildcard, throwing))
  }

  /** The loop over the snapshot: a `once` wrapper first removes itself,
      then its listener runs. */
  function Run(b: Bus, event: string, snapshot: seq<Registration>, throwing: set<Listener>): (r: (Bus, nat))
    ensures r.1 == Succeeding(snapshot, throwing)
    ensures r.0.totalEvents >= b.totalEvents
    ensures CountsErrors(b, r.0, event, snapshot, throwing)
    ensures r.0.wildcard == b.wildcard
    ensures forall e :: e != event && e != "error" ==> Registrations(r.0, e) == Registrations(b, e)
    ensures forall reg :: reg in Registrations(r.0, event) ==> reg in Registrations(b, event)
    ensures forall reg :: reg in Registrations(b, event) && Spared(snapshot, reg) ==> reg in Registrations(r.0, event)
    ensures Valid(b) ==> Valid(r.0)
    decreases Depth(event), 0, |snapshot|
  {
    if |snapshot| == 0 then (b, 0)
    else
      var reg := snapshot[0];
      var b1 := if reg.wraps.Some? then Off(b, event, Some(reg.fn)).0 else b;
      assert forall x :: x in Registrations(b1, event) ==> x in Registrations(b, event);
      var nested := if event == "error" || !Throws(reg, throwing) then 0 else 1;
      var b2 := if nested == 1 then Emit(b1, "error", throwing).0 else b1;
      var rest := Run(b2, event, snapshot[1..], throwing);
      RunStepCounted(b, b1, b2, rest.0, event, snapshot, throwing, nested);
      RunStepSpared(b, b1, b2, rest.0, event, snapshot);
      (rest.0, rest.1 + (if Throws(reg, throwing) then 0 else 1))
  }

  /** A registration no wrapper of the snapshot shares a function with
      survives the first step, and so the whole loop. */
  lemma RunStepSpared(b: Bus, b1: Bus, b2: Bus, r: Bus, event: string, snapshot: seq<Registration>)
    requires |snapshot| > 0
    requires b1 == if snapshot[0].wraps.Some? then Off(b, event, Some(snapshot[0].fn)).0 else b
    requires Registrations(b2, event) == Registrations(b1, event)
    requires forall reg :: reg in Registrations(b2, event) && Spared(snapshot[1..], reg) ==> reg in Registrations(r, event)
    ensures forall reg :: reg in Registrations(b, event) && Spared(snapshot, reg) ==> reg in Registrations(r, event)
  {
    forall reg | reg in Registrations(b, event) && Spared(snapshot, reg) ensures reg in Registrations(r, event) {
      assert snapshot[0] in snapshot;
      assert Spared(snapshot[1..], reg) by {
        forall w | w in snapshot[1..] && w.wraps.Some? ensures w.fn != reg.fn {
          assert w in snapshot;
        }
      }
    }
  }

  /** The statistics of one step of `Run` and of the rest add up. */
  lemma RunStepCounted(b: Bus, b1: Bus, b2: Bus, r: Bus, event: string, snapshot: seq<Registration>,
                       throwing: set<Listener>, nested: nat)
    requires |snapshot| > 0
    requires nested == if event == "error" || !Throws(snapshot[0], throwing) then 0 else 1
    requires b1.totalEvents == b.totalEvents && b1.eventCounts == b.eventCounts
    requires nested == 0 ==> b2 == b1
    requires nested == 1 ==> Counted(Tally(b1, "error"), b2, 0)
    requires CountsErrors(b2, r, event, snapshot[1..], throwing)
    ensures CountsErrors(b, r, event, snapshot, throwing)
  {
    FailuresCons(snapshot, throwing);
    if nested == 1 {
      TallyError(b1);
      CountedTrans(b1, Tally(b1, "error"), b2, 1, 0);
    }
    CountedTrans(b, b2, r, nested, if event == "error" then 0 else Failures(snapshot[1..], throwing));
  }

  /** With no throwing registration, an event is counted exactly once and
      every listener of the snapshot and every wildcard listener that does
      not throw is counted as run. */
  lemma QuietEmit(b: Bus, event: string, throwing: set<Listener>)
    requires forall i :: 0 <= i < |Registrations(b, event)| ==> !Throws(Registrations(b, event)[i], throwing)
    ensures Emit(b, event, throwing).0.totalEvents == b.totalEvents + 1
    ensures Emit(b, event, throwing).1 == |Registrations(b, event)| + WildcardSucceeding(b.wildcard, throwing)
  {
    QuietRun(Tally(b, event), event, Registrations(b, event), throwing);
  }

  lemma {:induction false} QuietRun(b: Bus, event: string, snapshot: seq<Registration>, throwing: set<Listener>)
    requires forall i :: 0 <= i < |snapshot| ==> !Throws(snapshot[i], throwing)
    ensures Run(b, event, snapshot, throwing).0.totalEvents == b.totalEvents
    decreases |snapshot|
  {
    if |snapshot| > 0 {
      var reg := snapshot[0];
      var b1 := if reg.wraps.Some? then Off(b, event, Some(reg.fn)).0 else b;
      QuietRun(b1, event, snapshot[1..], throwing);
    }
  }

  /** A `once` wrapper that ran is gone from the event's list afterwards. */
  lemma {:induction false} RunDropsOnce(b: Bus, event: string, snapshot: seq<Registration>, throwing: set<Listener>, i: nat)
    requires i < |snapshot| && snapshot[i].wraps.Some?
    ensures CountFn(Registrations(Run(b, event, snapshot, throwing).0, event), snapshot[i].fn) == 0
    decreases |snapshot|
  {
    var reg := snapshot[0];
    var b1 := if reg.wraps.Some? then Off(b, event, Some(reg.fn)).0 else b;
    var b2 := if !Throws(reg, throwing) || event == "error" then b1 else Emit(b1, "error", throwing).0;
    assert Run(b, event, snapshot, throwing).0 == Run(b2, event, snapshot[1..], throwing).0;
    if i == 0 {
      assert CountFn(Registrations(b2, event), reg.fn) == 0;
      var after := Run(b2, event, snapshot[1..], throwing).0;
      assert forall x :: x in Registrations(after, event) ==> x in Registrations(b2, event);
      CountFnSubset(Registrations(after, event), Registrations(b2, event), reg.fn);
    } else {
      assert snapshot[1..][i - 1] == snapshot[i];
      RunDropsOnce(b2, event, snapshot[1..], throwing, i - 1);
    }
  }

  /** A list drawn from one without `fn` has no `fn` either. */
  lemma CountFnSubset(small: seq<Registration>, big: seq<Registration>, fn: Listener)
    requires forall x :: x in small ==> x in big
    requires CountFn(big, fn) == 0
    ensures CountFn(small, fn) == 0
  {
    forall i | 0 <= i < |small| ensures small[i].fn != fn {
      assert small[i] in big;
    }
  }

  /** Emitting an event removes every `once` registration it ran. */
  lemma EmitDropsOnce(b: Bus, event: string, throwing: set<Listener>, i: nat)
    requires i < |Registrations(b, event)| && Registrations(b, event)[i].wraps.Some?
    ensures CountFn(Registrations(Emit(b, event, throwing).0, event), Registrations(b, event)[i].fn) == 0
  {
    RunDropsOnce(Tally(b, event), event, Registrations(b, event), throwing, i);
  }

  // ---------------------------------------------------------------------------
  // Queries and namespaces
  // ---------------------------------------------------------------------------

  /** `listenerCount(event)`. */
  function ListenerCount(b: Bus, event: string): (n: nat)
    ensures n == |Registrations(b, event)|
  {
    if event in b.listeners then |b.listeners[event]| else 0
  }

  /** `hasListeners(event)` read as a boolean: the source gives `undefined`
      for an unknown event, and otherwise whether the list is non-empty. */
  predicate HasListeners(b: Bus, event: string) {
    event in b.listeners && |b.listeners[event]| > 0
  }

  lemma HasListenersIffCount(b: Bus, event: string)
    ensures HasListeners(b, event) <==> ListenerCount(b, event) > 0
  {
  }

  /** The unsubscribe function `on` returns undoes the registration: a
      listener registered once is removed with a count of 1, and the event's
      list and the total are as before (an event that had no list keeps an
      empty one). */
  lemma OnThenOff(b: Bus, event: string, l: Listener)
    requires CountFn(Registrations(b, event), l) == 0
    ensures var on := On(b, event, Some(l)).value;
            var off := Off(on, event, Some(l));
            && off.1 == 1
            && Registrations(off.0, event) == Registrations(b, event)
            && off.0.totalListeners == b.totalListeners
            && ListenerCount(off.0, event) == ListenerCount(b, event)
  {
    var regs := Registrations(b, event);
    var on := On(b, event, Some(l)).value;
    assert Registrations(on, event) == regs + [Registration(l, None)];
    RegisteredOnceRemoved(regs, l);
    var off := OffOne(on, event, l);
    assert off.1 == 1;
    assert Registrations(off.0, event) == regs;
  }

  /** Removing a function registered once, at the end, gives back the list
      before it was added, and removes one registration. */
  lemma RegisteredOnceRemoved(regs: seq<Registration>, l: Listener)
    requires CountFn(regs, l) == 0
    ensures CountFn(regs + [Registration(l, None)], l) == 1
    ensures Without(regs + [Registration(l, None)], l) == regs
  {
    WithoutAppend(regs, [Registration(l, None)], l);
    WithoutAbsent(regs, l);
    assert CountFn([Registration(l, None)], l) == 1;
    CountFnAppend(regs, [Registration(l, None)], l);
  }

  lemma {:induction false} WithoutAppend(a: seq<Registration>, c: seq<Registration>, fn: Listener)
    ensures Without(a + c, fn) == Without(a, fn) + Without(c, fn)
    decreases |a|
  {
    if |a| > 0 {
      assert (a + c)[1..] == a[1..] + c;
      WithoutAppend(a[1..], c, fn);
    } else {
      assert a + c == c;
    }
  }

  lemma {:induction false} CountFnAppend(a: seq<Registration>, c: seq<Registration>, fn: Listener)
    ensures CountFn(a + c, fn) == CountFn(a, fn) + CountFn(c, fn)
    decreases |a|
  {
    if |a| > 0 {
      assert (a + c)[1..] == a[1..] + c;
      CountFnAppend(a[1..], c, fn);
    } else {
      assert a + c == c;
    }
  }

  /** Removing the original listener does not remove a `once` registration
      of it: the list holds the wrapper, which is a different function. */
  lemma OffOriginalKeepsOnce(b: Bus, event: string, l: Listener, wrapper: Listener)
    requires wrapper != l
    ensures var once := Once(b, event, Some(l), wrapper).value;
            Registration(wrapper, Some(l)) in Registrations(Off(once, event, Some(l)).0, event)
  {
    var once := Once(b, event, Some(l), wrapper).value;
    assert Registration(wrapper, Some(l)) in Registrations(once, event);
  }

  /** `namespace(name)` works on the event `name + ':' + event`. */
  function Namespaced(name: string, event: string): (r: string)
    ensures |r| == |name| + 1 + |event|
    ensures r[..|name|] == name && r[|name|] == ':' && r[|name| + 1..] == event
  {
    name + ":" + event
  }

  /** Within one namespace different events stay different. */
  lemma NamespacedInjective(name: string, e1: string, e2: string)
    ensures Namespaced(name, e1) == Namespaced(name, e2) <==> e1 == e2
  {
    if Namespaced(name, e1) == Namespaced(name, e2) {
      assert e1 == Namespaced(name, e1)[|name| + 1..];
    }
  }

  /** Across namespaces names can meet, because a namespace or an event may
      itself contain `:`. */
  lemma NamespacesCanMeet()
    ensures Namespaced("a:b", "c") == Namespaced("a", "b:c")
  {
  }
}
