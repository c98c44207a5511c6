/** The background callbacks of `base_instance`, the audio lock that keeps the app running for them, and
    their user `tble`. */
module BackgroundAudio {
  import opened Sequences

  const INVALID_ID := 0
  const ID_SPACE := 0x1_0000_0000

  datatype Handler = App | Detect

  /** The callbacks in the order of the map that holds them, which is by id. */
  datatype Entry = Entry(id: nat, handler: Handler)

  datatype Device = None | Some(peripheral: nat)

  /** `deadline` is `background_scan_ticks_`, `id` is `background_id_`. */
  datatype Ble = Ble(connecting: Device, connected: Device, address: bool, noReconnect: bool, deadline: nat, id: nat)

  datatype State = State(foreground: bool, lock: bool, callbacks: seq<Entry>, last: nat, ble: Ble)

  /** `Broken` is a runtime check that fails, `Hung` the search for an id that never ends. */
  datatype Outcome = Running(s: State) | Broken | Hung

  // ----- Ids -----

  ghost predicate Taken(callbacks: seq<Entry>, id: nat) {
    exists i :: 0 <= i < |callbacks| && callbacks[i].id == id
  }

  ghost predicate Free(callbacks: seq<Entry>, id: nat) {
    INVALID_ID < id < ID_SPACE && !Taken(callbacks, id)
  }

  function Next(id: nat): nat {
    (id + 1) % ID_SPACE
  }

  /** How far the counter has to run to reach an id. */
  function Distance(id: nat, goal: nat): nat
    requires id < ID_SPACE && goal < ID_SPACE
  {
    if id <= goal then goal - id else goal + ID_SPACE - id
  }

  /** The first free id from `id` on, going round. */
  ghost function Search(callbacks: seq<Entry>, id: nat, goal: nat): (r: nat)
    requires id < ID_SPACE && Free(callbacks, goal)
    ensures Free(callbacks, r)
    decreases Distance(id, goal)
  {
    if Free(callbacks, id) then id else Search(callbacks, Next(id), goal)
  }

  lemma {:induction false} SearchIgnoresGoal(callbacks: seq<Entry>, id: nat, goal: nat, other: nat)
    requires id < ID_SPACE && Free(callbacks, goal) && Free(callbacks, other)
    ensures Search(callbacks, id, goal) == Search(callbacks, id, other)
    decreases Distance(id, goal)
  {
    if !Free(callbacks, id) {
      SearchIgnoresGoal(callbacks, Next(id), goal, other);
    }
  }

  function Ids(callbacks: seq<Entry>): set<nat> {
    set i | 0 <= i < |callbacks| :: callbacks[i].id
  }

  function UpTo(n: nat): (r: set<nat>)
    ensures |r| == n && forall k :: k in r <==> 0 < k <= n
  {
    if n == 0 then {} else UpTo(n - 1) + {n}
  }

  lemma {:induction false} IdsBound(callbacks: seq<Entry>)
    ensures |Ids(callbacks)| <= |callbacks|
  {
    if callbacks != [] {
      var n := |callbacks| - 1;
      IdsBound(callbacks[..n]);
      assert Ids(callbacks) == Ids(callbacks[..n]) + {callbacks[n].id};
    }
  }

  lemma {:induction false} SubsetSize<T>(a: set<T>, b: set<T>)
    requires a <= b
    ensures |a| <= |b|
  {
    if a != {} {
      var x :| x in a;
      SubsetSize(a - {x}, b - {x});
    }
  }

  predicate Full(callbacks: seq<Entry>) {
    |callbacks| >= ID_SPACE - 1
  }

  /** With fewer than 2^32 - 1 callbacks some id is free. */
  lemma SomeFree(callbacks: seq<Entry>)
    requires !Full(callbacks)
    ensures exists id :: Free(callbacks, id)
  {
    if forall id :: !Free(callbacks, id) {
      IdsBound(callbacks);
      var all := UpTo(ID_SPACE - 1);
      forall k | k in all ensures k in Ids(callbacks) {
        assert !Free(callbacks, k);
      }
      SubsetSize(all, Ids(callbacks));
    }
  }

  ghost function FreshId(callbacks: seq<Entry>, last: nat): (r: nat)
    requires !Full(callbacks)
    ensures Free(callbacks, r)
  {
    SomeFree(callbacks);
    var goal :| Free(callbacks, goal);
    Search(callbacks, Next(last), goal)
  }

  lemma FreshIdIsFound(callbacks: seq<Entry>, last: nat, goal: nat)
    requires !Full(callbacks) && Free(callbacks, goal)
    ensures FreshId(callbacks, last) == Search(callbacks, Next(last), goal)
  {
    forall g | Free(callbacks, g) ensures Search(callbacks, Next(last), g) == Search(callbacks, Next(last), goal) {
      SearchIgnoresGoal(callbacks, Next(last), g, goal);
    }
  }

  // ----- Connecting and disconnecting -----

  function Insert(callbacks: seq<Entry>, e: Entry): (r: seq<Entry>) {
    if callbacks == [] || e.id < callbacks[0].id then [e] + callbacks
    else [callbacks[0]] + Insert(callbacks[1..], e)
  }

  ghost function Connect(s: State, h: Handler): Outcome {
    if !s.foreground && s.callbacks == [] && s.lock then Broken
    else
      var lock := s.lock || (!s.foreground && s.callbacks == []);
      if !s.foreground && !lock then Broken
      else if Full(s.callbacks) then Hung
      else
        var id := FreshId(s.callbacks, s.last);
        Running(s.(lock := lock, last := id, callbacks := Insert(s.callbacks, Entry(id, h))))
  }

  ghost function Connects(s: State, n: nat): Outcome
    decreases n
  {
    if n == 0 then Running(s)
    else
      var r := Connect(s, App);
      if r.Running? then Connects(r.s, n - 1) else r
  }

  /** `background_disconnect_th`, then the erasure of the entry. */
  function Disconnect(s: State, i: nat): Outcome
    requires i < |s.callbacks|
  {
    if !s.foreground && !s.lock then Broken
    else
      var lock := s.lock && (s.foreground || |s.callbacks| != 1);
      Running(s.(lock := lock, callbacks := Without(s.callbacks, i)))
  }

  // ----- A tick -----

  /** The detection is over: the connection came back, or the time is up. */
  predicate Over(b: Ble, now: nat) {
    (b.id == INVALID_ID && b.deadline == 0) || (b.deadline != 0 && now >= b.deadline)
  }

  predicate Erases(e: Entry, b: Ble, now: nat, done: set<nat>) {
    if e.handler == Detect then Over(b, now) else e.id in done
  }

  function Cleared(b: Ble): Ble {
    b.(deadline := 0, id := INVALID_ID)
  }

  /** The walk of `handle_background`; `done` are the app's callbacks that ask to be erased. */
  function TickFrom(s: State, i: nat, now: nat, done: set<nat>): Outcome
    requires i <= |s.callbacks|
    decreases |s.callbacks| - i
  {
    if i == |s.callbacks| then Running(s)
    else
      var e := s.callbacks[i];
      if !Erases(e, s.ble, now, done) then TickFrom(s, i + 1, now, done)
      else if e.handler == Detect && s.ble.deadline != 0 && s.ble.id == INVALID_ID then Broken
      else
        var r := Disconnect(s.(ble := if e.handler == Detect then Cleared(s.ble) else s.ble), i);
        if r.Running? then TickFrom(r.s, i, now, done) else r
  }

  // ----- The scan -----

  /** `start_scan` at time `now`: in the background it also starts the detection, unless it already runs. */
  ghost function StartScan(s: State, now: nat, threshold: nat): Outcome {
    var b := s.ble;
    if !s.foreground && b.address && b.connecting == None && b.connected == None && b.id == INVALID_ID then
      var t := s.(ble := b.(deadline := (now + threshold) % ID_SPACE));
      match Connect(t, Detect)
      case Running(u) => Running(u.(ble := u.ble.(id := u.last)))
      case other => other
    else Running(s)
  }

  datatype Event =
    | AppConnects                                  // `background_connect`
    | Tick(now: nat, done: set<nat>)               // `handle_background`
    | EnterBackground(hook: nat, now: nat)         // the app's hook connects `hook` callbacks
    | EnterForeground(hook: nat, now: nat)
    | Scan(now: nat)                               // `start_scan`
    | ConnectPeripheral(p: nat)
    | DropPeripheral                               // `disconnect_peripheral`
    | Released(p: nat)                             // `did_release_peripheral`
    | DidConnect(p: nat, error: bool)
    | DidDisconnect(p: nat, error: bool, now: nat)
    | SetAddress(valid: bool)
    | SetNoReconnect(on: bool)                     // `disable_reconnect_`

  ghost function BleEvent(s: State, background: bool, now: nat, threshold: nat): Outcome {
    var t := if background then s else s.(ble := Cleared(s.ble));
    if t.ble.connecting == None && t.ble.connected == None then StartScan(t, now, threshold) else Running(t)
  }

  ghost function ToBackground(s: State, hook: nat, now: nat, threshold: nat): Outcome {
    match Connects(s, hook)
    case Running(t) =>
      if t.lock then Broken
      else BleEvent(t.(foreground := false, lock := t.callbacks != []), true, now, threshold)
    case other => other
  }

  ghost function ToForeground(s: State, hook: nat, now: nat, threshold: nat): Outcome {
    if s.lock != (s.callbacks != []) then Broken
    else
      match Connects(s.(lock := false, callbacks := []), hook)
      case Running(t) => BleEvent(t.(foreground := true), false, now, threshold)
      case other => other
  }

  ghost function Step(s: State, e: Event, threshold: nat): Outcome {
    var b := s.ble;
    match e
    case AppConnects => Connect(s, App)
    case Tick(now, done) => TickFrom(s, 0, now, done)
    case EnterBackground(hook, now) => ToBackground(s, hook, now, threshold)
    case EnterForeground(hook, now) => ToForeground(s, hook, now, threshold)
    case Scan(now) => StartScan(s, now, threshold)
    case ConnectPeripheral(p) =>
      if b.connecting != None || b.connected != None then Broken
      else Running(s.(ble := b.(connecting := Some(p))))
    case DropPeripheral =>
      Running(if b.connected == None then s.(ble := b.(connecting := None)) else s)
    case Released(p) =>
      if b.connected == Some(p) then Broken
      else Running(if b.connecting == Some(p) then s.(ble := b.(connecting := None)) else s)
    case DidConnect(p, error) =>
      if b.connecting != None then
        Running(s.(ble := Cleared(if error then b else b.(connecting := None, connected := Some(p)))))
      else if !error && b.connected != None then Broken
      else Running(s.(ble := Cleared(b)))
    case DidDisconnect(p, error, now) =>
      if b.connected != None && b.connected != Some(p) then Broken
      else if b.connected == None && !error && b.connecting != None then Broken
      else
        var t := s.(ble := b.(connected := None));
        if b.noReconnect then Running(t) else StartScan(t, now, threshold)
    case SetAddress(valid) => Running(s.(ble := b.(address := valid)))
    case SetNoReconnect(on) => Running(s.(ble := b.(noReconnect := on)))
  }

  // ----- What every step keeps -----

  ghost predicate Ordered(callbacks: seq<Entry>) {
    && (forall i :: 0 <= i < |callbacks| ==> INVALID_ID < callbacks[i].id < ID_SPACE)
    && forall i, j :: 0 <= i < j < |callbacks| ==> callbacks[i].id < callbacks[j].id
  }

  ghost predicate Locked(s: State) {
    s.lock <==> !s.foreground && s.callbacks != []
  }

  /** A running detection is registered, and its id is known before its deadline can pass. */
  ghost predicate Registered(s: State) {
    && (s.ble.deadline != 0 ==> s.ble.id != INVALID_ID)
    && (s.ble.id != INVALID_ID ==> Entry(s.ble.id, Detect) in s.callbacks)
  }

  ghost predicate Inv(s: State) {
    Ordered(s.callbacks) && Locked(s) && Registered(s)
  }

  /** The environment keeps its side: the app's state alternates, no callback is connected while the app
      comes back to the foreground, and the device reports what it was asked for. */
  predicate Legal(s: State, e: Event) {
    var b := s.ble;
    match e
    case EnterBackground(hook, now) => s.foreground || (hook == 0 && s.callbacks == [])
    case EnterForeground(hook, now) => if s.foreground then s.callbacks == [] else hook == 0
    case ConnectPeripheral(p) => b.connecting == None && b.connected == None
    case Released(p) => b.connected != Some(p)
    case DidConnect(p, error) => b.connecting == None && !error ==> b.connected == None
    case DidDisconnect(p, error, now) =>
      if b.connected != None then b.connected == Some(p) else error || b.connecting == None
    case _ => true
  }

  ghost predicate Safe(r: Outcome) {
    r == Hung || (r.Running? && Inv(r.s))
  }

  lemma {:induction false} InsertHolds(callbacks: seq<Entry>, e: Entry)
    ensures forall x :: x in Insert(callbacks, e) <==> x in callbacks || x == e
    ensures |Insert(callbacks, e)| == |callbacks| + 1
  {
    if callbacks != [] && e.id >= callbacks[0].id {
      InsertHolds(callbacks[1..], e);
      assert callbacks == [callbacks[0]] + callbacks[1..];
    }
  }

  lemma {:induction false} InsertOrdered(callbacks: seq<Entry>, e: Entry)
    requires Ordered(callbacks) && Free(callbacks, e.id)
    ensures Ordered(Insert(callbacks, e))
  {
    if callbacks != [] && e.id >= callbacks[0].id {
      var rest := callbacks[1..];
      forall i | 0 <= i < |rest| ensures rest[i].id != e.id {
        assert rest[i] == callbacks[i + 1];
      }
      InsertOrdered(rest, e);
      InsertHolds(rest, e);
      var out := Insert(rest, e);
      forall i | 0 <= i < |out| ensures callbacks[0].id < out[i].id {
        assert out[i] in rest || out[i] == e;
      }
    }
  }

  /** Connecting in good order takes the lock when it is due, and hands out an id that is valid and was not in use. */
  lemma ConnectIsSafe(s: State, h: Handler)
    requires Inv(s)
    ensures Full(s.callbacks) <==> Connect(s, h) == Hung
    ensures !Full(s.callbacks) ==> Safe(Connect(s, h))
    ensures !Full(s.callbacks) ==>
              var t := Connect(s, h).s;
              && Free(s.callbacks, t.last) && t.ble == s.ble && t.foreground == s.foreground
              && (forall x :: x in t.callbacks <==> x in s.callbacks || x == Entry(t.last, h))
              && t.callbacks != []
  {
    if !Full(s.callbacks) {
      var e := Entry(FreshId(s.callbacks, s.last), h);
      InsertHolds(s.callbacks, e);
      InsertOrdered(s.callbacks, e);
    }
  }

  lemma {:induction false} ConnectsAreSafe(s: State, n: nat)
    requires Inv(s)
    ensures Safe(Connects(s, n))
    ensures Connects(s, n).Running? ==>
              Connects(s, n).s.foreground == s.foreground && Connects(s, n).s.ble == s.ble
    decreases n
  {
    if n > 0 {
      ConnectIsSafe(s, App);
      if Connect(s, App).Running? {
        ConnectsAreSafe(Connect(s, App).s, n - 1);
      }
    }
  }

  lemma RemoveKeeps(callbacks: seq<Entry>, i: nat)
    requires Ordered(callbacks) && i < |callbacks|
    ensures Ordered(Without(callbacks, i))
    ensures forall x :: x in Without(callbacks, i) <==> x in callbacks && x != callbacks[i]
  {
    var out := Without(callbacks, i);
    forall x | x in callbacks && x != callbacks[i] ensures x in out {
      var k :| 0 <= k < |callbacks| && callbacks[k] == x;
      assert out[if k < i then k else k - 1] == x;
    }
    forall k | 0 <= k < |out| ensures out[k] in callbacks && out[k] != callbacks[i] {
      assert out[k] == callbacks[if k < i then k else k + 1];
    }
  }

  lemma StartScanIsSafe(s: State, now: nat, threshold: nat)
    requires Inv(s)
    ensures Safe(StartScan(s, now, threshold))
  {
    var b := s.ble;
    if !s.foreground && b.address && b.connecting == None && b.connected == None && b.id == INVALID_ID {
      var t := s.(ble := b.(deadline := 0));
      ConnectIsSafe(t, Detect);
      ConnectIgnoresDeadline(s, (now + threshold) % ID_SPACE, Detect);
    }
  }

  lemma ConnectIgnoresDeadline(s: State, d: nat, h: Handler)
    ensures Connect(s.(ble := s.ble.(deadline := d)), h) ==
            (match Connect(s.(ble := s.ble.(deadline := 0)), h)
             case Running(t) => Running(t.(ble := s.ble.(deadline := d)))
             case other => other)
  {
  }

  // ----- A tick is a filter -----

  /** What stays after a tick: all detection callbacks or none of them, and the app's callbacks that are not done. */
  function Kept(callbacks: seq<Entry>, b: Ble, now: nat, done: set<nat>): seq<Entry> {
    if callbacks == [] then []
    else if Erases(callbacks[0], b, now, done) then Kept(callbacks[1..], b, now, done)
    else [callbacks[0]] + Kept(callbacks[1..], b, now, done)
  }

  predicate Detecting(callbacks: seq<Entry>) {
    exists i :: 0 <= i < |callbacks| && callbacks[i].handler == Detect
  }

  ghost predicate Ticked(s: State, i: nat, now: nat, done: set<nat>, r: Outcome)
    requires i <= |s.callbacks|
  {
    && r.Running? && Inv(r.s)
    && r.s.callbacks == s.callbacks[..i] + Kept(s.callbacks[i..], s.ble, now, done)
    && r.s.ble == (if Over(s.ble, now) && Detecting(s.callbacks[i..]) then Cleared(s.ble) else s.ble)
    && r.s.foreground == s.foreground && r.s.last == s.last
  }

  /** The walk erases while it iterates and clears the detection on the way; it comes to one filter with the
      state before. */
  lemma {:induction false} TickIsFilter(s: State, i: nat, now: nat, done: set<nat>)
    requires Inv(s) && i <= |s.callbacks|
    ensures Ticked(s, i, now, done, TickFrom(s, i, now, done))
    decreases |s.callbacks| - i
  {
    if i < |s.callbacks| {
      var e := s.callbacks[i];
      if !Erases(e, s.ble, now, done) {
        TickIsFilter(s, i + 1, now, done);
        TickSkips(s, i, now, done, TickFrom(s, i + 1, now, done));
      } else {
        var t := EraseIsSafe(s, i, now, done);
        TickIsFilter(t, i, now, done);
        TickErases(s, i, now, done, t, TickFrom(t, i, now, done));
      }
    }
  }

  lemma EraseIsSafe(s: State, i: nat, now: nat, done: set<nat>) returns (t: State)
    requires Inv(s) && i < |s.callbacks| && Erases(s.callbacks[i], s.ble, now, done)
    ensures Disconnect(s, i).Running? && Inv(t) && |t.callbacks| == |s.callbacks| - 1
    ensures t == Disconnect(s, i).s.(ble := if s.callbacks[i].handler == Detect then Cleared(s.ble) else s.ble)
    ensures TickFrom(s, i, now, done) == TickFrom(t, i, now, done)
  {
    RemoveKeeps(s.callbacks, i);
    t := Disconnect(s, i).s.(ble := if s.callbacks[i].handler == Detect then Cleared(s.ble) else s.ble);
    TickUnfolds(s, i, now, done);
  }

  lemma TickUnfolds(s: State, i: nat, now: nat, done: set<nat>)
    requires i < |s.callbacks| && Disconnect(s, i).Running? && Erases(s.callbacks[i], s.ble, now, done)
    requires s.ble.deadline != 0 ==> s.ble.id != INVALID_ID
    ensures var t := Disconnect(s, i).s.(ble := if s.callbacks[i].handler == Detect then Cleared(s.ble) else s.ble);
            TickFrom(s, i, now, done) == TickFrom(t, i, now, done)
  {
    var b := if s.callbacks[i].handler == Detect then Cleared(s.ble) else s.ble;
    assert Disconnect(s.(ble := b), i) == Running(Disconnect(s, i).s.(ble := b));
  }

  lemma TickSkips(s: State, i: nat, now: nat, done: set<nat>, r: Outcome)
    requires i < |s.callbacks| && !Erases(s.callbacks[i], s.ble, now, done) && Ticked(s, i + 1, now, done, r)
    ensures Ticked(s, i, now, done, r)
  {
    var rest := s.callbacks[i..];
    assert rest[1..] == s.callbacks[i + 1..] && rest[0] == s.callbacks[i];
    assert s.callbacks[..i + 1] == s.callbacks[..i] + [rest[0]];
    if Over(s.ble, now) && Detecting(rest) {
      var k :| 0 <= k < |rest| && rest[k].handler == Detect;
      assert rest[1..][k - 1] == rest[k];
    }
  }

  lemma TickErases(s: State, i: nat, now: nat, done: set<nat>, t: State, r: Outcome)
    requires i < |s.callbacks| && Erases(s.callbacks[i], s.ble, now, done) && Disconnect(s, i).Running?
    requires t == Disconnect(s, i).s.(ble := if s.callbacks[i].handler == Detect then Cleared(s.ble) else s.ble)
    requires Ticked(t, i, now, done, r)
    ensures Ticked(s, i, now, done, r)
  {
    var rest := s.callbacks[i..];
    assert t.callbacks[i..] == rest[1..] && rest[0] == s.callbacks[i];
    assert t.callbacks[..i] == s.callbacks[..i];
    if s.callbacks[i].handler == Detect {
      KeptCleared(rest[1..], s.ble, now, done);
    } else if Over(s.ble, now) && Detecting(rest) {
      var k :| 0 <= k < |rest| && rest[k].handler == Detect;
      assert rest[1..][k - 1] == rest[k];
    }
  }

  lemma {:induction false} KeptCleared(callbacks: seq<Entry>, b: Ble, now: nat, done: set<nat>)
    requires Over(b, now)
    ensures Kept(callbacks, Cleared(b), now, done) == Kept(callbacks, b, now, done)
  {
    if callbacks != [] {
      KeptCleared(callbacks[1..], b, now, done);
    }
  }

  // ----- Steps and runs -----

  lemma ToBackgroundIsSafe(s: State, hook: nat, now: nat, threshold: nat)
    requires Inv(s) && (s.foreground || (hook == 0 && s.callbacks == []))
    ensures Safe(ToBackground(s, hook, now, threshold))
  {
    ConnectsAreSafe(s, hook);
    var r := Connects(s, hook);
    if r.Running? {
      StartScanIsSafe(r.s.(foreground := false, lock := r.s.callbacks != []), now, threshold);
    }
  }

  lemma ToForegroundIsSafe(s: State, hook: nat, now: nat, threshold: nat)
    requires Inv(s) && (if s.foreground then s.callbacks == [] else hook == 0)
    ensures Safe(ToForeground(s, hook, now, threshold))
  {
    var t := s.(lock := false, callbacks := []);
    var cleared := t.(ble := Cleared(s.ble));
    ConnectsAreSafe(cleared, hook);
    ConnectsIgnoreBle(t, Cleared(s.ble), hook);
    var r := Connects(cleared, hook);
    if r.Running? {
      StartScanIsSafe(r.s.(foreground := true), now, threshold);
    }
  }

  lemma {:induction false} ConnectsIgnoreBle(s: State, b: Ble, n: nat)
    ensures Connects(s.(ble := b), n) ==
            (match Connects(s, n) case Running(t) => Running(t.(ble := b)) case other => other)
    ensures Connects(s, n).Running? ==> Connects(s, n).s.ble == s.ble
    decreases n
  {
    if n > 0 && Connect(s, App).Running? {
      ConnectsIgnoreBle(Connect(s, App).s, b, n - 1);
    }
  }

  /** No step that the environment may take makes a runtime check fail, and each keeps the invariant. */
  lemma StepIsSafe(s: State, e: Event, threshold: nat)
    requires Inv(s) && Legal(s, e)
    ensures Safe(Step(s, e, threshold))
  {
    match e
    case AppConnects => ConnectIsSafe(s, App);
    case Tick(now, done) => TickIsFilter(s, 0, now, done);
    case EnterBackground(hook, now) => ToBackgroundIsSafe(s, hook, now, threshold);
    case EnterForeground(hook, now) => ToForegroundIsSafe(s, hook, now, threshold);
    case Scan(now) => StartScanIsSafe(s, now, threshold);
    case DidDisconnect(p, error, now) =>
      if !s.ble.noReconnect {
        StartScanIsSafe(s.(ble := s.ble.(connected := None)), now, threshold);
      }
    case _ =>
  }

  ghost function Run(s: State, es: seq<Event>, threshold: nat): Outcome
    decreases |es|
  {
    if es == [] then Running(s)
    else
      var r := Step(s, es[0], threshold);
      if r.Running? then Run(r.s, es[1..], threshold) else r
  }

  ghost predicate LegalRun(s: State, es: seq<Event>, threshold: nat)
    decreases |es|
  {
    es == [] ||
    (Legal(s, es[0]) &&
     (Step(s, es[0], threshold).Running? ==> LegalRun(Step(s, es[0], threshold).s, es[1..], threshold)))
  }

  const START := State(true, false, [], INVALID_ID, Ble(None, None, false, false, 0, INVALID_ID))

  lemma {:induction false} RunIsSafe(s: State, es: seq<Event>, threshold: nat)
    requires Inv(s) && LegalRun(s, es, threshold)
    ensures Safe(Run(s, es, threshold))
    decreases |es|
  {
    if es != [] {
      StepIsSafe(s, es[0], threshold);
      var r := Step(s, es[0], threshold);
      if r.Running? {
        RunIsSafe(r.s, es[1..], threshold);
      }
    }
  }

  /** The run of an app, from its start on. */
  lemma RunFromStartIsSafe(es: seq<Event>, threshold: nat)
    requires LegalRun(START, es, threshold)
    ensures Safe(Run(START, es, threshold))
  {
    RunIsSafe(START, es, threshold);
  }

  /** Each thing the environment may not do breaks a check: at once, unless the app's own hook already
      hangs in its search for an id; or, for callbacks connected on the way back to the foreground, at the
      next move to the background. */
  lemma IllegalStepBreaks(s: State, e: Event, threshold: nat, hook: nat, now: nat)
    requires Inv(s) && !Legal(s, e)
    ensures !e.EnterBackground? && !e.EnterForeground? ==> Step(s, e, threshold) == Broken
    ensures e.EnterBackground? ==>
              Step(s, e, threshold) == if Connects(s, e.hook) == Hung then Hung else Broken
    ensures e.EnterForeground? && !Step(s, e, threshold).Running? ==>
              Step(s, e, threshold) == if s.foreground then Broken else Hung
    ensures var r := Step(s, e, threshold);
            r.Running? && Connects(r.s, hook).Running? ==>
              e.EnterForeground? && e.hook > 0 && Step(r.s, EnterBackground(hook, now), threshold) == Broken
  {
    var r := Step(s, e, threshold);
    if e.EnterBackground? {
      ConnectsAreSafe(s, e.hook);
      if Connects(s, e.hook).Running? {
        LockStays(s, e.hook);
      }
    } else if e.EnterForeground? {
      if !s.foreground {
        ForegroundHangs(s, e.hook, e.now, threshold);
      }
      if r.Running? && Connects(r.s, hook).Running? {
        LockStays(s.(lock := false, callbacks := []), e.hook);
        LockStays(r.s, hook);
      }
    }
  }

  /** Coming back from the background breaks no check by itself, whatever the hook connects. */
  lemma ForegroundHangs(s: State, hook: nat, now: nat, threshold: nat)
    requires Inv(s) && !s.foreground
    ensures ToForeground(s, hook, now, threshold) != Broken
  {
    var t := s.(lock := false, callbacks := []);
    ConnectsAreSafe(t.(ble := Cleared(s.ble)), hook);
    ConnectsIgnoreBle(t, Cleared(s.ble), hook);
  }

  /** Connecting never lets go of the lock, and in the background it takes it. */
  lemma {:induction false} LockStays(s: State, n: nat)
    requires Connects(s, n).Running?
    ensures s.lock || (!s.foreground && n > 0) ==> Connects(s, n).s.lock
    ensures Connects(s, n).s.foreground == s.foreground
    decreases n
  {
    if n > 0 {
      LockStays(Connect(s, App).s, n - 1);
    }
  }

  // ----- The reports of the device -----

  /** What the device does for the app: nothing, a connection that it tries to make, or one that is up. */
  datatype Link = Idle | Asked(p: nat) | Up(p: nat)

  function After(l: Link, e: Event): Link {
    match e
    case ConnectPeripheral(p) => Asked(p)
    case DidConnect(p, error) => if error then Idle else Up(p)
    case DidDisconnect(_, _, _) => Idle
    case Released(p) => if l == Asked(p) then Idle else l
    case _ => l
  }

  /** The device works for one peripheral at a time and reports only what it was asked for; the app asks for
      a connection only when the last one is over and done with. */
  predicate Reports(s: State, l: Link, e: Event) {
    match e
    case EnterBackground(_, _) => Legal(s, e)
    case EnterForeground(_, _) => Legal(s, e)
    case ConnectPeripheral(_) => l == Idle && s.ble.connecting == None
    case Released(p) => l != Up(p)
    case DidConnect(p, _) => l == Asked(p)
    case DidDisconnect(p, _, _) => l == Up(p)
    case _ => true
  }

  /** The app's two flags follow the device. */
  ghost predicate Follows(b: Ble, l: Link) {
    (b.connected != None ==> l == Up(b.connected.peripheral)) && (l.Up? ==> b.connecting == None) &&
    (l.Asked? && b.connecting != None ==> l == Asked(b.connecting.peripheral))
  }

  predicate SameFlags(b: Ble, c: Ble) {
    b.connecting == c.connecting && b.connected == c.connected
  }

  lemma FlagsStay(s: State, e: Event, threshold: nat)
    requires Inv(s) && Legal(s, e) && Step(s, e, threshold).Running?
    requires e.AppConnects? || e.Tick? || e.EnterBackground? || e.EnterForeground? || e.Scan?
    ensures SameFlags(Step(s, e, threshold).s.ble, s.ble)
  {
    match e
    case AppConnects =>
    case Tick(now, done) => TickIsFilter(s, 0, now, done);
    case EnterBackground(hook, now) => ConnectsAreSafe(s, hook);
    case EnterForeground(hook, now) => ConnectsIgnoreBle(s.(lock := false, callbacks := []), s.ble, hook);
    case Scan(now) =>
  }

  /** With such a device the checks on the two flags hold by themselves. */
  lemma DeviceKeeps(s: State, l: Link, e: Event, threshold: nat)
    requires Inv(s) && Follows(s.ble, l) && Reports(s, l, e)
    ensures Legal(s, e)
    ensures Step(s, e, threshold).Running? ==> Follows(Step(s, e, threshold).s.ble, After(l, e))
  {
    if (e.AppConnects? || e.Tick? || e.EnterBackground? || e.EnterForeground? || e.Scan?) &&
        Step(s, e, threshold).Running? {
      FlagsStay(s, e, threshold);
    }
  }

  ghost predicate DeviceRun(s: State, l: Link, es: seq<Event>, threshold: nat)
    decreases |es|
  {
    es == [] ||
    (Reports(s, l, es[0]) &&
     (Step(s, es[0], threshold).Running? ==>
        DeviceRun(Step(s, es[0], threshold).s, After(l, es[0]), es[1..], threshold)))
  }

  lemma {:induction false} DeviceRunIsLegal(s: State, l: Link, es: seq<Event>, threshold: nat)
    requires Inv(s) && Follows(s.ble, l) && DeviceRun(s, l, es, threshold)
    ensures LegalRun(s, es, threshold)
    decreases |es|
  {
    if es != [] {
      DeviceKeeps(s, l, es[0], threshold);
      StepIsSafe(s, es[0], threshold);
      if Step(s, es[0], threshold).Running? {
        DeviceRunIsLegal(Step(s, es[0], threshold).s, After(l, es[0]), es[1..], threshold);
      }
    }
  }

  /** No runtime check fails in the run of an app with a device that makes one connection at a time. */
  lemma RunWithDeviceIsSafe(es: seq<Event>, threshold: nat)
    requires DeviceRun(START, Idle, es, threshold)
    ensures Safe(Run(START, es, threshold))
  {
    DeviceRunIsLegal(START, Idle, es, threshold);
    RunFromStartIsSafe(es, threshold);
  }

  /** A device that works on two requests at once breaks a check: a connection given up before it is made is
      reported first, taken for the one asked for next, and is in the way of it. */
  lemma TwoRequestsBreak(p: nat, q: nat, threshold: nat)
    ensures var es := [ConnectPeripheral(p), DropPeripheral, ConnectPeripheral(q), DidConnect(p, false),
                       DidConnect(q, false)];
            Run(START, es, threshold) == Broken
  {
    var e4 := [Event.DidConnect(q, false)];
    var e3 := [Event.DidConnect(p, false)] + e4;
    var e2 := [ConnectPeripheral(q)] + e3;
    var e1 := [DropPeripheral] + e2;
    assert e4[1..] == [] && e3[1..] == e4 && e2[1..] == e3 && e1[1..] == e2;
    var b := START.ble;
    var s2 := START.(ble := b.(connecting := Some(q)));
    var s3 := START.(ble := b.(connected := Some(p)));
    assert Run(s3, e4, threshold) == Broken;
    assert Step(s2, e3[0], threshold) == Running(s3);
    assert Run(START, e2, threshold) == Run(s2, e3, threshold);
    var s1 := START.(ble := b.(connecting := Some(p)));
    assert Run(s1, e1, threshold) == Run(START, e2, threshold);
    var es := [ConnectPeripheral(p)] + e1;
    assert es[1..] == e1 && Run(START, es, threshold) == Run(s1, e1, threshold);
    assert es == [ConnectPeripheral(p), DropPeripheral, ConnectPeripheral(q), Event.DidConnect(p, false),
                  Event.DidConnect(q, false)];
  }

  // ----- The life of a detection -----

  lemma {:induction false} KeptHolds(callbacks: seq<Entry>, b: Ble, now: nat, done: set<nat>, e: Entry)
    ensures e in Kept(callbacks, b, now, done) <==> e in callbacks && !Erases(e, b, now, done)
  {
    if callbacks != [] {
      KeptHolds(callbacks[1..], b, now, done, e);
      assert callbacks == [callbacks[0]] + callbacks[1..];
    }
  }

  /** A tick ends a detection whose time has come, and one that is no longer wanted: all its callbacks go.  Another
      detection it leaves alone, and of the app's callbacks those stay that do not ask to be erased. */
  lemma TickEnds(s: State, now: nat, done: set<nat>, threshold: nat)
    requires Inv(s)
    ensures var r := Step(s, Tick(now, done), threshold);
            r.Running? && Inv(r.s) && r.s.foreground == s.foreground &&
            (forall id :: Entry(id, App) in r.s.callbacks <==> Entry(id, App) in s.callbacks && id !in done)
    ensures var ends := if s.ble.deadline == 0 then s.ble.id == 0 else now >= s.ble.deadline;
            var t := Step(s, Tick(now, done), threshold).s;
            (forall id :: Entry(id, Detect) in t.callbacks <==> Entry(id, Detect) in s.callbacks && !ends) &&
            (!ends ==> t.ble == s.ble)
  {
    TickIsFilter(s, 0, now, done);
    assert s.callbacks[0..] == s.callbacks && s.callbacks[..0] == [];
    forall e
      ensures e in Kept(s.callbacks, s.ble, now, done) <==> e in s.callbacks && !Erases(e, s.ble, now, done)
    {
      KeptHolds(s.callbacks, s.ble, now, done, e);
    }
    assert [] + Kept(s.callbacks, s.ble, now, done) == Kept(s.callbacks, s.ble, now, done);
  }

  /** A connection that is made ends the detection: the next tick, at whatever time, takes its callback out, and the
      lock is kept only for others. */
  lemma ConnectionEndsDetection(s: State, p: nat, error: bool, now: nat, done: set<nat>, threshold: nat)
    requires Inv(s) && Step(s, DidConnect(p, error), threshold).Running?
    ensures var t := Step(s, DidConnect(p, error), threshold).s;
            if s.ble.connecting != None && !error then t.ble.connected == Some(p) && t.ble.connecting == None
            else t.ble.connected == s.ble.connected && t.ble.connecting == s.ble.connecting
    ensures var r := Step(Step(s, DidConnect(p, error), threshold).s, Tick(now, done), threshold);
            r.Running? && (forall e :: e in r.s.callbacks <==> e in s.callbacks && e.handler == App && e.id !in done) &&
            (r.s.lock <==> !r.s.foreground && r.s.callbacks != [])
  {
    var t := Step(s, DidConnect(p, error), threshold).s;
    TickEnds(t, now, done, threshold);
    var c := Step(t, Tick(now, done), threshold).s.callbacks;
    forall e
      ensures e in c <==> e in s.callbacks && e.handler == App && e.id !in done
    {
      assert e == Entry(e.id, if e.handler == App then App else Detect);
    }
  }

  /** A detection is due: in the background, with a device to look for and none at hand. */
  predicate Due(s: State) {
    !s.foreground && s.ble.address && s.ble.connecting == None && s.ble.connected == None && s.ble.id == 0
  }

  /** The state `t` comes from `s` by the begin of a detection at time `now`. */
  ghost predicate Begun(s: State, t: State, now: nat, threshold: nat) {
    t.lock && !t.foreground && t.ble == s.ble.(deadline := (now + threshold) % 0x1_0000_0000, id := t.ble.id) &&
    Entry(t.ble.id, Detect) in t.callbacks && 0 < t.ble.id < 0x1_0000_0000 &&
    (forall e :: e in s.callbacks ==> e.id != t.ble.id) &&
    forall e :: e in t.callbacks <==> e in s.callbacks || e == Entry(t.ble.id, Detect)
  }

  /** A scan begins a detection just when one is due, unless there is no id left for it. */
  lemma ScanBegins(s: State, now: nat, threshold: nat)
    requires Inv(s)
    ensures !Due(s) ==> Step(s, Scan(now), threshold) == Running(s)
    ensures Due(s) && |s.callbacks| < 0xFFFF_FFFF ==>
              var r := Step(s, Scan(now), threshold); r.Running? && Begun(s, r.s, now, threshold)
  {
    if Due(s) && !Full(s.callbacks) {
      var d := (now + threshold) % ID_SPACE;
      var t := s.(ble := s.ble.(deadline := 0));
      ConnectIsSafe(t, Detect);
      ConnectIgnoresDeadline(s, d, Detect);
      assert t == s.(ble := s.ble.(deadline := 0));
      var u := Connect(t, Detect).s;
      forall e | e in s.callbacks
        ensures e.id != u.last
      {
        var i :| 0 <= i < |s.callbacks| && s.callbacks[i] == e;
        assert !Taken(s.callbacks, u.last);
      }
    }
  }

  /** A device that is lost in the background is looked for, unless that is switched off. */
  lemma LossBegins(s: State, p: nat, error: bool, now: nat, threshold: nat)
    requires Inv(s) && s.ble.connected == Some(p)
    ensures var lost := s.(ble := s.ble.(connected := None));
            var r := Step(s, DidDisconnect(p, error, now), threshold);
            if s.ble.noReconnect || !Due(lost) then r == Running(lost)
            else |s.callbacks| < 0xFFFF_FFFF ==> r.Running? && Begun(lost, r.s, now, threshold)
  {
    ScanBegins(s.(ble := s.ble.(connected := None)), now, threshold);
  }

  /** So is one that is not at hand when the app goes to the background. */
  lemma BackgroundBegins(s: State, now: nat, threshold: nat)
    requires Inv(s) && s.foreground
    ensures var back := s.(foreground := false, lock := s.callbacks != []);
            var r := Step(s, EnterBackground(0, now), threshold);
            if !Due(back) then r == Running(back)
            else |s.callbacks| < 0xFFFF_FFFF ==> r.Running? && Begun(back, r.s, now, threshold)
  {
    ScanBegins(s.(foreground := false, lock := s.callbacks != []), now, threshold);
  }

  /** Coming back to the foreground drops every callback, the lock and the detection. */
  lemma ForegroundDrops(s: State, now: nat, threshold: nat)
    requires Inv(s) && !s.foreground
    ensures Step(s, EnterForeground(0, now), threshold) ==
            Running(State(true, false, [], s.last, s.ble.(deadline := 0, id := 0)))
  {
  }

  /** What becomes of the two flags when the app asks for a connection or gives it up, or the device lets go of a
      peripheral; nothing else changes. */
  lemma FlagsAfter(s: State, p: nat, threshold: nat)
    ensures s.ble.connecting == None && s.ble.connected == None ==>
              Step(s, ConnectPeripheral(p), threshold) == Running(s.(ble := s.ble.(connecting := Some(p))))
    ensures var given := if s.ble.connected == None then None else s.ble.connecting;
            Step(s, DropPeripheral, threshold) == Running(s.(ble := s.ble.(connecting := given)))
    ensures s.ble.connected != Some(p) ==>
              var left := if s.ble.connecting == Some(p) then None else s.ble.connecting;
              Step(s, Released(p), threshold) == Running(s.(ble := s.ble.(connecting := left)))
  {
    assert s.ble.(connecting := s.ble.connecting) == s.ble;
  }

  /** Nothing that ends a detection: the app stays in the background, no connection is reported, and ticks come
      before the deadline. */
  predicate Quiet(e: Event, deadline: nat) {
    match e
    case Tick(now, _) => now < deadline
    case EnterBackground(_, _) => false
    case EnterForeground(_, _) => false
    case DidConnect(_, _) => false
    case _ => true
  }

  ghost predicate Watching(s: State, id: nat, deadline: nat) {
    Inv(s) && !s.foreground && s.ble.id == id != 0 && s.ble.deadline == deadline != 0 &&
        Entry(id, Detect) in s.callbacks
  }

  lemma QuietStep(s: State, e: Event, id: nat, deadline: nat, threshold: nat)
    requires Watching(s, id, deadline) && Legal(s, e) && Quiet(e, deadline) && Step(s, e, threshold).Running?
    ensures Watching(Step(s, e, threshold).s, id, deadline)
  {
    StepIsSafe(s, e, threshold);
    match e
    case Tick(now, done) => TickEnds(s, now, done, threshold);
    case AppConnects => ConnectIsSafe(s, App);
    case Scan(now) => ScanBegins(s, now, threshold);
    case DidDisconnect(p, error, now) => ScanBegins(s.(ble := s.ble.(connected := None)), now, threshold);
    case _ =>
  }

  /** A detection that nothing ends before lasts until the first tick at or after its deadline, which ends it. */
  lemma {:induction false} DetectionLasts(s: State, es: seq<Event>, id: nat, deadline: nat, now: nat, done: set<nat>,
                                          threshold: nat)
    requires Watching(s, id, deadline) && LegalRun(s, es, threshold) && Run(s, es, threshold).Running?
    requires forall i :: 0 <= i < |es| ==> Quiet(es[i], deadline)
    ensures var t := Run(s, es, threshold).s;
            Watching(t, id, deadline) && var r := Step(t, Tick(now, done), threshold);
            r.Running? && (Entry(id, Detect) in r.s.callbacks <==> now < deadline)
    decreases |es|
  {
    if es == [] {
      TickEnds(s, now, done, threshold);
    } else {
      QuietStep(s, es[0], id, deadline, threshold);
      DetectionLasts(Step(s, es[0], threshold).s, es[1..], id, deadline, now, done, threshold);
    }
  }

  /** The sum that makes the deadline may come to zero, which reads as no deadline: no tick ends that detection. */
  lemma ZeroDeadlineLasts(s: State, now: nat, done: set<nat>, threshold: nat)
    requires Inv(s) && s.ble.deadline == 0 && s.ble.id != 0
    ensures var r := Step(s, Tick(now, done), threshold);
            r.Running? && r.s.ble == s.ble && Entry(s.ble.id, Detect) in r.s.callbacks
  {
    TickEnds(s, now, done, threshold);
  }

  // ----- The two objects -----

  class Tble {
    var connecting: Device
    var connected: Device
    var address: bool
    var noReconnect: bool
    var deadline: nat
    var id: nat

    constructor ()
      ensures Value() == START.ble
    {
      connecting, connected, address, noReconnect, deadline, id := None, None, false, false, 0, INVALID_ID;
    }

    ghost function Value(): Ble
      reads this
    {
      Ble(connecting, connected, address, noReconnect, deadline, id)
    }

    method ClearBackgroundConnectFlag()
      modifies this`deadline, this`id
      ensures Value() == Cleared(old(Value()))
    {
      deadline := 0;
      id := INVALID_ID;
    }

    /** Whether the callback is to be erased; `ok` is its runtime check. */
    method BackgroundCallback(now: nat) returns (ok: bool, erase: bool)
      modifies this`deadline, this`id
      ensures erase == Over(old(Value()), now)
      ensures ok <==> !(erase && old(deadline) != 0 && old(id) == INVALID_ID)
      ensures Value() == if erase then Cleared(old(Value())) else old(Value())
    {
      if id == INVALID_ID && deadline == 0 {
        return true, true;
      } else if deadline != 0 && now >= deadline {
        ok := id != INVALID_ID;
        ClearBackgroundConnectFlag();
        return ok, true;
      }
      return true, false;
    }

    method DidConnect(p: nat, error: bool) returns (ok: bool)
      modifies this
      ensures var r := Step(START.(ble := old(Value())), Event.DidConnect(p, error), 0);
              ok == r.Running? && (ok ==> Value() == r.s.ble)
    {
      if connecting != None {
        if !error {
          connecting := None;
          connected := Some(p);
        }
      } else if !error {
        if connected != None {
          return false;
        }
      }
      ClearBackgroundConnectFlag();
      return true;
    }
  }

  class Instance {
    var foreground: bool
    var lock: bool
    var callbacks: seq<Entry>
    var last: nat
    const ble: Tble
    const threshold: nat

    constructor (ble: Tble, threshold: nat)
      requires ble.Value() == START.ble
      ensures Value() == START && this.ble == ble && this.threshold == threshold
    {
      this.ble, this.threshold := ble, threshold;
      foreground, lock, callbacks, last := true, false, [], INVALID_ID;
    }

    ghost function Value(): State
      reads this, ble
    {
      State(foreground, lock, callbacks, last, ble.Value())
    }

    function Count(id: nat): (found: bool)
      reads this
      ensures found <==> Taken(callbacks, id)
    {
      exists i :: 0 <= i < |callbacks| && callbacks[i].id == id
    }

    method GetCallbackId() returns (id: nat)
      requires !Full(callbacks)
      ensures id == FreshId(callbacks, last)
    {
      SomeFree(callbacks);
      ghost var goal :| Free(callbacks, goal);
      FreshIdIsFound(callbacks, last, goal);
      id := Next(last);
      while true
        invariant id < ID_SPACE && Search(callbacks, id, goal) == FreshId(callbacks, last)
        decreases Distance(id, goal)
      {
        if id == INVALID_ID {
          id := Next(id);
          continue;
        }
        if Count(id) {
          id := Next(id);
          continue;
        }
        break;
      }
    }

    /** `ok` is that no runtime check fails. */
    method BackgroundConnect(h: Handler) returns (ok: bool, id: nat)
      requires Connect(Value(), h) != Hung
      modifies this`lock, this`callbacks, this`last
      ensures var r := Connect(old(Value()), h); ok == r.Running? && (ok ==> Value() == r.s && id == last)
    {
      id := INVALID_ID;
      if !foreground {
        if callbacks == [] {
          if lock {
            return false, id;
          }
          lock := true;
        }
        if !lock {
          return false, id;
        }
      }
      last := GetCallbackId();
      callbacks := Insert(callbacks, Entry(last, h));
      return true, last;
    }

    method BackgroundDisconnectTh() returns (ok: bool)
      modifies this`lock
      ensures ok == (foreground || old(lock))
      ensures lock == (old(lock) && (foreground || |callbacks| != 1))
    {
      if !foreground {
        if !lock {
          return false;
        }
        if |callbacks| == 1 {
          lock := false;
        }
      }
      return true;
    }

    /** `done` are the app's callbacks that return true this time. */
    method HandleBackground(now: nat, done: set<nat>) returns (ok: bool)
      modifies this`lock, this`callbacks, ble`deadline, ble`id
      ensures var r := Step(old(Value()), Tick(now, done), threshold); ok == r.Running? && (ok ==> Value() == r.s)
    {
      var i := 0;
      while i < |callbacks|
        invariant 0 <= i <= |callbacks|
        invariant TickFrom(Value(), i, now, done) == TickFrom(old(Value()), 0, now, done)
        decreases |callbacks| - i
      {
        var e := callbacks[i];
        var fine, erase := true, e.id in done;
        if e.handler == Detect {
          fine, erase := ble.BackgroundCallback(now);
        }
        if !fine {
          return false;
        }
        if erase {
          var free := BackgroundDisconnectTh();
          if !free {
            return false;
          }
          callbacks := Without(callbacks, i);
        } else {
          i := i + 1;
        }
      }
      return true;
    }

    method StartScan(now: nat) returns (ok: bool)
      requires !Full(callbacks)
      modifies this`lock, this`callbacks, this`last, ble`deadline, ble`id
      ensures var r := Step(old(Value()), Scan(now), threshold); ok == r.Running? && (ok ==> Value() == r.s)
    {
      if !foreground && ble.address {
        if ble.connecting == None && ble.connected == None {
          if ble.id == INVALID_ID {
            ble.deadline := (now + threshold) % ID_SPACE;
            var fine, id := BackgroundConnect(Detect);
            if !fine {
              return false;
            }
            ble.id := id;
          }
        }
      }
      return true;
    }

    /** What an app's hook does: it connects `n` callbacks. */
    method Hook(n: nat) returns (ok: bool)
      requires Connects(Value(), n) != Hung
      modifies this`lock, this`callbacks, this`last
      ensures var r := Connects(old(Value()), n); ok == r.Running? && (ok ==> Value() == r.s)
    {
      var k := n;
      while k > 0
        invariant Connects(Value(), k) == Connects(old(Value()), n)
      {
        var fine, _ := BackgroundConnect(App);
        if !fine {
          return false;
        }
        k := k - 1;
      }
      return true;
    }

    method BleHandleAppEvent(background: bool, now: nat) returns (ok: bool)
      requires !Full(callbacks)
      modifies this`lock, this`callbacks, this`last, ble`deadline, ble`id
      ensures var r := BleEvent(old(Value()), background, now, threshold);
              ok == r.Running? && (ok ==> Value() == r.s)
    {
      if !background {
        ble.ClearBackgroundConnectFlag();
      }
      ok := true;
      if ble.connecting == None && ble.connected == None {
        ok := StartScan(now);
      }
    }

    method DidEnterBackground(hook: nat, now: nat) returns (ok: bool)
      requires Connects(Value(), hook).Running? ==> !Full(Connects(Value(), hook).s.callbacks)
      requires Connects(Value(), hook) != Hung
      modifies this`foreground, this`lock, this`callbacks, this`last, ble`deadline, ble`id
      ensures var r := Step(old(Value()), EnterBackground(hook, now), threshold);
              ok == r.Running? && (ok ==> Value() == r.s)
    {
      var fine := Hook(hook);
      if !fine {
        return false;
      }
      foreground := false;
      if lock {
        return false;
      }
      if callbacks != [] {
        lock := true;
      }
      ok := BleHandleAppEvent(true, now);
    }

    method DidEnterForeground(hook: nat, now: nat) returns (ok: bool)
      requires var r := Connects(Value().(lock := false, callbacks := []), hook);
               r != Hung && (r.Running? ==> !Full(r.s.callbacks))
      modifies this`foreground, this`lock, this`callbacks, this`last, ble`deadline, ble`id
      ensures var r := Step(old(Value()), EnterForeground(hook, now), threshold);
              ok == r.Running? && (ok ==> Value() == r.s)
    {
      if callbacks != [] {
        if !lock {
          return false;
        }
        lock := false;
        callbacks := [];
      } else if lock {
        return false;
      }
      var fine := Hook(hook);
      if !fine {
        return false;
      }
      foreground := true;
      ok := BleHandleAppEvent(false, now);
    }

    method DidDisconnect(p: nat, error: bool, now: nat) returns (ok: bool)
      requires !Full(callbacks)
      modifies this`lock, this`callbacks, this`last, ble
      ensures var r := Step(old(Value()), Event.DidDisconnect(p, error, now), threshold);
              ok == r.Running? && (ok ==> Value() == r.s)
    {
      if ble.connected != None {
        if ble.connected != Some(p) {
          return false;
        }
        ble.connected := None;
      } else if !error {
        if ble.connecting != None {
          return false;
        }
      }
      ok := true;
      if !ble.noReconnect {
        ok := StartScan(now);
      }
    }
  }
}
