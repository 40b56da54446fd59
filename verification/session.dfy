/** The session state of `AppContent` in App.tsx, `{isScanning, discovered,
    connected, received}`, and the transitions its handlers make. Every native
    call is replaced by its outcome, supplied as part of an event; timers
    become the explicit `ScanWindowExpired` event. */
module Session {
  import opened Wrappers
  import opened Payload
  import EventLog
  import Selector

  /** A device as shown in the discovered and connected lists. */
  datatype Device = Device(id: string, name: Option<string>, rssi: Option<int>)

  /** A peripheral as listed by the radio stack after a scan. */
  datatype Peripheral = Peripheral(id: string, name: Option<string>, rssi: Option<int>)

  datatype State = State(isScanning: bool, discovered: seq<Device>, connected: seq<Device>, received: seq<ReceivedData>)

  const Initial: State := State(false, [], [], [])

  const UnknownDevice: string := "Unknown Device"

  // ---------------------------------------------------------------------------
  // Scanning
  // ---------------------------------------------------------------------------

  /** `startScan` up to the native scan call: ignored while a scan is running,
      otherwise the discovered list is emptied and scanning begins. */
  function StartScan(s: State): (r: State)
    ensures s.isScanning ==> r == s
    ensures !s.isScanning ==> r.isScanning && r.discovered == []
    ensures r.connected == s.connected && r.received == s.received
  {
    if s.isScanning then s else s.(discovered := [], isScanning := true)
  }

  /** The native scan call was rejected: scanning stops, nothing else changes. */
  function ScanFailed(s: State): (r: State)
    ensures !r.isScanning
    ensures r.discovered == s.discovered && r.connected == s.connected && r.received == s.received
  {
    s.(isScanning := false)
  }

  /** `peripheral.name || 'Unknown Device'`: a missing or empty name is replaced. */
  function DisplayName(name: Option<string>): (r: string)
    ensures r != ""
    ensures name.Some? && name.value != "" ==> r == name.value
    ensures name.None? || name.value == "" ==> r == UnknownDevice
  {
    match name
    case Some(n) => if n != "" then n else UnknownDevice
    case None => UnknownDevice
  }

  /** The mapping of `handleGetDiscoveredDevices`, one device per peripheral. */
  function SnapshotDevices(ps: seq<Peripheral>): (r: seq<Device>)
    ensures |r| == |ps|
    ensures forall i :: 0 <= i < |ps| ==>
              r[i].id == ps[i].id && r[i].rssi == ps[i].rssi && r[i].name == Some(DisplayName(ps[i].name))
  {
    if |ps| == 0 then []
    else [Device(ps[0].id, Some(DisplayName(ps[0].name)), ps[0].rssi)] + SnapshotDevices(ps[1..])
  }

  /** The scan window elapsed: scanning stops and the discovered list becomes
      the snapshot of the peripherals the stack lists; when listing fails
      (`None`) the discovered list is kept. */
  function ScanExpired(s: State, listing: Option<seq<Peripheral>>): (r: State)
    ensures !r.isScanning
    ensures listing.Some? ==> r.discovered == SnapshotDevices(listing.value)
    ensures listing.None? ==> r.discovered == s.discovered
    ensures r.connected == s.connected && r.received == s.received
  {
    match listing
    case Some(ps) => s.(isScanning := false, discovered := SnapshotDevices(ps))
    case None => s.(isScanning := false)
  }

  // ---------------------------------------------------------------------------
  // Connecting and disconnecting
  // ---------------------------------------------------------------------------

  /** Index i holds the first device of the list with that id. */
  predicate IsFirstWithId(devices: seq<Device>, id: string, i: int)
  {
    && 0 <= i < |devices|
    && devices[i].id == id
    && forall j :: 0 <= j < i ==> devices[j].id != id
  }

  lemma FirstWithIdUnique(devices: seq<Device>, id: string, i: int, k: int)
    requires IsFirstWithId(devices, id, i) && IsFirstWithId(devices, id, k)
    ensures i == k
  {
    assert devices[i].id == id;
    assert devices[k].id == id;
  }

  /** `devices.find(d => d.id === id)` */
  function FindDevice(devices: seq<Device>, id: string): (r: Option<Device>)
    ensures r.None? <==> forall i :: 0 <= i < |devices| ==> devices[i].id != id
    ensures r.Some? ==> exists i :: IsFirstWithId(devices, id, i) && devices[i] == r.value
  {
    if |devices| == 0 then None
    else if devices[0].id == id then
      assert IsFirstWithId(devices, id, 0);
      Some(devices[0])
    else
      var r := FindDevice(devices[1..], id);
      if r.Some? then
        var i :| IsFirstWithId(devices[1..], id, i) && devices[1..][i] == r.value;
        assert IsFirstWithId(devices, id, i + 1);
        r
      else
        assert forall i :: 1 <= i < |devices| ==> devices[i] == devices[1..][i - 1];
        r
  }

  /** The native connect succeeded: the first discovered device with that id is
      appended to the connected list, even when it is already there; when no
      discovered device has that id the connected list is unchanged. */
  function ConnectSucceeded(s: State, id: string): (r: State)
    ensures r.isScanning == s.isScanning && r.discovered == s.discovered && r.received == s.received
    ensures (forall i :: 0 <= i < |s.discovered| ==> s.discovered[i].id != id) ==> r.connected == s.connected
    ensures (exists i :: 0 <= i < |s.discovered| && s.discovered[i].id == id) ==>
              && |r.connected| == |s.connected| + 1
              && r.connected[..|s.connected|] == s.connected
              && exists i :: IsFirstWithId(s.discovered, id, i) && r.connected[|s.connected|] == s.discovered[i]
  {
    match FindDevice(s.discovered, id)
    case Some(d) => s.(connected := s.connected + [d])
    case None => s
  }

  /** `prev.filter(device => device.id !== id)` */
  function RemoveById(devices: seq<Device>, id: string): (r: seq<Device>)
    ensures |r| <= |devices|
    ensures forall d :: d in r <==> d in devices && d.id != id
    ensures (forall i :: 0 <= i < |devices| ==> devices[i].id != id) ==> r == devices
  {
    if |devices| == 0 then []
    else if devices[0].id == id then RemoveById(devices[1..], id)
    else [devices[0]] + RemoveById(devices[1..], id)
  }

  /** Removal takes every copy with that id and keeps every other copy. */
  lemma {:induction false} RemoveByIdCounts(devices: seq<Device>, id: string, d: Device)
    ensures multiset(RemoveById(devices, id))[d] == if d.id == id then 0 else multiset(devices)[d]
    decreases |devices|
  {
    if |devices| > 0 {
      RemoveByIdCounts(devices[1..], id, d);
      assert devices == [devices[0]] + devices[1..];
      assert multiset(devices) == multiset([devices[0]]) + multiset(devices[1..]);
    }
  }

  /** Removal works piecewise, so the devices that remain keep their order. */
  lemma {:induction false} RemoveByIdConcat(a: seq<Device>, b: seq<Device>, id: string)
    ensures RemoveById(a + b, id) == RemoveById(a, id) + RemoveById(b, id)
    decreases |a|
  {
    if |a| == 0 {
      assert a + b == b;
    } else {
      assert (a + b)[1..] == a[1..] + b;
      RemoveByIdConcat(a[1..], b, id);
    }
  }

  /** Removing twice is removing once. */
  lemma RemoveByIdIdempotent(devices: seq<Device>, id: string)
    ensures RemoveById(RemoveById(devices, id), id) == RemoveById(devices, id)
  {
    var r := RemoveById(devices, id);
    assert forall i :: 0 <= i < |r| ==> r[i] in r;
  }

  /** The native disconnect succeeded: every connected entry with that id goes. */
  function DisconnectSucceeded(s: State, id: string): (r: State)
    ensures r.isScanning == s.isScanning && r.discovered == s.discovered && r.received == s.received
    ensures forall d :: d in r.connected <==> d in s.connected && d.id != id
    ensures (forall i :: 0 <= i < |s.connected| ==> s.connected[i].id != id) ==> r == s
  {
    s.(connected := RemoveById(s.connected, id))
  }

  /** Disconnecting a device that was just connected leaves the other
      connections as they were, in order. */
  lemma {:induction false} ConnectThenDisconnect(s: State, id: string)
    ensures DisconnectSucceeded(ConnectSucceeded(s, id), id).connected == RemoveById(s.connected, id)
  {
    var d := FindDevice(s.discovered, id);
    if d.Some? {
      RemoveByIdConcat(s.connected, [d.value], id);
    }
  }

  /** Connecting the same id twice lists the device twice. */
  lemma ConnectDoesNotDeduplicate(s: State, id: string, i: nat)
    requires IsFirstWithId(s.discovered, id, i)
    ensures var r := ConnectSucceeded(ConnectSucceeded(s, id), id);
      multiset(r.connected)[s.discovered[i]] == multiset(s.connected)[s.discovered[i]] + 2
  {
    var d := s.discovered[i];
    assert FindDevice(s.discovered, id) == Some(d) by {
      var k :| IsFirstWithId(s.discovered, id, k) && s.discovered[k] == FindDevice(s.discovered, id).value;
      FirstWithIdUnique(s.discovered, id, i, k);
    }
    assert ConnectSucceeded(ConnectSucceeded(s, id), id).connected == s.connected + [d] + [d];
  }

  // ---------------------------------------------------------------------------
  // Receiving
  // ---------------------------------------------------------------------------

  /** A value update arrived: its entry is recorded at the head of the list. */
  function ValueUpdated(s: State, update: ValueUpdate, timestamp: string): (r: State)
    ensures r.isScanning == s.isScanning && r.discovered == s.discovered && r.connected == s.connected
    ensures |r.received| == EventLog.Min(|s.received| + 1, EventLog.Capacity)
    ensures |r.received| > 0 && r.received[0] == MakeEntry(update, timestamp)
    ensures r.received[1..] == s.received[..|r.received| - 1]
  {
    s.(received := EventLog.Record(s.received, MakeEntry(update, timestamp)))
  }

  // ---------------------------------------------------------------------------
  // The session as a transition system
  // ---------------------------------------------------------------------------

  /** What reaches the session, in arrival order. Outcomes of native calls are
      carried by the event; the peripheral connect/disconnect events are the
      listeners registered in `setupBLEListeners`. */
  datatype Event =
    | ScanRequested
    | ScanRejected
    | ScanWindowExpired(listing: Option<seq<Peripheral>>)
    | ConnectResolved(connectId: string, connectOk: bool)
    | DisconnectResolved(disconnectId: string, disconnectOk: bool)
    | ValueArrived(update: ValueUpdate, timestamp: string)
    | PeripheralConnected(peripheralId: string)
    | PeripheralDisconnected(peripheralId: string)

  predicate Named(d: Device)
  {
    d.name.Some? && d.name.value != ""
  }

  /** What every reachable state satisfies: the list is within capacity, the
      discovered list is empty while scanning, and every listed device carries
      a non-empty name. */
  predicate Valid(s: State)
  {
    && |s.received| <= EventLog.Capacity
    && (s.isScanning ==> s.discovered == [])
    && (forall d :: d in s.discovered ==> Named(d))
    && (forall d :: d in s.connected ==> Named(d))
  }

  function Step(s: State, e: Event): (r: State)
    ensures Valid(s) ==> Valid(r)
    ensures e.PeripheralConnected? || e.PeripheralDisconnected? ==> r == s
    ensures e.ConnectResolved? && !e.connectOk ==> r == s
    ensures e.DisconnectResolved? && !e.disconnectOk ==> r == s
  {
    match e
    case ScanRequested => StartScan(s)
    case ScanRejected => ScanFailed(s)
    case ScanWindowExpired(listing) => ScanExpired(s, listing)
    case ConnectResolved(id, ok) => if ok then ConnectSucceeded(s, id) else s
    case DisconnectResolved(id, ok) => if ok then DisconnectSucceeded(s, id) else s
    case ValueArrived(update, timestamp) => ValueUpdated(s, update, timestamp)
    case PeripheralConnected(_) => s
    case PeripheralDisconnected(_) => s
  }

  function Run(s: State, events: seq<Event>): State
    decreases |events|
  {
    if |events| == 0 then s else Run(Step(s, events[0]), events[1..])
  }

  /** Every state reachable from a valid one is valid. */
  lemma {:induction false} RunPreservesValid(s: State, events: seq<Event>)
    requires Valid(s)
    ensures Valid(Run(s, events))
    decreases |events|
  {
    if |events| > 0 {
      RunPreservesValid(Step(s, events[0]), events[1..]);
    }
  }

  /** A second start while a scan runs changes nothing. */
  lemma StartScanIdempotent(s: State)
    ensures StartScan(StartScan(s)) == StartScan(s)
  {
  }

  /** A start whose native scan is rejected ends not scanning, with an empty
      discovered list and the rest unchanged. */
  lemma FailedScanLeavesNothingDiscovered(s: State)
    requires !s.isScanning
    ensures var r := ScanFailed(StartScan(s));
      !r.isScanning && r.discovered == [] && r.connected == s.connected && r.received == s.received
  {
  }

  /** Disconnecting twice is disconnecting once. */
  lemma DisconnectIdempotent(s: State, id: string)
    ensures DisconnectSucceeded(DisconnectSucceeded(s, id), id) == DisconnectSucceeded(s, id)
  {
    RemoveByIdIdempotent(s.connected, id);
  }

  /** A peripheral that drops the link by itself stays in the connected list:
      the listener only logs. */
  lemma OutOfBandDisconnectKeepsEntry(s: State, d: Device)
    requires d in s.connected
    ensures d in Step(s, PeripheralDisconnected(d.id)).connected
  {
  }

  /** One session end to end: a scan finds A and an unnamed B, the window
      elapses, A is connected, its single notify characteristic is chosen, and
      the bytes 0x48 0x49 arrive. */
  lemma ScanConnectReceiveScenario(a: Peripheral, b: Peripheral, heart: Selector.Characteristic,
                                   update: ValueUpdate)
    requires a == Peripheral("A", Some("Sensor"), Some(-40)) && b == Peripheral("B", None, None)
    requires heart == Selector.Characteristic("180D", "2A37", Some(["Notify"]))
    requires update == ValueUpdate(Some([0x48, 0x49]), "180D", "2A37")
    ensures Selector.SubscriptionTarget(Some(Selector.PeripheralInfo(["180D"], Some([heart]))))
         == Some(("180D", "2A37"))
    ensures Run(Initial, [ScanRequested, ScanWindowExpired(Some([a, b])), ConnectResolved("A", true),
                          ValueArrived(update, "12:00:00")])
         == State(false,
                  [Device("A", Some("Sensor"), Some(-40)), Device("B", Some(UnknownDevice), None)],
                  [Device("A", Some("Sensor"), Some(-40))],
                  [ReceivedData("12:00:00", "48 49 (HI)", "180D/2A37")])
  {
    var e1, e2, e3, e4 := ScanRequested, ScanWindowExpired(Some([a, b])), ConnectResolved("A", true),
                          ValueArrived(update, "12:00:00");
    RunFour(Initial, e1, e2, e3, e4);
    ScenarioConnects(a, b);
    var s3 := Step(Step(Step(Initial, e1), e2), e3);
    var entry := MakeEntry(update, "12:00:00");
    ScenarioEntry(update);
    assert EventLog.Record(s3.received, entry) == [entry];
    assert Step(s3, e4) == s3.(received := [entry]);
    Selector.FirstNotifiableWins([], heart, []);
    assert [] + [heart] + [] == [heart];
  }

  lemma ScenarioConnects(a: Peripheral, b: Peripheral)
    requires a == Peripheral("A", Some("Sensor"), Some(-40)) && b == Peripheral("B", None, None)
    ensures var devA, devB := Device("A", Some("Sensor"), Some(-40)), Device("B", Some(UnknownDevice), None);
      Step(Step(Step(Initial, ScanRequested), ScanWindowExpired(Some([a, b]))), ConnectResolved("A", true))
      == State(false, [devA, devB], [devA], [])
  {
    var devA, devB := Device("A", Some("Sensor"), Some(-40)), Device("B", Some(UnknownDevice), None);
    assert SnapshotDevices([a, b]) == [devA, devB] by {
      assert [a, b][1..] == [b];
    }
    assert FindDevice([devA, devB], "A") == Some(devA);
  }

  lemma ScenarioEntry(update: ValueUpdate)
    requires update == ValueUpdate(Some([0x48, 0x49]), "180D", "2A37")
    ensures MakeEntry(update, "12:00:00") == ReceivedData("12:00:00", "48 49 (HI)", "180D/2A37")
  {
    EntryExampleHI();
  }

  lemma RunFour(s: State, e1: Event, e2: Event, e3: Event, e4: Event)
    ensures Run(s, [e1, e2, e3, e4]) == Step(Step(Step(Step(s, e1), e2), e3), e4)
  {
    var es := [e1, e2, e3, e4];
    var s1, s2, s3 := Step(s, e1), Step(Step(s, e1), e2), Step(Step(Step(s, e1), e2), e3);
    assert es[1..] == [e2, e3, e4];
    assert Run(s, es) == Run(s1, [e2, e3, e4]);
    assert [e2, e3, e4][1..] == [e3, e4];
    assert Run(s1, [e2, e3, e4]) == Run(s2, [e3, e4]);
    assert [e3, e4][1..] == [e4];
    assert Run(s2, [e3, e4]) == Run(s3, [e4]);
    assert [e4][1..] == [];
    assert Run(s3, [e4]) == Step(s3, e4);
  }
}
