# BLE proof-of-concept client: session core in Dafny

This project models the pure logic of `AppContent` in `App.tsx`, a React
Native client for the Bluetooth Low Energy central role. The client scans for
peripherals, connects to one, subscribes to its first notify/indicate
characteristic, and lists the values it receives. The model covers:

- **Payload formatting** (`payload.dfy`, module `Payload`). `arrayToHexString`
  is modelled as written: `toString(16)`, then `padStart(2, '0')`, then
  `join(' ')`, then `toUpperCase()`. It is proved equal to a reference encoding
  that writes two upper-case digits per byte. A decoder recovers the bytes.
  `arrayToString` gives one character per byte. `MakeEntry` builds the
  `ReceivedData` entry made by the value-update listener.
- **Received-data list** (`eventlog.dfy`, module `EventLog`). An update is
  prepended and the list is cut to 20 entries, newest first.
- **Characteristic selection** (`selector.dfy`, module `Selector`). The filter
  keeps characteristics whose property keys include "Notify" or "Indicate".
  The first of those is the subscription target.
- **Session transitions** (`session.dfy`, module `Session`). The state is
  `{isScanning, discovered, connected, received}`. The transitions are scan
  start, scan failure, scan-window expiry, connect and disconnect outcomes,
  value updates, and the peripheral connect/disconnect listeners. `Step` and
  `Run` treat them as one sequential transition system. `Valid` is an
  invariant of every state this transition system reaches. Scan expiry is
  one step here, so the clause "discovered is empty while scanning" holds
  only under that reading (see `Session.RunPreservesValid` under "## Left out").
- `wrappers.dfy` (module `Wrappers`) holds the `Option` type. It stands for
  JavaScript's `undefined`.

Native radio calls are not modelled as code. Each call's outcome is an input:
`ok` flags on the connect and disconnect events, an optional peripheral
listing on scan expiry, and an optional `PeripheralInfo` for service
retrieval. Timers become the explicit `ScanWindowExpired` event. The locale
time string is an opaque `timestamp` parameter.

Behaviour that is easy to misread, modelled as the code does it:

- A present but empty value array is truthy in JavaScript, so it renders as
  `" ()"`. It does not render as `"No data"`.
- The peripheral connect and disconnect listeners (App.tsx:76-82) only log.
  An out-of-band disconnect therefore leaves the device in the connected list
  (`Session.OutOfBandDisconnectKeepsEntry`).
- Connecting does not de-duplicate (`Session.ConnectDoesNotDeduplicate`).
- The discovered list is a list, not a map keyed by id. It is replaced as a
  whole by the snapshot taken at scan expiry.

## Model

| member | source | states |
|---|---|---|
| Payload.ArrayToHexStringIsHex | App.tsx:85-87 | the map/padStart/join/toUpperCase pipeline equals two upper-case hex digits per byte, in input order, separated by single spaces |
| Payload.HexLength | App.tsx:85-87 | the hex text has 3n-1 characters for n >= 1 bytes and is empty for no bytes |
| Payload.HexLayout | App.tsx:85-87 | byte i is at offsets 3i and 3i+1 as its high and low upper-case digit, and offset 3i+2 is a space when another byte follows |
| Payload.HexRoundTrip | App.tsx:85-87 | decoding the hex text gives back exactly the input bytes, so the rendering loses nothing |
| Payload.ArrayToString | App.tsx:89-92 | String.fromCharCode yields one character per byte, and character i has code byte i |
| Payload.EntryData | App.tsx:67 | the data field is "No data" exactly when the value is absent |
| Payload.EntryDataShape | App.tsx:67 | for a present value the data field is the hex text, then " (", the character text, then ")"; its length is 4n+2, or 3 for an empty array, which gives " ()" |
| Payload.EntryDataRoundTrip | App.tsx:67 | the data field determines the value it was built from, whether absent, empty or non-empty |
| Payload.MakeEntry | App.tsx:65-69 | the entry keeps the timestamp, its data decodes back to the value, and its label is the service, a "/", then the characteristic |
| Payload.EntryExampleAB | App.tsx:67 | bytes 0x41 0x42 render as "41 42 (AB)" |
| EventLog.Record | App.tsx:72 | after recording, the head is the new entry, the tail is a prefix of the old list, and the length is min(old length + 1, 20) |
| EventLog.RecordAllIsNewestFirst | App.tsx:72 | a run of records leaves the first 20 of the reversed arrivals followed by the earlier list |
| EventLog.RecordAllBounded | App.tsx:72 | a list starting within 20 entries has min(old length + arrivals, 20) entries afterwards |
| EventLog.RecordAllKeepsLast | App.tsx:72 | once at least 20 entries have arrived, the list is exactly the last 20 of them, newest first |
| EventLog.TwentyFiveLeaveLastTwenty | App.tsx:72 | 25 records from an empty list leave 20 entries, and entry i is the (25-i)-th arrival |
| Selector.NotifyCharacteristics | App.tsx:200-203 | the filter keeps exactly the characteristics whose property keys (none when properties is absent) include "Notify" or "Indicate" |
| Selector.FilterHeadIsFirst | App.tsx:200-209 | the head of the filtered list is the first eligible characteristic in discovery order |
| Selector.SelectTarget | App.tsx:200-209 | the target is absent exactly when no characteristic is eligible; otherwise it is the first eligible one, and every earlier one is ineligible |
| Selector.SubscriptionTarget | App.tsx:193-217 | a service/characteristic pair is subscribed exactly when retrieval returned a characteristic list containing an eligible one, and the pair is that of the first eligible one |
| Selector.FirstNotifiableWins | App.tsx:207-209 | an eligible characteristic preceded only by ineligible ones is chosen, whatever follows it |
| Session.StartScan | App.tsx:132-137 | a start while scanning changes nothing; otherwise scanning is on, discovered is empty, and connected and received are unchanged |
| Session.ScanFailed | App.tsx:146-149 | a rejected scan turns scanning off and changes nothing else |
| Session.FailedScanLeavesNothingDiscovered | App.tsx:132-149 | a start followed by a rejected scan ends not scanning, with discovered empty and the other lists unchanged |
| Session.StartScanIdempotent | App.tsx:133 | a second start right after a first one has no further effect |
| Session.DisplayName | App.tsx:158 | the shown name is never empty; a missing or empty name becomes "Unknown Device", any other is kept |
| Session.SnapshotDevices | App.tsx:155-160 | one device per peripheral, in order, with the same id and rssi and the shown name |
| Session.ScanExpired | App.tsx:141-164 | expiry turns scanning off and replaces discovered by the snapshot of the listing; when listing fails, discovered is kept |
| Session.FindDevice | App.tsx:170 | the search finds nothing exactly when no device has the id; otherwise it returns the first device with that id |
| Session.ConnectSucceeded | App.tsx:167-172 | a successful connect appends the first discovered device with that id to connected; with no such device, connected is unchanged; other fields are unchanged |
| Session.ConnectDoesNotDeduplicate | App.tsx:170-172 | connecting the same id twice adds two copies of the device |
| Session.RemoveById | App.tsx:239 | the filter keeps exactly the devices whose id differs, and returns the list unchanged when no device has the id |
| Session.RemoveByIdCounts | App.tsx:239 | every copy with the id is removed, and every other device keeps its multiplicity |
| Session.RemoveByIdConcat | App.tsx:239 | removal distributes over concatenation, so the remaining devices keep their order |
| Session.DisconnectSucceeded | App.tsx:236-239 | a successful disconnect removes exactly the entries with that id, changes no other field, and is a no-op for an id not connected |
| Session.DisconnectIdempotent | App.tsx:238-239 | disconnecting twice is the same as disconnecting once |
| Session.ConnectThenDisconnect | App.tsx:167-239 | a connect followed by a disconnect of the same id leaves connected as the old list with that id removed |
| Session.ValueUpdated | App.tsx:62-73 | a value update puts its entry at the head of received, keeps a prefix of the old list as the tail, caps the length at 20, and changes nothing else |
| Session.Step | App.tsx:60-245 | every transition preserves Valid; failed connects, failed disconnects and the peripheral connect/disconnect listeners leave the state unchanged |
| Session.RunPreservesValid | App.tsx:47-245 | from a valid state every sequence of events leads to a valid state: at most 20 entries, discovered empty while scanning, and every listed device named |
| Session.OutOfBandDisconnectKeepsEntry | App.tsx:80-82 | a peripheral disconnect event leaves a connected device in the connected list |
| Session.ScanConnectReceiveScenario | App.tsx:62-172 | scan, expiry with A and an unnamed B, connect A, and bytes 0x48 0x49 give discovered [A, "Unknown Device" B], connected [A], the entry "48 49 (HI)" labelled "180D/2A37", and A's notify characteristic as the subscription target |

## Left out

- Native radio calls (`start`, `scan`, `connect`, `retrieveServices`, `startNotification`, `disconnect`, `getDiscoveredPeripherals`, `stopScan`). They are foreign I/O. Only their success or failure enters the model, as event data.
- The 10000 ms scan window and the 1500 ms settling delay before service retrieval. Timing is outside the model. Expiry is an explicit event, and retrieval is a pure function of its result.
- React hooks, state closures and asynchronous interleaving. Updates are applied one at a time in arrival order. Stale closure values are not modelled; for example, `connectToDevice` reads the `discoveredDevices` captured at render time.
- `startNotification`'s own success or failure. It only logs and changes no state. `Selector.SubscriptionTarget` models which pair is requested.
- `initializeBLE`, Android permission requests and `Platform` checks (App.tsx:97-130). These are platform and native setup.
- Alerts, `console.log`, the JSX render functions and styles. They are presentation.
- The timestamp `new Date().toLocaleTimeString()`. It depends on the clock and locale, so it is an opaque string parameter.
- The "Binary Data" fallback of `arrayToString` (App.tsx:92-94). It only fires on engine limits such as huge argument lists, so the character mapping is total for byte input.
- Payload.ArrayToHexString: inputs are bytes 0..255, the values the radio stack delivers. Other numbers (negative, fractional, or 256 and above) render differently in JavaScript, for example 256 as "100", -1 as "-1" and 0.5 as "0.8".
- Payload.UpperAscii: only ASCII letters are upper-cased. This is exact for hex text, which contains only `0-9`, `a-f` and spaces.
- Session.ScanExpired: the state is the one at expiry time, with no concurrent updates between the timer firing and the listing resolving.
- Session.RunPreservesValid: the clause "discovered is empty while scanning" depends on treating scan expiry as one step. In App.tsx the timer turns scanning off at line 142, and the listing is stored only after `getDiscoveredPeripherals` resolves (lines 155-161). The Start Scan button is enabled again in between (line 295), so a new scan can start and the late listing can then land while scanning is on. The other clauses (log bound, named devices) do not depend on this.
