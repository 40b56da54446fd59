/** Choice of the characteristic to subscribe to after service discovery
    (`discoverServicesAndCharacteristics` in App.tsx): keep the characteristics
    whose property keys include "Notify" or "Indicate", then take the first. */
module Selector {
  import opened Wrappers

  /** A discovered characteristic; `properties` is the key list of the
      properties object, absent when the object is. */
  datatype Characteristic = Characteristic(service: string, characteristic: string, properties: Option<seq<string>>)

  /** What `retrieveServices` resolves to; `characteristics` may be absent. */
  datatype PeripheralInfo = PeripheralInfo(services: seq<string>, characteristics: Option<seq<Characteristic>>)

  /** `char.properties ? Object.keys(char.properties) : []` */
  function PropertyKeys(c: Characteristic): seq<string>
  {
    c.properties.GetOr([])
  }

  predicate IsNotifiable(c: Characteristic)
  {
    "Notify" in PropertyKeys(c) || "Indicate" in PropertyKeys(c)
  }

  /** Index i holds the first eligible characteristic of the list. */
  predicate IsFirstNotifiable(chars: seq<Characteristic>, i: int)
  {
    && 0 <= i < |chars|
    && IsNotifiable(chars[i])
    && forall j :: 0 <= j < i ==> !IsNotifiable(chars[j])
  }

  /** The filter: the notify/indicate characteristics in discovery order. */
  function NotifyCharacteristics(chars: seq<Characteristic>): (r: seq<Characteristic>)
    ensures |r| <= |chars|
    ensures forall c :: c in r <==> c in chars && IsNotifiable(c)
  {
    if |chars| == 0 then []
    else if IsNotifiable(chars[0]) then [chars[0]] + NotifyCharacteristics(chars[1..])
    else NotifyCharacteristics(chars[1..])
  }

  /** The head of the filtered list is the first eligible characteristic in discovery order. */
  lemma {:induction false} FilterHeadIsFirst(chars: seq<Characteristic>)
    requires |NotifyCharacteristics(chars)| > 0
    ensures exists i :: IsFirstNotifiable(chars, i) && chars[i] == NotifyCharacteristics(chars)[0]
    decreases |chars|
  {
    if IsNotifiable(chars[0]) {
      assert IsFirstNotifiable(chars, 0) && chars[0] == NotifyCharacteristics(chars)[0];
    } else {
      FilterHeadIsFirst(chars[1..]);
      var i :| IsFirstNotifiable(chars[1..], i) && chars[1..][i] == NotifyCharacteristics(chars[1..])[0];
      assert chars[i + 1] == NotifyCharacteristics(chars)[0];
      forall j | 0 <= j < i + 1 ensures !IsNotifiable(chars[j]) {
        if j > 0 { assert chars[j] == chars[1..][j - 1]; }
      }
      assert IsFirstNotifiable(chars, i + 1);
    }
  }

  /** Only the first eligible characteristic is ever chosen; none when no
      characteristic is eligible. */
  function SelectTarget(chars: seq<Characteristic>): (r: Option<Characteristic>)
    ensures r.None? <==> forall i :: 0 <= i < |chars| ==> !IsNotifiable(chars[i])
    ensures r.Some? ==> exists i :: IsFirstNotifiable(chars, i) && chars[i] == r.value
  {
    var eligible := NotifyCharacteristics(chars);
    if |eligible| > 0 then
      FilterHeadIsFirst(chars);
      Some(eligible[0])
    else
      assert forall i :: 0 <= i < |chars| ==> chars[i] !in eligible;
      None
  }

  /** The (service, characteristic) pair passed to `startNotification`, if
      any. A failed or empty retrieval and an absent characteristic list
      subscribe to nothing. */
  function SubscriptionTarget(info: Option<PeripheralInfo>): (r: Option<(string, string)>)
    ensures r.Some? <==> (info.Some? && info.value.characteristics.Some? &&
                          exists c :: c in info.value.characteristics.value && IsNotifiable(c))
    ensures r.Some? ==> (exists i :: IsFirstNotifiable(info.value.characteristics.value, i) &&
                          r.value == (info.value.characteristics.value[i].service,
                                      info.value.characteristics.value[i].characteristic))
  {
    match info
    case None => None
    case Some(p) =>
      match p.characteristics
      case None => None
      case Some(chars) =>
        match SelectTarget(chars)
        case None => None
        case Some(c) => Some((c.service, c.characteristic))
  }

  /** An eligible characteristic preceded only by ineligible ones is the one
      chosen, whatever follows it. */
  lemma FirstNotifiableWins(skipped: seq<Characteristic>, c: Characteristic, rest: seq<Characteristic>)
    requires forall k :: 0 <= k < |skipped| ==> !IsNotifiable(skipped[k])
    requires IsNotifiable(c)
    ensures SelectTarget(skipped + [c] + rest) == Some(c)
  {
    var chars := skipped + [c] + rest;
    var r := SelectTarget(chars);
    assert chars[|skipped|] == c;
    var i :| IsFirstNotifiable(chars, i) && chars[i] == r.value;
    assert i == |skipped|;
  }
}
