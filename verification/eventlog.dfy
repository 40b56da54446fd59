/** The received-data list of App.tsx: every update is prepended and only the
    newest twenty entries are kept (`[item, ...prev.slice(0, 19)]`). */
module EventLog {

  const Capacity: nat := 20

  function Min(a: int, b: int): int { if a <= b then a else b }

  /** `s.slice(0, n)`: the first n elements, or all of them when there are fewer. */
  function Take<T>(s: seq<T>, n: nat): (r: seq<T>)
    ensures |r| == Min(|s|, n)
    ensures r == s[..|r|]
  {
    if |s| <= n then s else s[..n]
  }

  function Reverse<T>(s: seq<T>): (r: seq<T>)
    ensures |r| == |s|
  {
    if |s| == 0 then [] else Reverse(s[1..]) + [s[0]]
  }

  /** Records one entry: it becomes the head, and the tail is the previous
      list cut to the newest Capacity - 1 entries. */
  function Record<T>(log: seq<T>, entry: T): (r: seq<T>)
    ensures |r| == Min(|log| + 1, Capacity)
    ensures r[0] == entry
    ensures r[1..] == log[..|r| - 1]
    ensures |log| <= Capacity ==> |r| <= Capacity
  {
    [entry] + Take(log, Capacity - 1)
  }

  /** Records the entries one after another, in arrival order. */
  function RecordAll<T>(log: seq<T>, entries: seq<T>): seq<T>
    decreases |entries|
  {
    if |entries| == 0 then log else RecordAll(Record(log, entries[0]), entries[1..])
  }

  lemma RecordIsTake<T>(log: seq<T>, entry: T)
    ensures Record(log, entry) == Take([entry] + log, Capacity)
  {
  }

  lemma TakeOfTake<T>(a: seq<T>, b: seq<T>, n: nat)
    ensures Take(a + Take(b, n), n) == Take(a + b, n)
  {
    var l := Take(a + b, n);
    var r := Take(a + Take(b, n), n);
    assert |l| == |r|;
    forall i | 0 <= i < |l|
      ensures l[i] == r[i]
    {
      if i >= |a| {
        assert l[i] == b[i - |a|];
      }
    }
  }

  lemma ReverseConcat<T>(a: seq<T>, b: seq<T>)
    ensures Reverse(a + b) == Reverse(b) + Reverse(a)
    decreases |a|
  {
    if |a| == 0 {
      assert a + b == b;
    } else {
      assert (a + b)[1..] == a[1..] + b;
      ReverseConcat(a[1..], b);
    }
  }

  /** After a run of records the list is the newest twenty of everything seen,
      newest first: the reversed arrivals followed by the earlier list. */
  lemma {:induction false} RecordAllIsNewestFirst<T>(log: seq<T>, entries: seq<T>)
    requires |log| <= Capacity || |entries| > 0
    ensures RecordAll(log, entries) == Take(Reverse(entries) + log, Capacity)
    decreases |entries|
  {
    if |entries| == 0 {
      assert Reverse(entries) + log == log;
    } else {
      var e := entries[0];
      var rest := entries[1..];
      RecordAllIsNewestFirst(Record(log, e), rest);
      RecordIsTake(log, e);
      TakeOfTake(Reverse(rest), [e] + log, Capacity);
      assert entries == [e] + rest;
      ReverseConcat([e], rest);
      assert Reverse([e]) == [e];
      assert Reverse(rest) + ([e] + log) == Reverse(entries) + log;
    }
  }

  /** A list within capacity stays within capacity however many entries arrive. */
  lemma RecordAllBounded<T>(log: seq<T>, entries: seq<T>)
    requires |log| <= Capacity
    ensures |RecordAll(log, entries)| == Min(|log| + |entries|, Capacity)
  {
    RecordAllIsNewestFirst(log, entries);
  }

  /** Once at least Capacity entries have arrived, the list holds exactly the
      last Capacity of them, newest first, whatever it held before. */
  lemma RecordAllKeepsLast<T>(log: seq<T>, entries: seq<T>)
    requires |entries| >= Capacity
    ensures RecordAll(log, entries) == Reverse(entries[|entries| - Capacity..])
  {
    var k := |entries| - Capacity;
    RecordAllIsNewestFirst(log, entries);
    assert entries == entries[..k] + entries[k..];
    ReverseConcat(entries[..k], entries[k..]);
    var rev := Reverse(entries[k..]);
    assert Reverse(entries) + log == rev + (Reverse(entries[..k]) + log);
  }

  /** Twenty-five entries recorded from an empty list leave the last twenty,
      newest first: the first five are gone. */
  lemma TwentyFiveLeaveLastTwenty<T>(entries: seq<T>)
    requires |entries| == 25
    ensures |RecordAll([], entries)| == 20
    ensures RecordAll([], entries) == Reverse(entries[5..])
    ensures forall i :: 0 <= i < 20 ==> RecordAll([], entries)[i] == entries[24 - i]
  {
    RecordAllKeepsLast([], entries);
    ReverseIndex(entries[5..]);
  }

  lemma {:induction false} ReverseIndex<T>(s: seq<T>)
    ensures forall i :: 0 <= i < |s| ==> Reverse(s)[i] == s[|s| - 1 - i]
    decreases |s|
  {
    if |s| > 0 {
      ReverseIndex(s[1..]);
    }
  }
}
