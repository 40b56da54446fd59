/** Rendering of an inbound characteristic value: the hexadecimal text
    (`arrayToHexString`), the character text (`arrayToString`) and the
    `ReceivedData` entry built in the value-update listener of App.tsx. */
module Payload {
  import opened Wrappers

  /** A value delivered by the radio stack is an array of unsigned 8-bit numbers. */
  type byte = x: int | 0 <= x < 256

  /** One entry of the received-data list. */
  datatype ReceivedData = ReceivedData(timestamp: string, data: string, characteristic: string)

  /** The payload of a value-update event; `value` may be absent. */
  datatype ValueUpdate = ValueUpdate(value: Option<seq<byte>>, service: string, characteristic: string)

  const NoData: string := "No data"

  // ---------------------------------------------------------------------------
  // The hex encoder as written: toString(16), padStart(2, '0'), join(' '),
  // toUpperCase().
  // ---------------------------------------------------------------------------

  /** The lower-case digit JavaScript's `toString(16)` prints for `d`. */
  function LowerDigit(d: nat): char
    requires d < 16
  {
    if d < 10 then ('0' as int + d) as char else ('a' as int + d - 10) as char
  }

  /** Upper-case hexadecimal digit. */
  function UpperDigit(d: nat): char
    requires d < 16
  {
    if d < 10 then ('0' as int + d) as char else ('A' as int + d - 10) as char
  }

  /** `n.toString(16)` for a non-negative integer: no leading zeros. */
  function ToHexString(n: nat): (r: string)
    ensures 1 <= |r|
    ensures n < 16 <==> |r| == 1
    ensures n < 256 ==> |r| <= 2
  {
    if n < 16 then [LowerDigit(n)] else ToHexString(n / 16) + [LowerDigit(n % 16)]
  }

  /** `s.padStart(width, fill)` with a one-character filler. */
  function PadStart(s: string, width: nat, fill: char): (r: string)
    ensures |r| == if |s| < width then width else |s|
    ensures r[|r| - |s|..] == s
    ensures forall i :: 0 <= i < |r| - |s| ==> r[i] == fill
  {
    if |s| >= width then s else seq(width - |s|, _ => fill) + s
  }

  /** `Array.prototype.join(sep)`. */
  function Join(parts: seq<string>, sep: string): string
  {
    if |parts| == 0 then ""
    else if |parts| == 1 then parts[0]
    else parts[0] + sep + Join(parts[1..], sep)
  }

  /** `toUpperCase` on one character; only ASCII letters are affected, which
      covers every character a hexadecimal rendering can contain. */
  function UpperAscii(c: char): (r: char)
  {
    if 'a' <= c <= 'z' then (c as int - 32) as char else c
  }

  function ToUpper(s: string): (r: string)
    ensures |r| == |s|
    ensures forall i :: 0 <= i < |s| ==> r[i] == UpperAscii(s[i])
  {
    seq(|s|, i requires 0 <= i < |s| => UpperAscii(s[i]))
  }

  /** The per-byte strings `byte.toString(16).padStart(2, '0')`. */
  function PaddedHex(bs: seq<byte>): (r: seq<string>)
    ensures |r| == |bs|
  {
    if |bs| == 0 then [] else [PadStart(ToHexString(bs[0]), 2, '0')] + PaddedHex(bs[1..])
  }

  /** `arrayToHexString` exactly as written in the listener's helper. */
  function ArrayToHexString(bs: seq<byte>): string
  {
    ToUpper(Join(PaddedHex(bs), " "))
  }

  // ---------------------------------------------------------------------------
  // Reference encoding: two upper-case digits per byte, single spaces between.
  // ---------------------------------------------------------------------------

  function HexPair(b: byte): (r: string)
  {
    [UpperDigit(b / 16), UpperDigit(b % 16)]
  }

  function Hex(bs: seq<byte>): string
  {
    if |bs| == 0 then ""
    else if |bs| == 1 then HexPair(bs[0])
    else HexPair(bs[0]) + " " + Hex(bs[1..])
  }

  lemma UpperOfLowerDigit(d: nat)
    requires d < 16
    ensures UpperAscii(LowerDigit(d)) == UpperDigit(d)
  {
  }

  /** One byte: `toString(16).padStart(2, '0').toUpperCase()` is the pair of digits. */
  lemma PaddedByteIsHexPair(b: byte)
    ensures ToUpper(PadStart(ToHexString(b), 2, '0')) == HexPair(b)
  {
    var p := PadStart(ToHexString(b), 2, '0');
    if b < 16 {
      assert p == ['0', LowerDigit(b)];
    } else {
      assert ToHexString(b) == [LowerDigit(b / 16), LowerDigit(b % 16)];
      assert p == [LowerDigit(b / 16), LowerDigit(b % 16)];
    }
    UpperOfLowerDigit(b / 16);
    UpperOfLowerDigit(b % 16);
  }

  lemma ToUpperConcat(a: string, b: string)
    ensures ToUpper(a + b) == ToUpper(a) + ToUpper(b)
  {
  }

  /** The encoder as written equals the reference encoding. */
  lemma {:induction false} ArrayToHexStringIsHex(bs: seq<byte>)
    ensures ArrayToHexString(bs) == Hex(bs)
    decreases |bs|
  {
    if |bs| == 0 {
    } else if |bs| == 1 {
      assert PaddedHex(bs) == [PadStart(ToHexString(bs[0]), 2, '0')];
      PaddedByteIsHexPair(bs[0]);
    } else {
      var head := PadStart(ToHexString(bs[0]), 2, '0');
      var tail := Join(PaddedHex(bs[1..]), " ");
      assert PaddedHex(bs) == [head] + PaddedHex(bs[1..]);
      assert Join(PaddedHex(bs), " ") == head + " " + tail;
      ToUpperConcat(head + " ", tail);
      ToUpperConcat(head, " ");
      assert ToUpper(" ") == " ";
      PaddedByteIsHexPair(bs[0]);
      ArrayToHexStringIsHex(bs[1..]);
      assert ToUpper(tail) == Hex(bs[1..]);
      assert ArrayToHexString(bs) == ToUpper(head) + " " + ToUpper(tail);
    }
  }

  /** Length of the rendering: 3n - 1 characters for n >= 1 bytes, none for none. */
  lemma {:induction false} HexLength(bs: seq<byte>)
    ensures |Hex(bs)| == if |bs| == 0 then 0 else 3 * |bs| - 1
    decreases |bs|
  {
    if |bs| > 1 {
      HexLength(bs[1..]);
    }
  }

  /** Layout of the rendering: byte i sits at offsets 3i and 3i+1 as two
      upper-case digits, and offset 3i+2 separating it from byte i+1 is a space. */
  lemma {:induction false} HexLayout(bs: seq<byte>, i: nat)
    requires i < |bs|
    ensures |Hex(bs)| == 3 * |bs| - 1
    ensures Hex(bs)[3 * i] == UpperDigit(bs[i] / 16)
    ensures Hex(bs)[3 * i + 1] == UpperDigit(bs[i] % 16)
    ensures i + 1 < |bs| ==> Hex(bs)[3 * i + 2] == ' '
    decreases i
  {
    HexLength(bs);
    if |bs| > 1 {
      HexLength(bs[1..]);
      var rest := Hex(bs[1..]);
      assert Hex(bs) == HexPair(bs[0]) + " " + rest;
      if i > 0 {
        HexLayout(bs[1..], i - 1);
        assert Hex(bs)[3 * i] == rest[3 * (i - 1)];
        assert Hex(bs)[3 * i + 1] == rest[3 * (i - 1) + 1];
        if i + 1 < |bs| {
          assert Hex(bs)[3 * i + 2] == rest[3 * (i - 1) + 2];
        }
      }
    }
  }

  // ---------------------------------------------------------------------------
  // Decoding the rendering back: the inverse partner of Hex.
  // ---------------------------------------------------------------------------

  function HexDigitValue(c: char): Option<nat>
  {
    if '0' <= c <= '9' then Some(c as int - '0' as int)
    else if 'A' <= c <= 'F' then Some(c as int - 'A' as int + 10)
    else None
  }

  /** Parses space-separated pairs of upper-case hexadecimal digits. */
  function HexDecode(s: string): Option<seq<byte>>
    decreases |s|
  {
    if |s| == 0 then Some([])
    else if |s| < 2 then None
    else
      match (HexDigitValue(s[0]), HexDigitValue(s[1]))
      case (Some(h), Some(l)) =>
        if h >= 16 || l >= 16 then None
        else
          var b: byte := h * 16 + l;
          if |s| == 2 then Some([b])
          else if s[2] == ' ' && |s| > 3 then
            match HexDecode(s[3..])
            case Some(rest) => Some([b] + rest)
            case None => None
          else None
      case _ => None
  }

  lemma DigitRoundTrip(d: nat)
    requires d < 16
    ensures HexDigitValue(UpperDigit(d)) == Some(d)
  {
  }

  /** Decoding the rendering recovers the bytes: the encoding loses nothing. */
  lemma {:induction false} HexRoundTrip(bs: seq<byte>)
    ensures HexDecode(Hex(bs)) == Some(bs)
    decreases |bs|
  {
    if |bs| > 0 {
      var b := bs[0];
      DigitRoundTrip(b / 16);
      DigitRoundTrip(b % 16);
      if |bs| == 1 {
        assert bs == [b];
      } else {
        HexLength(bs[1..]);
        HexRoundTrip(bs[1..]);
        var s := Hex(bs);
        assert s == HexPair(b) + " " + Hex(bs[1..]);
        assert s[3..] == Hex(bs[1..]);
        assert bs == [b] + bs[1..];
      }
    }
  }

  // ---------------------------------------------------------------------------
  // arrayToString: String.fromCharCode(...array)
  // ---------------------------------------------------------------------------

  /** `String.fromCharCode(...array)`: one character per byte, with that code. */
  function ArrayToString(bs: seq<byte>): (r: string)
    ensures |r| == |bs|
    ensures forall i :: 0 <= i < |bs| ==> r[i] as int == bs[i]
  {
    if |bs| == 0 then "" else [bs[0] as char] + ArrayToString(bs[1..])
  }

  /** `charCodeAt` over a whole string. */
  function CharCodes(s: string): seq<int>
  {
    seq(|s|, i requires 0 <= i < |s| => s[i] as int)
  }

  /** Reading the character codes back gives the original bytes; a corollary
      of the contract of ArrayToString, stated as the inverse direction. */
  lemma CharCodesRoundTrip(bs: seq<byte>)
    ensures CharCodes(ArrayToString(bs)) == bs
  {
  }

  // ---------------------------------------------------------------------------
  // The entry built by the value-update listener.
  // ---------------------------------------------------------------------------

  /** The entry's `data`: "No data" when the value is absent, otherwise the
      hex rendering followed by the character text in parentheses. A present
      but empty array is truthy and so renders as " ()". */
  function EntryData(value: Option<seq<byte>>): (r: string)
    ensures r == NoData <==> value.None?
  {
    match value
    case None => NoData
    case Some(bs) => ArrayToHexString(bs) + " (" + ArrayToString(bs) + ")"
  }

  /** Shape of the data field for a present value, stated against the reference encoding. */
  lemma {:induction false} EntryDataShape(bs: seq<byte>)
    ensures var r := EntryData(Some(bs));
      && r == Hex(bs) + " (" + ArrayToString(bs) + ")"
      && |r| == (if |bs| == 0 then 3 else 4 * |bs| + 2)
      && CharCodes(r[|r| - 1 - |bs|..|r| - 1]) == bs
    ensures bs == [] ==> EntryData(Some(bs)) == " ()"
  {
    ArrayToHexStringIsHex(bs);
    HexLength(bs);
    var r := EntryData(Some(bs));
    assert r[|r| - 1 - |bs|..|r| - 1] == ArrayToString(bs);
  }

  /** Recovers the value from an entry's data field. */
  function DecodeEntryData(data: string): Option<Option<seq<byte>>>
  {
    if data == NoData then Some(None)
    else if data == " ()" then Some(Some([]))
    else if |data| < 6 || data[|data| - 1] != ')' || (|data| - 2) % 4 != 0 then None
    else
      var n := (|data| - 2) / 4;
      match HexDecode(data[..3 * n - 1])
      case Some(bs) => Some(Some(bs))
      case None => None
  }

  /** The data field determines the value it was built from. */
  lemma {:induction false} EntryDataRoundTrip(value: Option<seq<byte>>)
    ensures DecodeEntryData(EntryData(value)) == Some(value)
  {
    if value.Some? {
      var bs := value.value;
      EntryDataShape(bs);
      if |bs| > 0 {
        NonEmptyEntryDataDecodes(bs);
      }
    }
  }

  lemma NonEmptyEntryDataDecodes(bs: seq<byte>)
    requires |bs| > 0
    ensures DecodeEntryData(EntryData(Some(bs))) == Some(Some(bs))
  {
    EntryDataShape(bs);
    HexLength(bs);
    HexRoundTrip(bs);
    DecodeComposed(Hex(bs), ArrayToString(bs), bs);
  }

  lemma DecodeComposed(h: string, t: string, bs: seq<byte>)
    requires |t| > 0 && |h| == 3 * |t| - 1
    requires HexDecode(h) == Some(bs)
    ensures DecodeEntryData(h + " (" + t + ")") == Some(Some(bs))
  {
    var r := h + " (" + t + ")";
    var n := |t|;
    assert |r| == 4 * n + 2;
    assert (|r| - 2) % 4 == 0 && (|r| - 2) / 4 == n;
    assert r[|r| - 1] == ')';
    assert r[..3 * n - 1] == h;
    assert r != NoData by { assert r[|r| - 1] != NoData[|NoData| - 1]; }
    assert r != " ()";
  }

  /** The listener's entry: timestamp as given (the locale time string is
      opaque here), the data field, and the "service/characteristic" label. */
  function MakeEntry(update: ValueUpdate, timestamp: string): (r: ReceivedData)
    ensures r.timestamp == timestamp
    ensures DecodeEntryData(r.data) == Some(update.value)
    ensures r.data == NoData <==> update.value.None?
    ensures |r.characteristic| == |update.service| + 1 + |update.characteristic|
    ensures r.characteristic[..|update.service|] == update.service
    ensures r.characteristic[|update.service|] == '/'
    ensures r.characteristic[|update.service| + 1..] == update.characteristic
  {
    EntryDataRoundTrip(update.value);
    ReceivedData(timestamp, EntryData(update.value), update.service + "/" + update.characteristic)
  }

  /** Worked value: bytes 0x41 0x42 read "41 42 (AB)". */
  lemma EntryExampleAB()
    ensures EntryData(Some([0x41, 0x42])) == "41 42 (AB)"
  {
    TwoByteEntry(0x41, 0x42);
    TwoByteText(0x41, 0x42, "41", "42", "41 42 (AB)", 'A', 'B');
  }

  /** Worked value: bytes 0x48 0x49 read "48 49 (HI)". */
  lemma EntryExampleHI()
    ensures EntryData(Some([0x48, 0x49])) == "48 49 (HI)"
  {
    TwoByteEntry(0x48, 0x49);
    TwoByteText(0x48, 0x49, "48", "49", "48 49 (HI)", 'H', 'I');
  }

  lemma TwoByteText(x: byte, y: byte, hx: string, hy: string, whole: string, cx: char, cy: char)
    requires HexPair(x) == hx && HexPair(y) == hy && x as char == cx && y as char == cy
    requires whole == hx + " " + hy + " (" + [cx, cy] + ")"
    ensures HexPair(x) + " " + HexPair(y) + " (" + [x as char, y as char] + ")" == whole
  {
  }

  lemma TwoByteEntry(x: byte, y: byte)
    ensures EntryData(Some([x, y])) == HexPair(x) + " " + HexPair(y) + " (" + [x as char, y as char] + ")"
  {
    var bs: seq<byte> := [x, y];
    EntryDataShape(bs);
    assert bs[1..] == [y];
    assert Hex(bs) == HexPair(x) + " " + HexPair(y);
    var t := ArrayToString(bs);
    assert t == [x as char, y as char];
  }
}
