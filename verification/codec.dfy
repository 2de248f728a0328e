/**
 The fixed-width credential codec: how one string is written into a 32-byte
 EEPROM slot (byte by byte, zero padded, cut at 32 bytes) and how the four
 slots are read back as C strings at boot.
 */
module Codec {
  import opened Layout

  /** An Arduino `String` as the bytes it holds. */
  type Bytes = seq<bv8>

  /** The EEPROM region, as the byte image `EEPROM.read`/`EEPROM.write` see. */
  type Eeprom = e: Bytes | |e| == EepromSize witness seq(EepromSize, _ => 0)

  /** The four in-memory credential strings (`storedStrings`). */
  type Slots = s: seq<Bytes> | |s| == MaxStrings witness [[], [], [], []]

  /** `s` holds no zero byte, so a C string built from it would not stop early. */
  predicate NoNul(s: Bytes)
  {
    forall k :: 0 <= k < |s| ==> s[k] != 0
  }

  /** Result of reading a byte buffer as a C string. `Unterminated` is the case
      where the buffer holds no zero byte: the read would run past the buffer,
      which C leaves undefined. */
  datatype CStr = Terminated(value: Bytes) | Unterminated

  /** The C string held in `buf`: the bytes before its first zero byte. */
  function CString(buf: Bytes): (r: CStr)
    ensures r.Unterminated? <==> NoNul(buf)
    ensures r.Terminated? ==> |r.value| < |buf| && buf[|r.value|] == 0
    ensures r.Terminated? ==> r.value == buf[..|r.value|] && NoNul(r.value)
  {
    if |buf| == 0 then Unterminated
    else if buf[0] == 0 then Terminated([])
    else
      match CString(buf[1..])
      case Unterminated => Unterminated
      case Terminated(t) => Terminated([buf[0]] + t)
  }

  /** The image one slot receives for `s`: its first 32 bytes, zero padded. */
  function Encode(s: Bytes): (w: Bytes)
    ensures |w| == MaxLength
  {
    seq(MaxLength, k requires 0 <= k < MaxLength => if k < |s| then s[k] else 0)
  }

  /** The 32 bytes of slot `i`. */
  function Window(e: Eeprom, i: SlotIndex): (w: Bytes)
    ensures |w| == MaxLength
    ensures forall k :: 0 <= k < MaxLength ==> w[k] == e[SlotStart(i) + k]
  {
    e[SlotStart(i)..SlotStart(i) + MaxLength]
  }

  /** The EEPROM after `saveStringToEEPROM(i, s)`. */
  function Save(e: Eeprom, i: SlotIndex, s: Bytes): (e': Eeprom)
    ensures forall a :: 0 <= a < EepromSize && !InSlot(i, a) ==> e'[a] == e[a]
    ensures forall k :: 0 <= k < MaxLength ==> Window(e', i)[k] == (if k < |s| then s[k] else 0)
    ensures Window(e', i) == Encode(s)
    ensures forall j: SlotIndex :: j != i ==> Window(e', j) == Window(e, j)
  {
    var e' := e[..SlotStart(i)] + Encode(s) + e[SlotStart(i) + MaxLength..];
    assert Window(e', i) == Encode(s);
    assert forall j: SlotIndex :: j != i ==> Window(e', j) == Window(e, j) by {
      forall j: SlotIndex | j != i
        ensures Window(e', j) == Window(e, j)
      {
        SlotsDisjoint(i, j);
      }
    }
    e'
  }

  /** The loop of `saveStringToEEPROM`: one `EEPROM.write` per slot byte. */
  method SaveStringToEeprom(e: Eeprom, index: SlotIndex, str: Bytes) returns (e': Eeprom)
    ensures e' == Save(e, index, str)
  {
    var start := SlotStart(index);
    e' := e;
    for i := 0 to MaxLength
      invariant forall a :: 0 <= a < EepromSize && !InSlot(index, a) ==> e'[a] == e[a]
      invariant forall a :: start <= a < start + i ==> e'[a] == (if a - start < |str| then str[a - start] else 0)
      invariant forall a :: start + i <= a < start + MaxLength ==> e'[a] == e[a]
    {
      if i < |str| {
        e' := e'[start + i := str[i]];
      } else {
        e' := e'[start + i := 0];
      }
    }
    var expected := Save(e, index, str);
    assert forall a :: 0 <= a < EepromSize ==> e'[a] == expected[a] by {
      forall a | 0 <= a < EepromSize
        ensures e'[a] == expected[a]
      {
        if InSlot(index, a) {
          assert Window(expected, index)[a - start] == expected[a];
        }
      }
    }
  }

  /** `String(buffer)` for the 32 bytes of slot `i`. */
  function DecodeSlot(e: Eeprom, i: SlotIndex): (r: CStr)
    ensures r.Terminated? ==> |r.value| < MaxLength && NoNul(r.value)
    ensures r.Unterminated? <==> NoNul(Window(e, i))
  {
    CString(Window(e, i))
  }

  /** Outcome of `loadStringsFromEEPROM`: the four strings, or the first slot
      whose bytes hold no terminator (the read of that slot is undefined). */
  datatype LoadResult = Loaded(stored: Slots) | Undefined(slot: SlotIndex)

  /** The four strings, given what each slot decodes to in slot order. */
  function Collect(ds: seq<CStr>): (r: LoadResult)
    requires |ds| == MaxStrings
    ensures r.Loaded? <==> forall i :: 0 <= i < |ds| ==> ds[i].Terminated?
    ensures r.Loaded? ==> forall i :: 0 <= i < |ds| ==> r.stored[i] == ds[i].value
    ensures r.Undefined? ==> ds[r.slot].Unterminated? && forall i :: 0 <= i < r.slot ==> ds[i].Terminated?
  {
    if ds[0].Unterminated? then Undefined(0)
    else if ds[1].Unterminated? then Undefined(1)
    else if ds[2].Unterminated? then Undefined(2)
    else if ds[3].Unterminated? then Undefined(3)
    else Loaded([ds[0].value, ds[1].value, ds[2].value, ds[3].value])
  }

  /** The four strings read back from the EEPROM at boot. */
  function Load(e: Eeprom): (r: LoadResult)
    ensures r.Loaded? <==> forall i: SlotIndex :: DecodeSlot(e, i).Terminated?
    ensures r.Loaded? ==> forall i: SlotIndex :: r.stored[i] == DecodeSlot(e, i).value
    ensures r.Undefined? ==> DecodeSlot(e, r.slot).Unterminated?
    ensures r.Undefined? ==> forall i: SlotIndex :: i < r.slot ==> DecodeSlot(e, i).Terminated?
  {
    var ds := seq(MaxStrings, i requires 0 <= i < MaxStrings => DecodeSlot(e, i));
    assert forall i :: 0 <= i < MaxStrings ==> ds[i] == DecodeSlot(e, i);
    Collect(ds)
  }

  /** The load is undefined at the first slot that holds no terminator. */
  lemma LoadStopsAtFirstUnterminated(e: Eeprom, i: SlotIndex)
    requires forall k :: 0 <= k < i ==> DecodeSlot(e, k).Terminated?
    requires DecodeSlot(e, i).Unterminated?
    ensures Load(e) == Undefined(i)
  {
  }

  /** When every slot is terminated, the load yields the four decoded strings. */
  lemma LoadCollectsAllSlots(e: Eeprom, stored: seq<Bytes>)
    requires |stored| == MaxStrings
    requires forall k :: 0 <= k < MaxStrings ==> DecodeSlot(e, k).Terminated? && stored[k] == DecodeSlot(e, k).value
    ensures Load(e) == Loaded(stored)
  {
  }

  /** The inner loop of `loadStringsFromEEPROM`: copy the 32 bytes of slot `i`
      into a buffer. */
  method ReadSlotBuffer(e: Eeprom, i: SlotIndex) returns (buffer: Bytes)
    ensures buffer == Window(e, i)
  {
    var start := SlotStart(i);
    buffer := [];
    for j := 0 to MaxLength
      invariant buffer == e[start..start + j]
    {
      buffer := buffer + [e[start + j]];
    }
  }

  /** The outer loop of `loadStringsFromEEPROM`: read each slot's buffer and
      take the C string it holds. */
  method LoadStringsFromEeprom(e: Eeprom) returns (r: LoadResult)
    ensures r == Load(e)
  {
    var stored: seq<Bytes> := [];
    for i := 0 to MaxStrings
      invariant |stored| == i
      invariant forall k :: 0 <= k < i ==> DecodeSlot(e, k).Terminated? && stored[k] == DecodeSlot(e, k).value
    {
      var buffer := ReadSlotBuffer(e, i);
      var c := CString(buffer);
      if c.Unterminated? {
        LoadStopsAtFirstUnterminated(e, i);
        return Undefined(i);
      }
      stored := stored + [c.value];
    }
    LoadCollectsAllSlots(e, stored);
    return Loaded(stored);
  }

  /** A buffer whose first zero byte is at `p` holds the C string of its first `p` bytes. */
  lemma CStringStopsAtFirstNul(buf: Bytes, p: nat)
    requires p < |buf| && buf[p] == 0 && NoNul(buf[..p])
    ensures CString(buf) == Terminated(buf[..p])
  {
  }

  /** Round trip: a string shorter than the slot and free of zero bytes is read
      back exactly from the slot it was saved to. */
  lemma SaveThenDecode(e: Eeprom, i: SlotIndex, s: Bytes)
    requires |s| < MaxLength && NoNul(s)
    ensures DecodeSlot(Save(e, i, s), i) == Terminated(s)
  {
    var w := Window(Save(e, i, s), i);
    assert w[..|s|] == s;
    CStringStopsAtFirstNul(w, |s|);
  }

  /** A zero byte inside the first 32 bytes of a saved string cuts it there. */
  lemma SaveWithNulDecodesPrefix(e: Eeprom, i: SlotIndex, s: Bytes, p: nat)
    requires p < |s| && p < MaxLength && s[p] == 0 && NoNul(s[..p])
    ensures DecodeSlot(Save(e, i, s), i) == Terminated(s[..p])
  {
    var w := Window(Save(e, i, s), i);
    assert w[..p] == s[..p];
    CStringStopsAtFirstNul(w, p);
  }

  /** The hazard of a full-width string: 32 or more non-zero bytes fill the
      slot, the read-back buffer has no terminator, and the read is undefined. */
  lemma SaveFullWidthUnterminated(e: Eeprom, i: SlotIndex, s: Bytes)
    requires |s| >= MaxLength && NoNul(s[..MaxLength])
    ensures DecodeSlot(Save(e, i, s), i) == Unterminated
  {
    var w := Window(Save(e, i, s), i);
    assert forall k :: 0 <= k < MaxLength ==> w[k] == s[..MaxLength][k];
  }

  /** Saving into one slot leaves what every other slot decodes to unchanged. */
  lemma SaveKeepsOtherSlots(e: Eeprom, i: SlotIndex, j: SlotIndex, s: Bytes)
    requires i != j
    ensures DecodeSlot(Save(e, i, s), j) == DecodeSlot(e, j)
  {
  }

  /** Decoding a slot depends on that slot's 32 bytes alone. */
  lemma DecodeReadsOnlyItsWindow(e1: Eeprom, e2: Eeprom, i: SlotIndex)
    requires forall a :: InSlot(i, a) ==> e1[a] == e2[a]
    ensures DecodeSlot(e1, i) == DecodeSlot(e2, i)
  {
    assert Window(e1, i) == Window(e2, i) by {
      forall k | 0 <= k < MaxLength
        ensures Window(e1, i)[k] == Window(e2, i)[k]
      {
        assert InSlot(i, SlotStart(i) + k);
      }
    }
  }

  /** At most 32 bytes of a string reach the EEPROM: strings that agree on
      their first 32 bytes leave identical images. */
  lemma SaveTruncates(e: Eeprom, i: SlotIndex, s: Bytes)
    requires |s| > MaxLength
    ensures Save(e, i, s) == Save(e, i, s[..MaxLength])
  {
    assert Encode(s) == Encode(s[..MaxLength]);
  }
}
