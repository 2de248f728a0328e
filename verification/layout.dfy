/**
 Storage layout of the Wi-Fi manager: a 512-byte EEPROM region of which the
 first four 32-byte windows hold the credential strings, in the order
 primary SSID, primary password, secondary SSID, secondary password.
 */
module Layout {

  /** Bytes requested from the EEPROM emulation at boot. */
  const EepromSize: nat := 512

  /** Width of one string slot; longer strings are cut to this width. */
  const MaxLength: nat := 32

  /** Number of string slots (two SSID/password pairs). */
  const MaxStrings: nat := 4

  /** Index of one of the four string slots. */
  type SlotIndex = i: nat | i < MaxStrings

  /** First address of slot `i`. */
  function SlotStart(i: SlotIndex): (a: nat)
    ensures a % MaxLength == 0
    ensures a + MaxLength <= MaxStrings * MaxLength
  {
    i * MaxLength
  }

  /** Address `a` lies inside the window of slot `i`. */
  predicate InSlot(i: SlotIndex, a: int)
  {
    SlotStart(i) <= a < SlotStart(i) + MaxLength
  }

  /** All four slots together take 128 bytes, which fit in the EEPROM region. */
  lemma SlotRegionFits()
    ensures MaxStrings * MaxLength == 128
    ensures MaxStrings * MaxLength <= EepromSize
    ensures forall i: SlotIndex :: SlotStart(i) + MaxLength <= EepromSize
  {
  }

  /** Distinct slots have disjoint windows, and every slot address belongs to exactly one slot. */
  lemma SlotsDisjoint(i: SlotIndex, j: SlotIndex)
    requires i != j
    ensures forall a :: !(InSlot(i, a) && InSlot(j, a))
  {
  }

  /** Every address below 128 lies in exactly one slot, namely slot `a / 32`. */
  lemma SlotOfAddress(a: nat)
    requires a < MaxStrings * MaxLength
    ensures a / MaxLength < MaxStrings
    ensures InSlot(a / MaxLength, a)
    ensures forall i: SlotIndex :: InSlot(i, a) ==> i == a / MaxLength
  {
  }
}
