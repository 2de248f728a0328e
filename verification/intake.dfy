/**
 Credential intake (`handleRootPost`): a submitted pair is written to memory
 and to the EEPROM when both of its form fields are present, whatever their
 values; then the device restarts and the boot sequence reads the EEPROM
 again.
 */
module Intake {
  import opened Layout
  import opened Codec
  import opened Boot

  /** Form fields of the configuration page, as the request carries them. */
  type Args = map<string, Bytes>

  /** Name of the form field whose value is stored in slot `i`. */
  function ArgName(i: SlotIndex): string
  {
    if i == 0 then "primary_ssid"
    else if i == 1 then "primary_password"
    else if i == 2 then "secondary_ssid"
    else "secondary_password"
  }

  /** The pair slot `i` belongs to. */
  function PairOf(i: SlotIndex): (p: Pair)
    ensures i == SsidSlot(p) || i == PasswordSlot(p)
  {
    if i < 2 then Primary else Secondary
  }

  /** Both fields of pair `p` are present (`server.hasArg` for each); the
      values are not inspected, so empty values count as present. */
  predicate Submitted(args: Args, p: Pair)
  {
    ArgName(SsidSlot(p)) in args && ArgName(PasswordSlot(p)) in args
  }

  /** The manager's state: `storedStrings` and the EEPROM image. */
  datatype Device = Device(stored: Slots, eeprom: Eeprom)

  /** The strings in memory are what the EEPROM decodes to, as after a boot. */
  predicate Consistent(d: Device)
  {
    Load(d.eeprom) == Loaded(d.stored)
  }

  /** The device after the handler, and the EEPROM image after each of its
      commits (each `saveStringToEEPROM` commits on its own). */
  datatype PostOutcome = PostOutcome(device: Device, commits: seq<Eeprom>)

  /** Store the submitted pair `p`: both strings into memory, then each into
      its slot with its own commit. */
  function StorePair(d: Device, args: Args, p: Pair): (r: PostOutcome)
    requires Submitted(args, p)
    ensures forall i: SlotIndex :: PairOf(i) == p ==>
              r.device.stored[i] == args[ArgName(i)] && Window(r.device.eeprom, i) == Encode(args[ArgName(i)])
    ensures forall i: SlotIndex :: PairOf(i) != p ==>
              r.device.stored[i] == d.stored[i] && Window(r.device.eeprom, i) == Window(d.eeprom, i)
    ensures forall a :: MaxStrings * MaxLength <= a < EepromSize ==> r.device.eeprom[a] == d.eeprom[a]
    ensures |r.commits| == 2 && r.commits[1] == r.device.eeprom
    ensures Window(r.commits[0], SsidSlot(p)) == Encode(args[ArgName(SsidSlot(p))])
    ensures Window(r.commits[0], PasswordSlot(p)) == Window(d.eeprom, PasswordSlot(p))
  {
    var ssid := args[ArgName(SsidSlot(p))];
    var password := args[ArgName(PasswordSlot(p))];
    var stored := d.stored[SsidSlot(p) := ssid][PasswordSlot(p) := password];
    var e1 := Save(d.eeprom, SsidSlot(p), ssid);
    var e2 := Save(e1, PasswordSlot(p), password);
    PostOutcome(Device(stored, e2), [e1, e2])
  }

  /** `handleRootPost` up to the restart: the primary pair is stored when both
      primary fields are present, then the secondary pair likewise. Slots of a
      pair that was not submitted keep their memory and EEPROM contents, and the
      EEPROM beyond the four slots is never touched. */
  function HandleRootPost(d: Device, args: Args): (r: PostOutcome)
    ensures forall i: SlotIndex :: Submitted(args, PairOf(i)) ==>
              r.device.stored[i] == args[ArgName(i)] && Window(r.device.eeprom, i) == Encode(args[ArgName(i)])
    ensures forall i: SlotIndex :: !Submitted(args, PairOf(i)) ==>
              r.device.stored[i] == d.stored[i] && Window(r.device.eeprom, i) == Window(d.eeprom, i)
    ensures forall a :: MaxStrings * MaxLength <= a < EepromSize ==> r.device.eeprom[a] == d.eeprom[a]
    ensures |r.commits| == (if Submitted(args, Primary) then 2 else 0) + (if Submitted(args, Secondary) then 2 else 0)
    ensures |r.commits| > 0 ==> r.commits[|r.commits| - 1] == r.device.eeprom
  {
    var first := if Submitted(args, Primary) then StorePair(d, args, Primary) else PostOutcome(d, []);
    var second :=
      if Submitted(args, Secondary) then StorePair(first.device, args, Secondary)
      else PostOutcome(first.device, []);
    PostOutcome(second.device, first.commits + second.commits)
  }

  /** Values that survive the trip through a slot: shorter than 32 bytes and
      free of zero bytes. */
  predicate Storable(s: Bytes)
  {
    |s| < MaxLength && NoNul(s)
  }

  /** Every value the handler writes is storable; fields of a pair that is not
      submitted are never written and may hold anything. */
  predicate StorableArgs(args: Args)
  {
    forall i: SlotIndex :: Submitted(args, PairOf(i)) ==> Storable(args[ArgName(i)])
  }

  /** After the restart the EEPROM decodes to exactly the strings the handler
      left in memory, provided memory and EEPROM agreed before and every
      submitted value is storable. */
  lemma PostKeepsConsistent(d: Device, args: Args)
    requires Consistent(d) && StorableArgs(args)
    ensures Consistent(HandleRootPost(d, args).device)
  {
    var r := HandleRootPost(d, args).device;
    forall i: SlotIndex
      ensures DecodeSlot(r.eeprom, i) == Terminated(r.stored[i])
    {
      PostDecodesSlot(d, args, i);
    }
    LoadCollectsAllSlots(r.eeprom, r.stored);
  }

  /** Slot `i` decodes to its string in memory after the handler: a written
      slot to the submitted value, any other slot to what it held before. */
  lemma PostDecodesSlot(d: Device, args: Args, i: SlotIndex)
    requires Consistent(d) && StorableArgs(args)
    ensures var r := HandleRootPost(d, args).device;
            DecodeSlot(r.eeprom, i) == Terminated(r.stored[i])
  {
    var r := HandleRootPost(d, args).device;
    if Submitted(args, PairOf(i)) {
      var v := args[ArgName(i)];
      SaveThenDecode(r.eeprom, i, v);
      assert Window(Save(r.eeprom, i, v), i) == Window(r.eeprom, i);
    } else {
      assert Window(r.eeprom, i) == Window(d.eeprom, i);
    }
  }

  /** Submitting a pair and restarting makes the boot sequence try exactly the
      submitted strings first, when they are non-empty and storable. */
  lemma PostThenRebootTriesSubmitted(d: Device, args: Args, net: Network)
    requires Consistent(d) && StorableArgs(args) && Submitted(args, Primary)
    requires args["primary_ssid"] != [] && args["primary_password"] != []
    ensures var b := Begin(HandleRootPost(d, args).device.eeprom, net);
            b.Booted? && |b.outcome.trace| > 0 &&
            b.outcome.trace[0] == Attempt(Primary, args["primary_ssid"], args["primary_password"])
  {
    var r := HandleRootPost(d, args).device;
    PostKeepsConsistent(d, args);
    assert r.stored[0] == args[ArgName(0)] && r.stored[1] == args[ArgName(1)];
    BootSequenceFirstAttempt(r.stored, net);
    assert Begin(r.eeprom, net) == Booted(BootSequence(r.stored, net));
  }

  /** Empty values are stored too: submitting an empty primary SSID erases the
      primary pair, and after the restart the primary pair is not tried. */
  lemma EmptySsidDisablesPair(d: Device, args: Args, net: Network)
    requires Consistent(d) && StorableArgs(args) && Submitted(args, Primary)
    requires args["primary_ssid"] == []
    ensures HandleRootPost(d, args).device.stored[0] == []
    ensures DecodeSlot(HandleRootPost(d, args).device.eeprom, 0) == Terminated([])
    ensures var b := Begin(HandleRootPost(d, args).device.eeprom, net);
            b.Booted? && !Tried(b.outcome.trace, Primary)
  {
    var r := HandleRootPost(d, args).device;
    PostKeepsConsistent(d, args);
    assert r.stored[0] == args[ArgName(0)];
    BootSequenceGating(r.stored, net);
  }

  /** A submitted value of 32 or more non-zero bytes (a 32-byte SSID, a long
      passphrase) fills its slot with no terminator: after the restart the
      load is undefined at that slot or at an earlier one, and no boot pass
      runs. */
  lemma LongValueBreaksNextBoot(d: Device, args: Args, net: Network, i: SlotIndex)
    requires Submitted(args, PairOf(i))
    requires |args[ArgName(i)]| >= MaxLength && NoNul(args[ArgName(i)][..MaxLength])
    ensures var b := Begin(HandleRootPost(d, args).device.eeprom, net);
            b.LoadUndefined? && b.slot <= i
  {
    PostLongValueUnterminated(d, args, i);
    UnterminatedSlotBreaksBoot(HandleRootPost(d, args).device.eeprom, net, i);
  }

  /** A written value of 32 or more non-zero bytes leaves its slot unterminated. */
  lemma PostLongValueUnterminated(d: Device, args: Args, i: SlotIndex)
    requires Submitted(args, PairOf(i))
    requires |args[ArgName(i)]| >= MaxLength && NoNul(args[ArgName(i)][..MaxLength])
    ensures DecodeSlot(HandleRootPost(d, args).device.eeprom, i).Unterminated?
  {
    var e := HandleRootPost(d, args).device.eeprom;
    var v := args[ArgName(i)];
    SaveFullWidthUnterminated(e, i, v);
    assert Window(Save(e, i, v), i) == Window(e, i);
  }

  /** The two writes of a pair are separate commits: the image after the first
      commit already holds the new SSID while the password slot still holds
      its old bytes, which is what a power loss between them would leave. */
  lemma PairWriteIsNotAtomic(d: Device, args: Args)
    requires Submitted(args, Primary)
    ensures var r := HandleRootPost(d, args);
            && Window(r.commits[0], 0) == Encode(args["primary_ssid"])
            && Window(r.commits[0], 1) == Window(d.eeprom, 1)
            && Window(r.commits[1], 1) == Encode(args["primary_password"])
  {
  }
}
