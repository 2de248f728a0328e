/**
 The boot decision sequence of `begin`/`connectToWiFi`: try the primary pair
 if both of its strings are set, then the secondary pair if the device is
 still unconnected and both of its strings are set, and start the access
 point when the device ends up unconnected. `connectToWiFi` also starts the
 access point after every failed attempt, so the action trace records those
 starts too.
 */
module Boot {
  import opened Layout
  import opened Codec
  import opened Poll

  /** The two credential pairs, in priority order. */
  datatype Pair = Primary | Secondary

  /** Slot holding the SSID of pair `p`. */
  function SsidSlot(p: Pair): SlotIndex
  {
    if p == Primary then 0 else 2
  }

  /** Slot holding the password of pair `p`. */
  function PasswordSlot(p: Pair): SlotIndex
  {
    if p == Primary then 1 else 3
  }

  /** A pair is attempted only when both of its strings are non-empty. */
  predicate Usable(stored: Slots, p: Pair)
  {
    stored[SsidSlot(p)] != [] && stored[PasswordSlot(p)] != []
  }

  /** The report of the poll loop (`PollOutcome` of the radio it observes)
      for each attempt of a boot pass, named by the pair it tries, and every
      credential pair its join request may carry. The two attempts are
      separate calls against a live radio, so their reports are independent
      even when both carry the same strings. */
  type Network = (Pair, Bytes, Bytes) -> AttemptOutcome

  /** The network of a radio environment: each join request is answered by
      the poll loop over the radio behaviour those credentials produce. */
  function RadioNetwork(radios: (Pair, Bytes, Bytes) -> Radio): (net: Network)
    ensures forall p, ssid, password :: net(p, ssid, password).connected <==> Succeeds(radios(p, ssid, password))
  {
    (p, ssid, password) => PollOutcome(radios(p, ssid, password))
  }

  /** The stored pair `p` joins its network. */
  predicate Joins(stored: Slots, net: Network, p: Pair)
  {
    net(p, stored[SsidSlot(p)], stored[PasswordSlot(p)]).connected
  }

  /** Observable effects of the boot sequence, in order. */
  datatype Action =
    | Attempt(pair: Pair, ssid: Bytes, password: Bytes)  // WiFi.begin and the poll loop
    | StartAP                                            // startAPMode

  /** The trace records an attempt to join with pair `p`. */
  predicate Tried(trace: seq<Action>, p: Pair)
  {
    exists k :: 0 <= k < |trace| && trace[k].Attempt? && trace[k].pair == p
  }

  /** Number of access-point starts in a trace. */
  function APStarts(trace: seq<Action>): nat
  {
    if |trace| == 0 then 0
    else (if trace[0] == StartAP then 1 else 0) + APStarts(trace[1..])
  }

  /** Access-point starts of consecutive trace pieces add up. */
  lemma {:induction false} APStartsAppend(a: seq<Action>, b: seq<Action>)
    ensures APStarts(a + b) == APStarts(a) + APStarts(b)
  {
    if |a| == 0 {
      assert a + b == b;
    } else {
      assert (a + b)[0] == a[0];
      assert (a + b)[1..] == a[1..] + b;
      APStartsAppend(a[1..], b);
    }
  }

  /** Trace, final connection status and total delays of a boot pass. */
  datatype Outcome = Outcome(trace: seq<Action>, connected: bool, delays: nat)

  /** `connectToWiFi` for pair `p`: one join attempt, and an access-point
      start right after it when the device is not connected. */
  function ConnectToWiFi(stored: Slots, net: Network, p: Pair): (r: Outcome)
    ensures r.connected <==> Joins(stored, net, p)
    ensures r.trace == [Attempt(p, stored[SsidSlot(p)], stored[PasswordSlot(p)])] +
                       (if r.connected then [] else [StartAP])
    ensures r.delays <= MaxDelays
  {
    var ssid := stored[SsidSlot(p)];
    var password := stored[PasswordSlot(p)];
    var report := net(p, ssid, password);
    Outcome([Attempt(p, ssid, password)] + (if report.connected then [] else [StartAP]),
            report.connected, report.delays)
  }

  /** A failed attempt starts the access point once; a successful one does not. */
  lemma ConnectToWiFiAPStarts(stored: Slots, net: Network, p: Pair)
    ensures var r := ConnectToWiFi(stored, net, p);
            APStarts(r.trace) == if r.connected then 0 else 1
  {
    var r := ConnectToWiFi(stored, net, p);
    var attempt := [r.trace[0]];
    APStartsAppend(attempt, r.trace[1..]);
    assert attempt + r.trace[1..] == r.trace;
  }

  /** No attempt: the device stays as it was. */
  function Skip(connected: bool): Outcome
  {
    Outcome([], connected, 0)
  }

  /** The decision part of `begin`, run on the strings loaded from the EEPROM.
      The radio is taken to be unconnected before the first attempt. The
      contract is the complete table of traces, one row per combination of
      usable pairs and join results. */
  function BootSequence(stored: Slots, net: Network): (r: Outcome)
    ensures var p := Attempt(Primary, stored[0], stored[1]);
            var s := Attempt(Secondary, stored[2], stored[3]);
            var up, us := Usable(stored, Primary), Usable(stored, Secondary);
            var jp, js := Joins(stored, net, Primary), Joins(stored, net, Secondary);
            && (up && jp ==> r.trace == [p] && r.connected)
            && (up && !jp && us && js ==> r.trace == [p, StartAP, s] && r.connected)
            && (up && !jp && us && !js ==> r.trace == [p, StartAP, s, StartAP, StartAP] && !r.connected)
            && (up && !jp && !us ==> r.trace == [p, StartAP, StartAP] && !r.connected)
            && (!up && us && js ==> r.trace == [s] && r.connected)
            && (!up && us && !js ==> r.trace == [s, StartAP, StartAP] && !r.connected)
            && (!up && !us ==> r.trace == [StartAP] && !r.connected)
    ensures r.delays <= 2 * MaxDelays
  {
    var first :=
      if Usable(stored, Primary) then ConnectToWiFi(stored, net, Primary) else Skip(false);
    var second :=
      if !first.connected && Usable(stored, Secondary) then ConnectToWiFi(stored, net, Secondary)
      else Skip(first.connected);
    var tail := if second.connected then [] else [StartAP];
    Outcome(first.trace + second.trace + tail, second.connected, first.delays + second.delays)
  }

  /** The primary pair is tried iff both of its strings are set, and the
      secondary pair iff both of its strings are set and the primary did not
      connect: a successful primary never triggers a secondary attempt. */
  lemma BootSequenceGating(stored: Slots, net: Network)
    ensures var r := BootSequence(stored, net);
            && (Tried(r.trace, Primary) <==> Usable(stored, Primary))
            && (Tried(r.trace, Secondary) <==>
                  Usable(stored, Secondary) && !(Usable(stored, Primary) && Joins(stored, net, Primary)))
  {
    var r := BootSequence(stored, net);
    var up, us := Usable(stored, Primary), Usable(stored, Secondary);
    var jp := Joins(stored, net, Primary);
    if up && jp {
      assert r.trace[0].pair == Primary;
    } else if up && us {
      assert r.trace[0].pair == Primary && r.trace[2].pair == Secondary;
    } else if up {
      assert r.trace[0].pair == Primary;
    } else if us {
      assert r.trace[0].pair == Secondary;
    }
  }

  /** Every attempt carries its own pair's stored strings. */
  lemma BootSequenceCredentials(stored: Slots, net: Network)
    ensures var r := BootSequence(stored, net);
            forall k :: 0 <= k < |r.trace| && r.trace[k].Attempt? ==>
              r.trace[k].ssid == stored[SsidSlot(r.trace[k].pair)] &&
              r.trace[k].password == stored[PasswordSlot(r.trace[k].pair)]
  {
    var r := BootSequence(stored, net);
    forall k | 0 <= k < |r.trace| && r.trace[k].Attempt?
      ensures r.trace[k].ssid == stored[SsidSlot(r.trace[k].pair)]
      ensures r.trace[k].password == stored[PasswordSlot(r.trace[k].pair)]
    {
      BootSequenceAttemptAt(stored, net, k);
    }
  }

  /** An attempt in the trace is the primary attempt at position 0 or the
      secondary attempt, which is at position 0 or 2. */
  lemma BootSequenceAttemptAt(stored: Slots, net: Network, k: nat)
    requires k < |BootSequence(stored, net).trace|
    requires BootSequence(stored, net).trace[k].Attempt?
    ensures var a := BootSequence(stored, net).trace[k];
            || (k == 0 && a == Attempt(Primary, stored[0], stored[1]))
            || ((k == 0 || k == 2) && a == Attempt(Secondary, stored[2], stored[3]))
    ensures var a := BootSequence(stored, net).trace[k];
            a.pair == Secondary && k == 0 ==> !Tried(BootSequence(stored, net).trace, Primary)
  {
    var r := BootSequence(stored, net);
    var up, us := Usable(stored, Primary), Usable(stored, Secondary);
    var jp := Joins(stored, net, Primary);
    if up && jp {
      assert r.trace == [r.trace[0]];
    } else if up && us {
      assert r.trace[1] == StartAP && forall j :: 3 <= j < |r.trace| ==> r.trace[j] == StartAP;
    } else if up {
      assert r.trace[1] == StartAP && r.trace[2] == StartAP;
    } else if us {
      assert forall j :: 1 <= j < |r.trace| ==> r.trace[j] == StartAP;
    }
  }

  /** A usable primary pair is the first thing the boot pass tries. */
  lemma BootSequenceFirstAttempt(stored: Slots, net: Network)
    requires Usable(stored, Primary)
    ensures BootSequence(stored, net).trace[0] == Attempt(Primary, stored[0], stored[1])
  {
  }

  /** The primary attempt, when there is one, comes before the secondary one. */
  lemma BootSequencePrimaryFirst(stored: Slots, net: Network)
    ensures var r := BootSequence(stored, net);
            forall j, k ::
              (0 <= j < |r.trace| && 0 <= k < |r.trace| &&
               r.trace[j].Attempt? && r.trace[j].pair == Primary &&
               r.trace[k].Attempt? && r.trace[k].pair == Secondary) ==> j < k
  {
    var r := BootSequence(stored, net);
    forall j, k | 0 <= j < |r.trace| && 0 <= k < |r.trace| &&
                  r.trace[j].Attempt? && r.trace[j].pair == Primary &&
                  r.trace[k].Attempt? && r.trace[k].pair == Secondary
      ensures j < k
    {
      BootSequenceAttemptAt(stored, net, j);
      BootSequenceAttemptAt(stored, net, k);
    }
  }

  /** The device ends connected iff some tried pair joined its network, and the
      trace ends with an access-point start iff the device ends unconnected. */
  lemma BootSequenceConnected(stored: Slots, net: Network)
    ensures var r := BootSequence(stored, net);
            && (r.connected <==>
                  (Usable(stored, Primary) && Joins(stored, net, Primary)) ||
                  (Usable(stored, Secondary) && Joins(stored, net, Secondary)))
            && |r.trace| >= 1
            && (r.trace[|r.trace| - 1] == StartAP <==> !r.connected)
  {
  }

  /** Over a radio environment, the boot pass ends connected iff the poll
      loop of some usable pair sees its radio connected. */
  lemma BootSequenceOverRadios(stored: Slots, radios: (Pair, Bytes, Bytes) -> Radio)
    ensures BootSequence(stored, RadioNetwork(radios)).connected <==>
              (Usable(stored, Primary) && Succeeds(radios(Primary, stored[0], stored[1]))) ||
              (Usable(stored, Secondary) && Succeeds(radios(Secondary, stored[2], stored[3])))
  {
    BootSequenceConnected(stored, RadioNetwork(radios));
  }

  /** Both pairs may hold the same strings; the secondary attempt is still a
      fresh join request, and it may connect after the primary one timed out. */
  lemma SameStringsRetryCanConnect(stored: Slots)
    requires Usable(stored, Primary)
    requires stored[2] == stored[0] && stored[3] == stored[1]
    ensures exists net: Network ::
              BootSequence(stored, net).trace ==
                [Attempt(Primary, stored[0], stored[1]), StartAP, Attempt(Secondary, stored[0], stored[1])] &&
              BootSequence(stored, net).connected
  {
    var net: Network := (p, ssid, password) =>
      if p == Primary then Attempted(false, MaxDelays) else Attempted(true, 0);
    assert !Joins(stored, net, Primary) && Joins(stored, net, Secondary);
    assert BootSequence(stored, net).trace ==
             [Attempt(Primary, stored[0], stored[1]), StartAP, Attempt(Secondary, stored[0], stored[1])];
  }

  /** Access-point starts: one after each failed attempt (inside
      `connectToWiFi`) and one more at the end of `begin` when the device is
      unconnected. With no usable pair there is no attempt and one start. */
  lemma BootSequenceAPStarts(stored: Slots, net: Network)
    ensures var r := BootSequence(stored, net);
            var failedP := Usable(stored, Primary) && !Joins(stored, net, Primary);
            var failedS := Tried(r.trace, Secondary) && !Joins(stored, net, Secondary);
            APStarts(r.trace) ==
              (if failedP then 1 else 0) + (if failedS then 1 else 0) + (if r.connected then 0 else 1)
    ensures var r := BootSequence(stored, net);
            !Usable(stored, Primary) && !Usable(stored, Secondary) ==>
              APStarts(r.trace) == 1 && !Tried(r.trace, Primary) && !Tried(r.trace, Secondary)
  {
    BootSequenceGating(stored, net);
    var first :=
      if Usable(stored, Primary) then ConnectToWiFi(stored, net, Primary) else Skip(false);
    var second :=
      if !first.connected && Usable(stored, Secondary) then ConnectToWiFi(stored, net, Secondary)
      else Skip(first.connected);
    var tail := if second.connected then [] else [StartAP];
    if Usable(stored, Primary) {
      ConnectToWiFiAPStarts(stored, net, Primary);
    }
    if !first.connected && Usable(stored, Secondary) {
      ConnectToWiFiAPStarts(stored, net, Secondary);
    }
    APStartsAppend(first.trace, second.trace);
    APStartsAppend(first.trace + second.trace, tail);
  }

  /** Blocking time of the boot pass: the delays of the primary attempt when
      it is made, plus those of the secondary attempt when it is made. */
  lemma BootSequenceDelays(stored: Slots, net: Network)
    ensures var r := BootSequence(stored, net);
            var up, us := Usable(stored, Primary), Usable(stored, Secondary);
            var jp := Joins(stored, net, Primary);
            r.delays ==
              (if up then net(Primary, stored[0], stored[1]).delays else 0) +
              (if us && !(up && jp) then net(Secondary, stored[2], stored[3]).delays else 0)
  {
  }

  /** States of a reference state machine for one boot pass: a pass starts
      in `Idle` and ends in `Connected` or `FallbackActive`. */
  datatype BootState = Idle | TryingPrimary | TryingSecondary | Connected | FallbackActive

  predicate Terminal(st: BootState)
  {
    st == Connected || st == FallbackActive
  }

  /** One transition: a state names the pair being tried; unusable pairs are
      skipped without an attempt. */
  function Next(st: BootState, stored: Slots, net: Network): BootState
  {
    match st
    case Idle =>
      if Usable(stored, Primary) then TryingPrimary
      else if Usable(stored, Secondary) then TryingSecondary
      else FallbackActive
    case TryingPrimary =>
      if Joins(stored, net, Primary) then Connected
      else if Usable(stored, Secondary) then TryingSecondary
      else FallbackActive
    case TryingSecondary =>
      if Joins(stored, net, Secondary) then Connected else FallbackActive
    case Connected => Connected
    case FallbackActive => FallbackActive
  }

  /** The states visited from `st`, stopping at a terminal state or when `fuel` runs out. */
  function Run(st: BootState, stored: Slots, net: Network, fuel: nat): (m: seq<BootState>)
    ensures |m| >= 1 && m[0] == st
    decreases fuel
  {
    if Terminal(st) || fuel == 0 then [st]
    else [st] + Run(Next(st, stored, net), stored, net, fuel - 1)
  }

  /** One pass of the state machine; three transitions always reach a terminal state. */
  function MachinePass(stored: Slots, net: Network): seq<BootState>
  {
    Run(Idle, stored, net, 3)
  }

  /** The states one pass of the machine visits, for every combination of
      usable pairs and join results. */
  lemma MachinePassTable(stored: Slots, net: Network)
    ensures var m := MachinePass(stored, net);
            var up, us := Usable(stored, Primary), Usable(stored, Secondary);
            var jp, js := Joins(stored, net, Primary), Joins(stored, net, Secondary);
            var end2 := if js then Connected else FallbackActive;
            && (up && jp ==> m == [Idle, TryingPrimary, Connected])
            && (up && !jp && us ==> m == [Idle, TryingPrimary, TryingSecondary, end2])
            && (up && !jp && !us ==> m == [Idle, TryingPrimary, FallbackActive])
            && (!up && us ==> m == [Idle, TryingSecondary, end2])
            && (!up && !us ==> m == [Idle, FallbackActive])
  {
    var up := Usable(stored, Primary);
    var s1 := Next(Idle, stored, net);
    var s2 := Next(s1, stored, net);
    assert MachinePass(stored, net) == [Idle] + Run(s1, stored, net, 2);
    if !Terminal(s1) {
      assert Run(s1, stored, net, 2) == [s1] + Run(s2, stored, net, 1);
      if !Terminal(s2) {
        assert Run(s2, stored, net, 1) == [s2] + Run(Next(s2, stored, net), stored, net, 0);
      }
    }
  }

  /** `begin` agrees with the reference state machine: the machine passes through
      `TryingPrimary` (`TryingSecondary`) exactly when the code attempts the
      primary (secondary) pair, and it ends in `Connected` exactly when the code
      leaves the device connected, otherwise in `FallbackActive`. */
  lemma BootSequenceRefinesMachine(stored: Slots, net: Network)
    ensures var m := MachinePass(stored, net);
            var r := BootSequence(stored, net);
            && Terminal(m[|m| - 1])
            && (m[|m| - 1] == Connected <==> r.connected)
            && (TryingPrimary in m <==> Tried(r.trace, Primary))
            && (TryingSecondary in m <==> Tried(r.trace, Secondary))
  {
    BootSequenceGating(stored, net);
    BootSequenceConnected(stored, net);
    MachinePassTable(stored, net);
  }

  /** Outcome of `begin`: the boot pass, or the slot whose read was undefined. */
  datatype BeginResult = Booted(outcome: Outcome) | LoadUndefined(slot: SlotIndex)

  /** `begin`: load the four strings from the EEPROM and run the decision
      sequence on them. */
  function Begin(e: Eeprom, net: Network): (r: BeginResult)
    ensures r.Booted? <==> Load(e).Loaded?
    ensures r.Booted? ==> r.outcome == BootSequence(Load(e).stored, net)
    ensures r.LoadUndefined? ==> DecodeSlot(e, r.slot).Unterminated?
  {
    match Load(e)
    case Loaded(stored) => Booted(BootSequence(stored, net))
    case Undefined(i) => LoadUndefined(i)
  }

  /** An unterminated slot stops the boot before any decision: `begin` is
      undefined at that slot or at an earlier one. */
  lemma UnterminatedSlotBreaksBoot(e: Eeprom, net: Network, i: SlotIndex)
    requires DecodeSlot(e, i).Unterminated?
    ensures Begin(e, net).LoadUndefined? && Begin(e, net).slot <= i
  {
  }

  /** An EEPROM that was never written reads as 0xFF everywhere: slot 0 has no
      terminator, so the first boot is undefined there. */
  lemma ErasedEepromBreaksBoot(net: Network)
    ensures Begin(seq(EepromSize, _ => 0xFF), net) == LoadUndefined(0)
  {
    var e: Eeprom := seq(EepromSize, _ => 0xFF);
    assert forall k :: 0 <= k < MaxLength ==> Window(e, 0)[k] == 0xFF;
    LoadStopsAtFirstUnterminated(e, 0);
  }
}
