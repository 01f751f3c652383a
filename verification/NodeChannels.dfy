// What an edit does to the node's channels: the new channel's key and slot, the toggles of the
// others, and when the server refuses the write.
module NodeChannels {
  import opened Collections
  import opened NodeConfigForm

  // The operation sent for a new channel.

  lemma {:induction false} ChannelOpsToggleOnly(channels: seq<Channel>, toggles: map<int, Toggle>)
    ensures forall op | op in ChannelOps(channels, toggles) :: op.SetChannel?
  {
    if channels != [] { ChannelOpsToggleOnly(channels[..|channels| - 1], toggles); }
  }

  lemma SectionOpsAreSections(p: Platform, snap: Snap, f: Form)
    ensures forall op | op in SectionOps(p, snap, f) :: op.SetOwner? || op.SetConfig? || op.SetMqtt?
  {
    hide OwnerOf, LoraOf, DeviceOf, PositionOf, MqttOf, LoraValues, DeviceValues, PositionValues, MqttValues;
  }

  /**
   * One operation sets a whole channel, the last, when the form for a new one is open with a name, and
   * none otherwise. It carries the form's slot, trimmed name, role and toggles, and for the key
   * "default", "none" or the trimmed text, as chosen.
   */
  lemma NewChannelIsSent(p: Platform, snap: Snap, f: Form, toggles: map<int, Toggle>, nc: NewChannel)
    ensures var ops := Ops(p, snap, f, toggles, nc);
      forall i | 0 <= i < |ops| :: ops[i].PutChannel? <==> nc.open && p.trim(nc.name) != "" && i == |ops| - 1
    ensures var ops := Ops(p, snap, f, toggles, nc);
      var key := if nc.keyMode == DefaultKey then "default" else if nc.keyMode == NoKey then "none" else p.trim(nc.psk);
      nc.open && p.trim(nc.name) != "" ==>
        ops != [] &&
        ops[|ops| - 1] == PutChannel(nc.index, p.trim(nc.name), key, nc.role, nc.uplink, nc.downlink)
  {
    hide SectionOps, ChannelOps;
    var a, b := SectionOps(p, snap, f), ChannelOps(snap.channels, toggles);
    ChannelOpsToggleOnly(snap.channels, toggles);
    SectionOpsAreSections(p, snap, f);
    var head := a + b;
    forall i | 0 <= i < |head|
      ensures !head[i].PutChannel?
    {
      assert if i < |a| then head[i] in a else head[i] in b;
    }
  }

  // What the key means to the node.

  /** What is taken for granted of trimming and lower case. */
  ghost predicate TextsBehave(p: Platform) {
    && p.trim("default") == p.lower("default") == "default" && p.trim("none") == p.lower("none") == "none"
    && forall s :: p.trim(p.trim(s)) == p.trim(s)
  }

  /**
   * The new channel is unencrypted exactly when no key was chosen, or a custom one was and the box is
   * blank or says "none" in any case.
   */
  lemma PlainIff(p: Platform, nc: NewChannel)
    requires TextsBehave(p)
    ensures KeyLength(p, PutOp(p, nc).psk) == Some(0) <==>
            nc.keyMode == NoKey ||
            (nc.keyMode == CustomKey && (p.trim(nc.psk) == "" || p.lower(p.trim(nc.psk)) == "none"))
    ensures nc.keyMode == DefaultKey ==> KeyLength(p, PutOp(p, nc).psk) == Some(1)
  {
  }

  /** A write without a known role makes slot 0 the primary channel and any other a secondary one. */
  lemma RoleWithoutOne(index: int, role: string)
    requires role !in ["PRIMARY", "SECONDARY", "DISABLED"]
    ensures RoleOf(PutChannel(index, "", "", role, false, false)) == if index == 0 then "PRIMARY" else "SECONDARY"
  {
  }

  // Slots.

  lemma {:induction false} OthersAre(channels: seq<Channel>, index: int)
    ensures forall c :: c in Others(channels, index) <==> c in channels && c.index != index
  {
    if channels != [] {
      assert channels == channels[..|channels| - 1] + [channels[|channels| - 1]];
      OthersAre(channels[..|channels| - 1], index);
    }
  }

  lemma InstallIs(p: Platform, channels: seq<Channel>, op: Op, c: Channel)
    requires op.PutChannel?
    ensures c in Install(p, channels, op) <==>
            if c.index != op.index then c in channels
            else
              && RoleOf(op) != "DISABLED" && c.role == RoleOf(op) && c.name == CutName(op.name)
              && c.encrypted == (KeyLength(p, op.psk) != Some(0)) && c.uplink == op.uplink && c.downlink == op.downlink
  {
    hide Others, RoleOf, CutName, KeyLength;
    OthersAre(channels, op.index);
  }

  function WithToggle(c: Channel, t: Toggle): Channel { c.(uplink := t.uplink, downlink := t.downlink) }

  lemma ToggledAre(channels: seq<Channel>, toggles: map<int, Toggle>, c: Channel)
    requires UniqueIndexes(channels)
    ensures c in AllToggled(channels, toggles, |channels|) <==>
            exists d | d in channels ::
              var on := if d.index in toggles then toggles[d.index] else Toggle(d.uplink, d.downlink);
              c == d.(uplink := on.uplink, downlink := on.downlink)
  {
    var after := AllToggled(channels, toggles, |channels|);
    if c in after {
      var i :| 0 <= i < |after| && after[i] == c;
      assert channels[i] in channels;
    }
    if d :| d in channels && c == WithToggle(d, Wanted(d, toggles)) {
      var i :| 0 <= i < |channels| && channels[i] == d;
      assert after[i] == c;
    }
  }

  lemma ChannelsAfter(p: Platform, snap: Snap, f: Form, toggles: map<int, Toggle>, nc: NewChannel)
    requires UniqueIndexes(snap.channels)
    ensures var before := AllToggled(snap.channels, toggles, |snap.channels|);
      OverlayAll(p, snap, Ops(p, snap, f, toggles, nc)).channels ==
        if nc.open && p.trim(nc.name) != "" then Install(p, before, PutOp(p, nc)) else before
  {
    hide Edited, OverlayAll, Ops, AllToggled, Install;
    AllOpsEdit(p, snap, f, toggles, nc);
  }

  /** Every channel but one replaced reads back as it was, with the toggles set as wanted. */
  lemma OtherSlotsReadBack(p: Platform, snap: Snap, f: Form, toggles: map<int, Toggle>, nc: NewChannel, c: Channel)
    requires UniqueIndexes(snap.channels) && !(nc.open && p.trim(nc.name) != "" && c.index == nc.index)
    ensures c in OverlayAll(p, snap, Ops(p, snap, f, toggles, nc)).channels <==>
            exists d | d in snap.channels ::
              var on := if d.index in toggles then toggles[d.index] else Toggle(d.uplink, d.downlink);
              c == d.(uplink := on.uplink, downlink := on.downlink)
  {
    hide OverlayAll, Ops, AllToggled, Install;
    ChannelsAfter(p, snap, f, toggles, nc);
    ToggledAre(snap.channels, toggles, c);
    InstallIs(p, AllToggled(snap.channels, toggles, |snap.channels|), PutOp(p, nc), c);
  }

  /**
   * The slot of a new channel reads back nothing but that channel: its role and toggles, the first
   * eleven characters of its name, unencrypted exactly as chosen; and nothing at all if it is disabled.
   */
  lemma NewSlotReadsBack(p: Platform, snap: Snap, f: Form, toggles: map<int, Toggle>, nc: NewChannel, c: Channel)
    requires UniqueIndexes(snap.channels) && TextsBehave(p) && nc.role in ["PRIMARY", "SECONDARY", "DISABLED"]
    requires nc.open && p.trim(nc.name) != "" && c.index == nc.index
    ensures c in OverlayAll(p, snap, Ops(p, snap, f, toggles, nc)).channels <==>
            && nc.role != "DISABLED" && c.role == nc.role && c.uplink == nc.uplink && c.downlink == nc.downlink
            && c.name <= p.trim(nc.name) && (|c.name| == 11 || (|c.name| < 11 && c.name == p.trim(nc.name)))
            && (!c.encrypted <==> (nc.keyMode == NoKey ||
              (nc.keyMode == CustomKey && (p.trim(nc.psk) == "" || p.lower(p.trim(nc.psk)) == "none"))))
  {
    hide OverlayAll, Ops, AllToggled, Install, KeyLength, TextsBehave;
    ChannelsAfter(p, snap, f, toggles, nc);
    InstallIs(p, AllToggled(snap.channels, toggles, |snap.channels|), PutOp(p, nc), c);
    PlainIff(p, nc);
  }

  // When the server refuses the write.

  predicate Accepts(p: Platform, op: Op) {
    match op
    case SetChannel(index, _, _) => 0 <= index <= 7
    case PutChannel(index, _, psk, _, _, _) => 0 <= index <= 7 && KeyLength(p, psk).Some?
    case _ => true
  }

  /** A custom key must be blank, a word for a key, or the base64 text of 1, 16 or 32 bytes. */
  predicate KeyFits(p: Platform, text: string) {
    text == "" || p.lower(text) in ["none", "default", "basic", "random"] || p.keyBytes(text) in [1, 16, 32]
  }

  lemma {:induction false} ToggledChannelsAreSent(channels: seq<Channel>, toggles: map<int, Toggle>)
    ensures forall c | c in channels && Toggled(c, toggles) ::
      SetChannel(c.index, Wanted(c, toggles).uplink, Wanted(c, toggles).downlink) in ChannelOps(channels, toggles)
  {
    hide Toggled, Wanted;
    if channels != [] {
      assert channels == channels[..|channels| - 1] + [channels[|channels| - 1]];
      ToggledChannelsAreSent(channels[..|channels| - 1], toggles);
    }
  }

  lemma ToggledIs(c: Channel, toggles: map<int, Toggle>)
    ensures Toggled(c, toggles) <==> c.index in toggles && toggles[c.index] != Toggle(c.uplink, c.downlink)
  {
  }

  /** An edit is refused exactly for a channel outside the slots 0 to 7 or a custom key that does not fit. */
  lemma AcceptedIff(p: Platform, snap: Snap, f: Form, toggles: map<int, Toggle>, nc: NewChannel)
    requires TextsBehave(p)
    ensures (forall op | op in Ops(p, snap, f, toggles, nc) :: Accepts(p, op)) <==>
            && (forall c | c in snap.channels && c.index in toggles ::
              toggles[c.index] == Toggle(c.uplink, c.downlink) || 0 <= c.index <= 7)
            && (nc.open && p.trim(nc.name) != "" ==>
              0 <= nc.index <= 7 && (nc.keyMode == CustomKey ==> KeyFits(p, p.trim(nc.psk))))
  {
    hide SectionOps, ChannelOps, KeyLength, Toggled, Wanted, TextsBehave, Accepts;
    var a, b := SectionOps(p, snap, f), ChannelOps(snap.channels, toggles);
    SectionOpsAreSections(p, snap, f);
    ToggledChannelsAreSent(snap.channels, toggles);
    KeyIsFit(p, nc);
    PutAccepted(p, nc);
    forall op | op in a
      ensures Accepts(p, op)
    {
      SectionsAccepted(p, op);
    }
    forall op
      ensures op in b ==> op.SetChannel? && exists c | c in snap.channels :: Toggled(c, toggles) && c.index == op.index
    {
      ChannelOpsName(snap.channels, toggles, op);
    }
    forall c
      ensures Toggled(c, toggles) <==> c.index in toggles && toggles[c.index] != Toggle(c.uplink, c.downlink)
    {
      ToggledIs(c, toggles);
    }
    forall index, on, off
      ensures Accepts(p, SetChannel(index, on, off)) <==> 0 <= index <= 7
    {
      ToggleAccepted(p, index, on, off);
    }
  }

  lemma ToggleAccepted(p: Platform, index: int, on: bool, off: bool)
    ensures Accepts(p, SetChannel(index, on, off)) <==> 0 <= index <= 7
  {
  }

  lemma SectionsAccepted(p: Platform, op: Op)
    ensures op.SetOwner? || op.SetConfig? || op.SetMqtt? ==> Accepts(p, op)
  {
  }

  lemma KeyIsFit(p: Platform, nc: NewChannel)
    requires TextsBehave(p)
    ensures KeyLength(p, PskOf(p, nc)).Some? <==> nc.keyMode != CustomKey || KeyFits(p, p.trim(nc.psk))
  {
  }

  lemma PutAccepted(p: Platform, nc: NewChannel)
    ensures Accepts(p, PutOp(p, nc)) <==> 0 <= nc.index <= 7 && KeyLength(p, PskOf(p, nc)).Some?
  {
  }
}
