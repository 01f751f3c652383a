// The node configuration editor: the form derived from a node's reported snapshot, the write
// operations an edit turns into, and what those operations do to the snapshot.
module NodeConfigForm {
  import opened Collections

  // Reported values and the snapshot.

  datatype Value = Undefined | Null | Bool(b: bool) | Num(n: real) | Str(s: string)

  type Section = map<string, Value>

  datatype Channel = Channel(index: int, role: string, name: string, encrypted: bool, uplink: bool, downlink: bool)

  datatype NodeName = NodeName(num: int, longName: Option<string>, shortName: Option<string>)

  datatype Snap = Snap(myNum: Option<int>, lora: Section, device: Section, position: Section, mqtt: Section,
                       channels: seq<Channel>, nodes: seq<NodeName>)

  /**
   * JavaScript's number printing and parsing (0 for what is no number), trimming, lower case, and how
   * many bytes a base64 text decodes to.
   */
  datatype Platform = Platform(show: real -> string, number: string -> real, trim: string -> string,
                               lower: string -> string, keyBytes: string -> nat)

  function At(sec: Section, key: string): Value { if key in sec then sec[key] else Undefined }

  function S(p: Platform, v: Value): string {
    match v
    case Undefined => "" case Null => ""
    case Bool(b) => if b then "true" else "false"
    case Num(n) => p.show(n)
    case Str(s) => s
  }

  function B(v: Value): bool { v == Bool(true) || v == Str("true") || v == Num(1.0) }

  // The form, section by section.

  datatype Owner = Owner(longName: string, shortName: string)
  datatype Lora = Lora(region: string, preset: string, hop: string, txPower: string, txEnabled: bool, okMqtt: bool,
                       ignoreMqtt: bool)
  datatype Device = Device(role: string, rebroadcast: string, nodeInfoSecs: string)
  datatype Position = Position(posSecs: string, posSmart: bool, fixedPos: bool, gpsInterval: string, gpsMode: string)
  datatype Mqtt = Mqtt(enabled: bool, address: string, user: string, pass: string, root: string,
                       enc: bool, json: bool, map_: bool, proxy: bool, tls: bool)
  datatype Form = Form(owner: Owner, lora: Lora, device: Device, position: Position, mqtt: Mqtt)

  function Me(nodes: seq<NodeName>, myNum: Option<int>): (i: nat)
    ensures i <= |nodes|
    ensures i < |nodes| ==> Some(nodes[i].num) == myNum
    ensures forall j | 0 <= j < i :: Some(nodes[j].num) != myNum
  {
    if nodes == [] || Some(nodes[0].num) == myNum then 0 else 1 + Me(nodes[1..], myNum)
  }

  predicate Known(snap: Snap) { Me(snap.nodes, snap.myNum) < |snap.nodes| }

  function OrEmpty(s: Option<string>): string { if s.Some? then s.value else "" }

  function OwnerOf(snap: Snap): Owner {
    var i := Me(snap.nodes, snap.myNum);
    if i < |snap.nodes| then Owner(OrEmpty(snap.nodes[i].longName), OrEmpty(snap.nodes[i].shortName)) else Owner("", "")
  }

  function LoraOf(p: Platform, sec: Section): Lora {
    Lora(S(p, At(sec, "region")), S(p, At(sec, "modem_preset")), S(p, At(sec, "hop_limit")), S(p, At(sec, "tx_power")),
         At(sec, "tx_enabled") != Bool(false), B(At(sec, "config_ok_to_mqtt")), B(At(sec, "ignore_mqtt")))
  }

  function DeviceOf(p: Platform, sec: Section): Device {
    Device(S(p, At(sec, "role")), S(p, At(sec, "rebroadcast_mode")), S(p, At(sec, "node_info_broadcast_secs")))
  }

  function PositionOf(p: Platform, sec: Section): Position {
    Position(S(p, At(sec, "position_broadcast_secs")), B(At(sec, "position_broadcast_smart_enabled")),
             B(At(sec, "fixed_position")), S(p, At(sec, "gps_update_interval")), S(p, At(sec, "gps_mode")))
  }

  /** The password box always starts blank. */
  function MqttOf(p: Platform, sec: Section): Mqtt {
    Mqtt(B(At(sec, "enabled")), S(p, At(sec, "address")), S(p, At(sec, "username")), "", S(p, At(sec, "root")),
         B(At(sec, "encryption_enabled")), B(At(sec, "json_enabled")), B(At(sec, "map_reporting_enabled")),
         B(At(sec, "proxy_to_client_enabled")), B(At(sec, "tls_enabled")))
  }

  function Derive(p: Platform, snap: Snap): Form {
    Form(OwnerOf(snap), LoraOf(p, snap.lora), DeviceOf(p, snap.device), PositionOf(p, snap.position),
      MqttOf(p, snap.mqtt))
  }

  // The write operations.

  datatype SectionName = LoraSection | DeviceSection | PositionSection

  datatype Op =
    | SetOwner(longName: string, shortName: string)
    | SetConfig(section: SectionName, values: Section)
    | SetMqtt(values: Section)
    | SetChannel(index: int, uplink: bool, downlink: bool)
    | PutChannel(index: int, name: string, psk: string, role: string, uplink: bool, downlink: bool)

  function LoraValues(p: Platform, f: Lora): Section {
    map["region" := Str(f.region), "modem_preset" := Str(f.preset), "hop_limit" := Num(p.number(f.hop)),
        "tx_power" := Num(p.number(f.txPower)), "tx_enabled" := Bool(f.txEnabled),
        "config_ok_to_mqtt" := Bool(f.okMqtt), "ignore_mqtt" := Bool(f.ignoreMqtt)]
  }

  function DeviceValues(p: Platform, f: Device): Section {
    map["role" := Str(f.role), "rebroadcast_mode" := Str(f.rebroadcast),
        "node_info_broadcast_secs" := Num(p.number(f.nodeInfoSecs))]
  }

  function PositionValues(p: Platform, f: Position): Section {
    map["position_broadcast_secs" := Num(p.number(f.posSecs)), "position_broadcast_smart_enabled" := Bool(f.posSmart),
        "fixed_position" := Bool(f.fixedPos), "gps_update_interval" := Num(p.number(f.gpsInterval)),
        "gps_mode" := Str(f.gpsMode)]
  }

  /** The password is sent only when one was typed. */
  function MqttValues(f: Mqtt): Section {
    map["enabled" := Bool(f.enabled), "address" := Str(f.address), "username" := Str(f.user), "root" := Str(f.root),
        "encryption_enabled" := Bool(f.enc), "json_enabled" := Bool(f.json), "map_reporting_enabled" := Bool(f.map_),
        "proxy_to_client_enabled" := Bool(f.proxy), "tls_enabled" := Bool(f.tls)]
    + if f.pass != "" then map["password" := Str(f.pass)] else map[]
  }

  // Channels.

  datatype Toggle = Toggle(uplink: bool, downlink: bool)

  datatype KeyMode = DefaultKey | CustomKey | NoKey

  datatype NewChannel = NewChannel(open: bool, index: int, name: string, keyMode: KeyMode, psk: string, role: string,
                                   uplink: bool, downlink: bool)

  function Wanted(c: Channel, toggles: map<int, Toggle>): Toggle {
    if c.index in toggles then toggles[c.index] else Toggle(c.uplink, c.downlink)
  }

  predicate Toggled(c: Channel, toggles: map<int, Toggle>) {
    Wanted(c, toggles) != Toggle(c.uplink, c.downlink)
  }

  function ChannelOps(channels: seq<Channel>, toggles: map<int, Toggle>): seq<Op> {
    if channels == [] then []
    else
      var rest, c := ChannelOps(channels[..|channels| - 1], toggles), channels[|channels| - 1];
      if !Toggled(c, toggles) then rest
      else rest + [SetChannel(c.index, Wanted(c, toggles).uplink, Wanted(c, toggles).downlink)]
  }

  predicate Adds(p: Platform, nc: NewChannel) { nc.open && p.trim(nc.name) != "" }

  function PskOf(p: Platform, nc: NewChannel): string {
    match nc.keyMode case DefaultKey => "default" case NoKey => "none" case CustomKey => p.trim(nc.psk)
  }

  function When(b: bool, op: Op): seq<Op> { if b then [op] else [] }

  /** One operation per edited section. */
  function SectionOps(p: Platform, snap: Snap, f: Form): seq<Op> {
    When(f.owner != OwnerOf(snap), SetOwner(f.owner.longName, f.owner.shortName))
    + When(f.lora != LoraOf(p, snap.lora), SetConfig(LoraSection, LoraValues(p, f.lora)))
    + When(f.device != DeviceOf(p, snap.device), SetConfig(DeviceSection, DeviceValues(p, f.device)))
    + When(f.position != PositionOf(p, snap.position), SetConfig(PositionSection, PositionValues(p, f.position)))
    + When(f.mqtt != MqttOf(p, snap.mqtt), SetMqtt(MqttValues(f.mqtt)))
  }

  function PutOp(p: Platform, nc: NewChannel): Op {
    PutChannel(nc.index, p.trim(nc.name), PskOf(p, nc), nc.role, nc.uplink, nc.downlink)
  }

  function Ops(p: Platform, snap: Snap, f: Form, toggles: map<int, Toggle>, nc: NewChannel): seq<Op> {
    SectionOps(p, snap, f) + ChannelOps(snap.channels, toggles) + When(Adds(p, nc), PutOp(p, nc))
  }

  method BuildSectionOps(p: Platform, snap: Snap, f: Form) returns (ops: seq<Op>, loraChanged: bool)
    ensures ops == SectionOps(p, snap, f)
    ensures loraChanged <==> f.lora != LoraOf(p, snap.lora)
  {
    hide LoraOf, DeviceOf, PositionOf, MqttOf, OwnerOf, LoraValues, DeviceValues, PositionValues, MqttValues;
    ops := [];
    if f.owner != OwnerOf(snap) { ops := ops + [SetOwner(f.owner.longName, f.owner.shortName)]; }
    ghost var done := When(f.owner != OwnerOf(snap), SetOwner(f.owner.longName, f.owner.shortName));
    assert ops == done;
    loraChanged := f.lora != LoraOf(p, snap.lora);
    if loraChanged { ops := ops + [SetConfig(LoraSection, LoraValues(p, f.lora))]; }
    done := done + When(loraChanged, SetConfig(LoraSection, LoraValues(p, f.lora)));
    assert ops == done;
    if f.device != DeviceOf(p, snap.device) { ops := ops + [SetConfig(DeviceSection, DeviceValues(p, f.device))]; }
    done := done + When(f.device != DeviceOf(p, snap.device), SetConfig(DeviceSection, DeviceValues(p, f.device)));
    assert ops == done;
    if f.position != PositionOf(p, snap.position) {
      ops := ops + [SetConfig(PositionSection, PositionValues(p, f.position))];
    }
    done := done + When(f.position != PositionOf(p, snap.position),
      SetConfig(PositionSection, PositionValues(p, f.position)));
    assert ops == done;
    if f.mqtt != MqttOf(p, snap.mqtt) { ops := ops + [SetMqtt(MqttValues(f.mqtt))]; }
  }

  method BuildOps(p: Platform, snap: Snap, f: Form, toggles: map<int, Toggle>, nc: NewChannel)
    returns (ops: seq<Op>, loraChanged: bool)
    ensures ops == Ops(p, snap, f, toggles, nc)
    ensures loraChanged <==> f.lora != LoraOf(p, snap.lora)
  {
    hide SectionOps, PskOf;
    ops, loraChanged := BuildSectionOps(p, snap, f);
    ghost var head := ops;
    for i := 0 to |snap.channels|
      invariant ops == head + ChannelOps(snap.channels[..i], toggles)
    {
      var c := snap.channels[i];
      assert snap.channels[..i + 1][..i] == snap.channels[..i];
      var cur := if c.index in toggles then toggles[c.index] else Toggle(c.uplink, c.downlink);
      if cur.uplink != c.uplink || cur.downlink != c.downlink {
        ops := ops + [SetChannel(c.index, cur.uplink, cur.downlink)];
      }
    }
    assert snap.channels[..|snap.channels|] == snap.channels;
    if nc.open && p.trim(nc.name) != "" {
      ops := ops + [PutChannel(nc.index, p.trim(nc.name), PskOf(p, nc), nc.role, nc.uplink, nc.downlink)];
    }
  }

  /** The default slot for a new channel; the last one, taken or not, when none of the seven is free. */
  method FirstFreeIndex(channels: seq<Channel>) returns (i: int)
    ensures var used := set c | c in channels :: c.index;
      1 <= i <= 7 && (forall k | 1 <= k < i :: k in used) && (i in used <==> forall k | 1 <= k <= 7 :: k in used)
  {
    ghost var used := set c | c in channels :: c.index;
    i := 1;
    while i <= 7
      invariant 1 <= i <= 8
      invariant forall k | 1 <= k < i :: k in used
    {
      if !(exists c | c in channels :: c.index == i) { return i; }
      i := i + 1;
    }
    return 7;
  }

  // What the operations do to the snapshot: each is a read-modify-write of what it names.

  function Rename(nodes: seq<NodeName>, i: nat, longName: string, shortName: string): seq<NodeName> {
    if i < |nodes| then nodes[i := nodes[i].(longName := Some(longName), shortName := Some(shortName))] else nodes
  }

  function Retoggle(channels: seq<Channel>, index: int, t: Toggle): seq<Channel> {
    seq(|channels|, i requires 0 <= i < |channels| =>
      if channels[i].index == index then channels[i].(uplink := t.uplink, downlink := t.downlink) else channels[i])
  }

  /** The length of the key a text stands for, None for a text that is refused. */
  function KeyLength(p: Platform, psk: string): Option<nat> {
    var s := p.trim(psk);
    var lower := p.lower(s);
    if s == "" || lower == "none" then Some(0)
    else if lower == "default" || lower == "basic" then Some(1)
    else if lower == "random" then Some(32)
    else if p.keyBytes(s) in {1, 16, 32} then Some(p.keyBytes(s))
    else None
  }

  const MAX_NAME := 11

  function CutName(name: string): string {
    if |name| <= MAX_NAME then name else name[..MAX_NAME]
  }

  function RoleOf(op: Op): string
    requires op.PutChannel?
  {
    if op.role in ["PRIMARY", "SECONDARY", "DISABLED"] then op.role
    else if op.index == 0 then "PRIMARY" else "SECONDARY"
  }

  function Others(channels: seq<Channel>, index: int): seq<Channel> {
    if channels == [] then []
    else
      var rest, c := Others(channels[..|channels| - 1], index), channels[|channels| - 1];
      if c.index == index then rest else rest + [c]
  }

  /** The new channel takes the slot; a disabled one is not reported. */
  function Install(p: Platform, channels: seq<Channel>, op: Op): seq<Channel>
    requires op.PutChannel?
  {
    var encrypted := KeyLength(p, op.psk) != Some(0);
    var made := Channel(op.index, RoleOf(op), CutName(op.name), encrypted, op.uplink, op.downlink);
    Others(channels, op.index) + if RoleOf(op) == "DISABLED" then [] else [made]
  }

  function Overlay(p: Platform, snap: Snap, op: Op): Snap {
    match op
    case SetOwner(longName, shortName) =>
      snap.(nodes := Rename(snap.nodes, Me(snap.nodes, snap.myNum), longName, shortName))
    case SetConfig(LoraSection, values) => snap.(lora := snap.lora + values)
    case SetConfig(DeviceSection, values) => snap.(device := snap.device + values)
    case SetConfig(PositionSection, values) => snap.(position := snap.position + values)
    case SetMqtt(values) => snap.(mqtt := snap.mqtt + values)
    case SetChannel(index, uplink, downlink) =>
      snap.(channels := Retoggle(snap.channels, index, Toggle(uplink, downlink)))
    case PutChannel(_, _, _, _, _, _) => snap.(channels := Install(p, snap.channels, op))
  }

  function OverlayAll(p: Platform, snap: Snap, ops: seq<Op>): Snap {
    if ops == [] then snap else Overlay(p, OverlayAll(p, snap, ops[..|ops| - 1]), ops[|ops| - 1])
  }

  lemma {:induction false} OverlayAppend(p: Platform, snap: Snap, a: seq<Op>, b: seq<Op>)
    ensures OverlayAll(p, snap, a + b) == OverlayAll(p, OverlayAll(p, snap, a), b)
  {
    if b == [] {
      assert a + b == a;
    } else {
      assert (a + b)[..|a + b| - 1] == a + b[..|b| - 1];
      OverlayAppend(p, snap, a, b[..|b| - 1]);
    }
  }

  lemma OverlayWhen(p: Platform, snap: Snap, b: bool, op: Op)
    ensures OverlayAll(p, snap, When(b, op)) == if b then Overlay(p, snap, op) else snap
  {
    if b { assert [op][..0] == []; }
  }

  // Section by section, the written values read back as the edited form; number boxes only if canonical.

  predicate Canonical(p: Platform, box: string) { p.show(p.number(box)) == box }

  lemma LoraReadsBack(p: Platform, sec: Section, f: Lora)
    ensures LoraOf(p, sec + LoraValues(p, f)) == f <==> Canonical(p, f.hop) && Canonical(p, f.txPower)
  {
  }

  lemma DeviceReadsBack(p: Platform, sec: Section, f: Device)
    ensures DeviceOf(p, sec + DeviceValues(p, f)) == f <==> Canonical(p, f.nodeInfoSecs)
  {
  }

  lemma PositionReadsBack(p: Platform, sec: Section, f: Position)
    ensures PositionOf(p, sec + PositionValues(p, f)) == f <==> Canonical(p, f.posSecs) && Canonical(p, f.gpsInterval)
  {
  }

  lemma MqttTextsReadBack(sec: Section, f: Mqtt)
    ensures var sec' := sec + MqttValues(f);
      At(sec', "address") == Str(f.address) && At(sec', "username") == Str(f.user) && At(sec', "root") == Str(f.root)
  {
  }

  lemma MqttFlagsReadBack(sec: Section, f: Mqtt)
    ensures At(sec + MqttValues(f), "enabled") == Bool(f.enabled) &&
      At(sec + MqttValues(f), "json_enabled") == Bool(f.json)
  {
  }

  lemma MqttEncryptionReadsBack(sec: Section, f: Mqtt)
    ensures At(sec + MqttValues(f), "encryption_enabled") == Bool(f.enc)
  {
  }

  lemma MqttMoreFlagsReadBack(sec: Section, f: Mqtt)
    ensures var sec' := sec + MqttValues(f);
      At(sec', "map_reporting_enabled") == Bool(f.map_) && At(sec', "proxy_to_client_enabled") == Bool(f.proxy)
      && At(sec', "tls_enabled") == Bool(f.tls)
  {
  }

  lemma {:induction false} MqttReadsBack(p: Platform, sec: Section, f: Mqtt)
    ensures MqttOf(p, sec + MqttValues(f)) == f.(pass := "")
  {
    hide At, MqttValues;
    MqttTextsReadBack(sec, f);
    MqttFlagsReadBack(sec, f);
    MqttEncryptionReadsBack(sec, f);
    MqttMoreFlagsReadBack(sec, f);
  }

  lemma {:induction false} RenameMe(nodes: seq<NodeName>, myNum: Option<int>, longName: string, shortName: string)
    ensures var nodes' := Rename(nodes, Me(nodes, myNum), longName, shortName);
      |nodes'| == |nodes| && Me(nodes', myNum) == Me(nodes, myNum)
  {
    if nodes != [] && Some(nodes[0].num) != myNum {
      RenameMe(nodes[1..], myNum, longName, shortName);
      var i := Me(nodes, myNum);
      assert Rename(nodes, i, longName, shortName)[1..] == Rename(nodes[1..], i - 1, longName, shortName);
    }
  }

  lemma OwnerReadsBack(p: Platform, snap: Snap, f: Owner)
    ensures OwnerOf(Overlay(p, snap, SetOwner(f.longName, f.shortName))) == if Known(snap) then f else Owner("", "")
  {
    RenameMe(snap.nodes, snap.myNum, f.longName, f.shortName);
  }

  // Channels.

  predicate UniqueIndexes(channels: seq<Channel>) {
    forall i, j | 0 <= i < j < |channels| :: channels[i].index != channels[j].index
  }

  /** The channels with every wanted toggle set. */
  function AllToggled(channels: seq<Channel>, toggles: map<int, Toggle>, n: nat): seq<Channel>
    requires n <= |channels|
  {
    seq(|channels|, i requires 0 <= i < |channels| =>
      if i < n then
        channels[i].(uplink := Wanted(channels[i], toggles).uplink, downlink := Wanted(channels[i], toggles).downlink)
      else channels[i])
  }

  lemma {:induction false} ChannelOpsToggle(p: Platform, snap: Snap, snap0: Snap, toggles: map<int, Toggle>, n: nat)
    requires UniqueIndexes(snap.channels) && n <= |snap.channels| && snap0.channels == snap.channels
    ensures OverlayAll(p, snap0, ChannelOps(snap.channels[..n], toggles)) ==
      snap0.(channels := AllToggled(snap.channels, toggles, n))
  {
    hide Toggled, Overlay;
    var channels := snap.channels;
    if n == 0 {
      assert AllToggled(channels, toggles, 0) == channels;
    } else {
      ChannelOpsToggle(p, snap, snap0, toggles, n - 1);
      assert channels[..n][..n - 1] == channels[..n - 1];
      ToggleOne(channels, toggles, n);
      var rest, c := ChannelOps(channels[..n - 1], toggles), channels[n - 1];
      var op := SetChannel(c.index, Wanted(c, toggles).uplink, Wanted(c, toggles).downlink);
      assert (rest + [op])[..|rest|] == rest;
      OverlayChannel(p, snap0.(channels := AllToggled(channels, toggles, n - 1)), op);
    }
  }

  lemma OverlayChannel(p: Platform, snap: Snap, op: Op)
    requires op.SetChannel?
    ensures Overlay(p, snap, op) == snap.(channels := Retoggle(snap.channels, op.index, Toggle(op.uplink, op.downlink)))
  {
  }

  lemma ToggleOne(channels: seq<Channel>, toggles: map<int, Toggle>, n: nat)
    requires UniqueIndexes(channels) && 0 < n <= |channels|
    ensures Retoggle(AllToggled(channels, toggles, n - 1), channels[n - 1].index, Wanted(channels[n - 1], toggles))
            == AllToggled(channels, toggles, n)
    ensures !Toggled(channels[n - 1], toggles) ==>
      AllToggled(channels, toggles, n - 1) == AllToggled(channels, toggles, n)
  {
  }

  // The whole edit.

  /** The snapshot after the section operations, field by field. */
  function Edited(p: Platform, snap: Snap, f: Form): Snap {
    var renamed := Overlay(p, snap, SetOwner(f.owner.longName, f.owner.shortName));
    var s1 := if f.owner != OwnerOf(snap) then renamed else snap;
    s1.(lora := if f.lora != LoraOf(p, snap.lora) then snap.lora + LoraValues(p, f.lora) else snap.lora,
        device := if f.device != DeviceOf(p, snap.device) then snap.device + DeviceValues(p, f.device) else snap.device,
        position := if f.position != PositionOf(p, snap.position) then snap.position + PositionValues(p, f.position)
          else snap.position,
        mqtt := if f.mqtt != MqttOf(p, snap.mqtt) then snap.mqtt + MqttValues(f.mqtt) else snap.mqtt)
  }

  lemma {:induction false} SectionOpsEdit(p: Platform, snap: Snap, f: Form)
    ensures OverlayAll(p, snap, SectionOps(p, snap, f)) == Edited(p, snap, f)
  {
    hide OwnerOf, LoraOf, DeviceOf, PositionOf, MqttOf, LoraValues, DeviceValues, PositionValues, MqttValues, When;
    hide OverlayAll;
    var a := When(f.owner != OwnerOf(snap), SetOwner(f.owner.longName, f.owner.shortName));
    var b := When(f.lora != LoraOf(p, snap.lora), SetConfig(LoraSection, LoraValues(p, f.lora)));
    var c := When(f.device != DeviceOf(p, snap.device), SetConfig(DeviceSection, DeviceValues(p, f.device)));
    var d := When(f.position != PositionOf(p, snap.position),
      SetConfig(PositionSection, PositionValues(p, f.position)));
    var e := When(f.mqtt != MqttOf(p, snap.mqtt), SetMqtt(MqttValues(f.mqtt)));
    OverlayAppend(p, snap, a + b + c + d, e);
    OverlayAppend(p, snap, a + b + c, d);
    OverlayAppend(p, snap, a + b, c);
    OverlayAppend(p, snap, a, b);
    var s1 := OverlayAll(p, snap, a);
    OverlayWhen(p, snap, f.owner != OwnerOf(snap), SetOwner(f.owner.longName, f.owner.shortName));
    OverlayWhen(p, s1, f.lora != LoraOf(p, snap.lora), SetConfig(LoraSection, LoraValues(p, f.lora)));
    var s2 := OverlayAll(p, s1, b);
    OverlayWhen(p, s2, f.device != DeviceOf(p, snap.device), SetConfig(DeviceSection, DeviceValues(p, f.device)));
    var s3 := OverlayAll(p, s2, c);
    OverlayWhen(p, s3, f.position != PositionOf(p, snap.position),
      SetConfig(PositionSection, PositionValues(p, f.position)));
    var s4 := OverlayAll(p, s3, d);
    OverlayWhen(p, s4, f.mqtt != MqttOf(p, snap.mqtt), SetMqtt(MqttValues(f.mqtt)));
  }

  lemma {:induction false} AllOpsEdit(p: Platform, snap: Snap, f: Form, toggles: map<int, Toggle>, nc: NewChannel)
    requires UniqueIndexes(snap.channels)
    ensures var channels := AllToggled(snap.channels, toggles, |snap.channels|);
      OverlayAll(p, snap, Ops(p, snap, f, toggles, nc)) ==
      Edited(p, snap, f).(channels := if Adds(p, nc) then Install(p, channels, PutOp(p, nc)) else channels)
  {
    hide SectionOps, Edited, OverlayAll, AllToggled, Adds, When, PskOf, Install;
    var a, b, c := SectionOps(p, snap, f), ChannelOps(snap.channels, toggles), When(Adds(p, nc), PutOp(p, nc));
    OverlayAppend(p, snap, a + b, c);
    OverlayAppend(p, snap, a, b);
    SectionOpsEdit(p, snap, f);
    EditedKeeps(p, snap, f);
    assert snap.channels[..|snap.channels|] == snap.channels;
    ChannelOpsToggle(p, snap, Edited(p, snap, f), toggles, |snap.channels|);
    OverlayWhen(p, OverlayAll(p, snap, a + b), Adds(p, nc), PutOp(p, nc));
  }

  lemma EditedKeeps(p: Platform, snap: Snap, f: Form)
    ensures Edited(p, snap, f).channels == snap.channels && Edited(p, snap, f).myNum == snap.myNum
  {
  }

  /** The number boxes of every section that is written hold canonical numerals, and a written owner is listed. */
  predicate Writable(p: Platform, snap: Snap, f: Form) {
    && (f.owner == OwnerOf(snap) || Known(snap))
    && (f.lora == LoraOf(p, snap.lora) || (Canonical(p, f.lora.hop) && Canonical(p, f.lora.txPower)))
    && (f.device == DeviceOf(p, snap.device) || Canonical(p, f.device.nodeInfoSecs))
    && (f.position == PositionOf(p, snap.position) ||
      (Canonical(p, f.position.posSecs) && Canonical(p, f.position.gpsInterval)))
  }

  /**
   * Writing an edit and reading the node again shows the edited form, password box blank, exactly
   * when the edit is writable.
   */
  lemma {:induction false} EditReadsBack(p: Platform, snap: Snap, f: Form, toggles: map<int, Toggle>, nc: NewChannel)
    requires UniqueIndexes(snap.channels)
    ensures Derive(p, OverlayAll(p, snap, Ops(p, snap, f, toggles, nc))) == f.(mqtt := f.mqtt.(pass := "")) <==>
      Writable(p, snap, f)
  {
    hide Ops, OverlayAll, AllToggled, Install, LoraOf, DeviceOf, PositionOf, MqttOf, LoraValues, DeviceValues;
    hide PositionValues, MqttValues, Canonical;
    AllOpsEdit(p, snap, f, toggles, nc);
    LoraReadsBack(p, snap.lora, f.lora);
    DeviceReadsBack(p, snap.device, f.device);
    PositionReadsBack(p, snap.position, f.position);
    MqttReadsBack(p, snap.mqtt, f.mqtt);
    OwnerReadsBack(p, snap, f.owner);
    BlankPassword(p, snap.mqtt);
  }

  lemma BlankPassword(p: Platform, sec: Section)
    ensures MqttOf(p, sec).pass == ""
  {
  }

  // Nothing edited, nothing sent.

  lemma {:induction false} NoChannelOps(channels: seq<Channel>, toggles: map<int, Toggle>)
    ensures ChannelOps(channels, toggles) == [] <==> forall c | c in channels :: !Toggled(c, toggles)
  {
    if channels != [] {
      assert channels == channels[..|channels| - 1] + [channels[|channels| - 1]];
      NoChannelOps(channels[..|channels| - 1], toggles);
    }
  }

  /** The list is empty exactly when no section, toggle or named new channel differs from the report. */
  lemma EmptyIffUnedited(p: Platform, snap: Snap, f: Form, toggles: map<int, Toggle>, nc: NewChannel)
    ensures Ops(p, snap, f, toggles, nc) == [] <==>
            f == Derive(p, snap) && (forall c | c in snap.channels :: !Toggled(c, toggles)) && !Adds(p, nc)
  {
    hide OwnerOf, LoraOf, DeviceOf, PositionOf, MqttOf, LoraValues, DeviceValues, PositionValues, MqttValues;
    hide ChannelOps, Toggled, Adds, PutOp;
    NoChannelOps(snap.channels, toggles);
  }

  lemma {:induction false} ChannelOpsName(channels: seq<Channel>, toggles: map<int, Toggle>, op: Op)
    ensures op in ChannelOps(channels, toggles) ==>
      exists c | c in channels :: Toggled(c, toggles) &&
        op == SetChannel(c.index, Wanted(c, toggles).uplink, Wanted(c, toggles).downlink)
  {
    if channels != [] {
      assert channels == channels[..|channels| - 1] + [channels[|channels| - 1]];
      ChannelOpsName(channels[..|channels| - 1], toggles, op);
    }
  }

  /** What was not edited is not mentioned, and no password leaves unless one was typed. */
  lemma {:induction false} OnlyEditsAreSent(p: Platform, snap: Snap, f: Form, toggles: map<int, Toggle>,
                                            nc: NewChannel, op: Op)
    requires op in Ops(p, snap, f, toggles, nc)
    ensures match op
      case SetOwner(_, _) => f.owner != OwnerOf(snap)
      case SetConfig(LoraSection, _) => f.lora != LoraOf(p, snap.lora)
      case SetConfig(DeviceSection, _) => f.device != DeviceOf(p, snap.device)
      case SetConfig(PositionSection, _) => f.position != PositionOf(p, snap.position)
      case SetMqtt(values) => f.mqtt != MqttOf(p, snap.mqtt) && ("password" in values <==> f.mqtt.pass != "")
      case SetChannel(index, _, _) => exists c | c in snap.channels :: c.index == index && Toggled(c, toggles)
      case PutChannel(index, _, _, _, _, _) => Adds(p, nc) && index == nc.index
  {
    hide OwnerOf, LoraOf, DeviceOf, PositionOf, MqttOf, LoraValues, DeviceValues, PositionValues, ChannelOps, Toggled;
    hide Adds, PskOf;
    ChannelOpsName(snap.channels, toggles, op);
  }

  /** The one MQTT operation there can be. */
  lemma {:induction false} MqttOpIs(p: Platform, snap: Snap, f: Form, toggles: map<int, Toggle>, nc: NewChannel, op: Op)
    ensures op.SetMqtt? ==>
      (op in Ops(p, snap, f, toggles, nc) <==> f.mqtt != MqttOf(p, snap.mqtt) && op == SetMqtt(MqttValues(f.mqtt)))
  {
    hide OwnerOf, LoraOf, DeviceOf, PositionOf, MqttOf, LoraValues, DeviceValues, PositionValues, MqttValues;
    hide ChannelOps;
    hide Adds, PskOf, Toggled;
    ChannelOpsName(snap.channels, toggles, op);
  }

  /** A password is sent exactly when one was typed, and then it is the one that was typed. */
  lemma PasswordIsSentIff(p: Platform, snap: Snap, f: Form, toggles: map<int, Toggle>, nc: NewChannel)
    ensures (exists op | op in Ops(p, snap, f, toggles, nc) :: op.SetMqtt? && "password" in op.values) <==>
      f.mqtt.pass != ""
    ensures forall op | op in Ops(p, snap, f, toggles, nc) && op.SetMqtt? && "password" in op.values ::
      op.values["password"] == Str(f.mqtt.pass)
  {
    hide Ops, MqttValues, MqttOf;
    PasswordValue(f.mqtt);
    BlankPassword(p, snap.mqtt);
    forall op: Op
      ensures op.SetMqtt? ==>
        (op in Ops(p, snap, f, toggles, nc) <==> f.mqtt != MqttOf(p, snap.mqtt) && op == SetMqtt(MqttValues(f.mqtt)))
    {
      MqttOpIs(p, snap, f, toggles, nc, op);
    }
    if f.mqtt.pass != "" { assert SetMqtt(MqttValues(f.mqtt)) in Ops(p, snap, f, toggles, nc); }
  }

  lemma PasswordValue(f: Mqtt)
    ensures "password" in MqttValues(f) <==> f.pass != ""
    ensures f.pass != "" ==> MqttValues(f)["password"] == Str(f.pass)
  {
  }
}
