// The wire names of the configuration form: which reported field each box shows, and which field of
// a write it goes into.
module NodeSections {
  import opened Collections
  import opened NodeConfigForm

  /** What a text box shows of a reported value. */
  predicate ShowsText(p: Platform, sec: Section, key: string, box: string) {
    if key !in sec || sec[key].Undefined? || sec[key].Null? then box == ""
    else match sec[key]
      case Str(s) => box == s
      case Num(n) => box == p.show(n)
      case Bool(b) => box == if b then "true" else "false"
      case _ => true
  }

  /** A check box is ticked for true, the text "true" and the number 1. */
  predicate ShowsTick(sec: Section, key: string, box: bool) {
    box <==> key in sec && sec[key] in [Bool(true), Str("true"), Num(1.0)]
  }

  lemma TextShown(p: Platform, sec: Section, key: string)
    ensures ShowsText(p, sec, key, S(p, At(sec, key)))
  {
  }

  lemma TickShown(sec: Section, key: string)
    ensures ShowsTick(sec, key, B(At(sec, key)))
  {
  }

  /** Which reported field each box of the radio section shows. */
  lemma RadioBoxesShow(p: Platform, snap: Snap)
    ensures var f, sec := Derive(p, snap).lora, snap.lora;
      && ShowsText(p, sec, "region", f.region) && ShowsText(p, sec, "modem_preset", f.preset)
      && ShowsText(p, sec, "hop_limit", f.hop) && ShowsText(p, sec, "tx_power", f.txPower)
      && (f.txEnabled <==> !("tx_enabled" in sec && sec["tx_enabled"] == Bool(false)))
      && ShowsTick(sec, "config_ok_to_mqtt", f.okMqtt) && ShowsTick(sec, "ignore_mqtt", f.ignoreMqtt)
  {
    hide ShowsText, ShowsTick, S, B, At, OwnerOf, DeviceOf, PositionOf, MqttOf;
    forall sec: Section, key
      ensures ShowsText(p, sec, key, S(p, At(sec, key))) && ShowsTick(sec, key, B(At(sec, key)))
    {
      TextShown(p, sec, key);
      TickShown(sec, key);
    }
    TxEnabledShown(p, snap.lora);
  }

  /** Which reported field each box of the device section shows. */
  lemma DeviceBoxesShow(p: Platform, snap: Snap)
    ensures var f, sec := Derive(p, snap).device, snap.device;
      && ShowsText(p, sec, "role", f.role) && ShowsText(p, sec, "rebroadcast_mode", f.rebroadcast)
      && ShowsText(p, sec, "node_info_broadcast_secs", f.nodeInfoSecs)
  {
    hide ShowsText, S, B, At, OwnerOf, LoraOf, PositionOf, MqttOf;
    forall sec: Section, key
      ensures ShowsText(p, sec, key, S(p, At(sec, key)))
    {
      TextShown(p, sec, key);
    }
  }

  /** Which reported field each box of the position section shows. */
  lemma PositionBoxesShow(p: Platform, snap: Snap)
    ensures var f, sec := Derive(p, snap).position, snap.position;
      && ShowsText(p, sec, "position_broadcast_secs", f.posSecs) && ShowsText(p, sec, "gps_mode", f.gpsMode)
      && ShowsText(p, sec, "gps_update_interval", f.gpsInterval) && ShowsTick(sec, "fixed_position", f.fixedPos)
      && ShowsTick(sec, "position_broadcast_smart_enabled", f.posSmart)
  {
    hide ShowsText, ShowsTick, S, B, At, OwnerOf, LoraOf, DeviceOf, MqttOf;
    forall sec: Section, key
      ensures ShowsText(p, sec, key, S(p, At(sec, key))) && ShowsTick(sec, key, B(At(sec, key)))
    {
      TextShown(p, sec, key);
      TickShown(sec, key);
    }
  }

  lemma TxEnabledShown(p: Platform, sec: Section)
    ensures LoraOf(p, sec).txEnabled <==> !("tx_enabled" in sec && sec["tx_enabled"] == Bool(false))
  {
  }

  /** Which reported field each box of the broker section shows; its password box is blank. */
  lemma BrokerBoxesShow(p: Platform, snap: Snap)
    ensures var f, sec := Derive(p, snap).mqtt, snap.mqtt;
      && ShowsText(p, sec, "address", f.address) && ShowsText(p, sec, "username", f.user)
      && ShowsText(p, sec, "root", f.root) && f.pass == ""
      && ShowsTick(sec, "enabled", f.enabled) && ShowsTick(sec, "encryption_enabled", f.enc)
      && ShowsTick(sec, "json_enabled", f.json) && ShowsTick(sec, "map_reporting_enabled", f.map_)
      && ShowsTick(sec, "proxy_to_client_enabled", f.proxy) && ShowsTick(sec, "tls_enabled", f.tls)
  {
    hide ShowsText, ShowsTick, S, B, At, OwnerOf, LoraOf, DeviceOf, PositionOf;
    forall sec: Section, key
      ensures ShowsText(p, sec, key, S(p, At(sec, key))) && ShowsTick(sec, key, B(At(sec, key)))
    {
      TextShown(p, sec, key);
      TickShown(sec, key);
    }
  }

  /** The names shown are those of the first node with the snapshot's own number, blank if there is none. */
  lemma OwnerBoxesShow(p: Platform, snap: Snap, i: nat)
    requires i < |snap.nodes| && snap.myNum == Some(snap.nodes[i].num)
    requires forall j | 0 <= j < i :: snap.nodes[j].num != snap.nodes[i].num
    ensures var o, n := Derive(p, snap).owner, snap.nodes[i];
      && o.longName == (if n.longName.Some? then n.longName.value else "")
      && o.shortName == (if n.shortName.Some? then n.shortName.value else "")
  {
    hide LoraOf, DeviceOf, PositionOf, MqttOf;
    assert Me(snap.nodes, snap.myNum) == i;
  }

  // What is written.

  /** A write of the radio section names exactly these fields; whether the preset is in use is left to the node. */
  lemma LoraWrites(p: Platform, f: Lora)
    ensures var v := LoraValues(p, f);
      && v.Keys == {"region", "modem_preset", "hop_limit", "tx_power", "tx_enabled", "config_ok_to_mqtt", "ignore_mqtt"}
      && v["region"] == Str(f.region) && v["modem_preset"] == Str(f.preset)
      && v["hop_limit"] == Num(p.number(f.hop)) && v["tx_power"] == Num(p.number(f.txPower))
      && v["tx_enabled"] == Bool(f.txEnabled)
      && v["config_ok_to_mqtt"] == Bool(f.okMqtt) && v["ignore_mqtt"] == Bool(f.ignoreMqtt)
  {
  }

  lemma DeviceWrites(p: Platform, f: Device)
    ensures var v := DeviceValues(p, f);
      && v.Keys == {"role", "rebroadcast_mode", "node_info_broadcast_secs"}
      && v["role"] == Str(f.role) && v["rebroadcast_mode"] == Str(f.rebroadcast)
      && v["node_info_broadcast_secs"] == Num(p.number(f.nodeInfoSecs))
  {
  }

  lemma PositionWrites(p: Platform, f: Position)
    ensures var v := PositionValues(p, f);
      && v.Keys == {"position_broadcast_secs", "position_broadcast_smart_enabled", "fixed_position",
                    "gps_update_interval", "gps_mode"}
      && v["position_broadcast_secs"] == Num(p.number(f.posSecs))
      && v["gps_update_interval"] == Num(p.number(f.gpsInterval)) && v["gps_mode"] == Str(f.gpsMode)
      && v["position_broadcast_smart_enabled"] == Bool(f.posSmart) && v["fixed_position"] == Bool(f.fixedPos)
  {
  }
}
