/** wifi_connect_ap_inner: adding, configuring, selecting and trying a network
    as one transaction, undone after most failures (wifimanager.c). */
module Connect {
  import opened Bytes
  import opened PrintfCodec
  import opened SsidCodec
  import Lines
  import opened Supplicant
  import opened NetworkTable
  import opened NetworkListing
  import opened NetworkLookup

  const ERR_LIB_INVALID_PASSWORD := -20
  const ERR_LIB_NET_EXISTENCE := -22
  const ERR_LIB_ADD_NETWORK := -23
  const ERR_LIB_SET_NETWORK := -24
  const ERR_LIB_SELECT_NETWORK := -25
  const ERR_LIB_ENABLE_NETWORK := -26
  const ERR_LIB_RECONNECT_NETWORK := -27
  const ERR_LIB_WRONG_PASSWORD := -28

  const MAX_ASSOC_REJECT_COUNT := 3
  const MAX_POLLS := 225

  datatype MachineState = Disconnected | Connecting | L2Connected | Connected | Disconnecting

  datatype InnerEvent = ApDisconnected | ApConnected | PasswordIncorrect | ConnectApTimeout | ObtainingIpTimeout

  // ----- single commands

  /** No REMOVE_NETWORK sent since the log was `from` long was refused. */
  ghost predicate RemovesDone(log: seq<Sent>, from: nat) {
    forall i :: from <= i < |log| && log[i].command.RemoveNetwork? ==> log[i].ok
  }

  /** No listing and no query was refused. */
  ghost predicate QueriesDone(log: seq<Sent>, from: nat) {
    forall i :: from <= i < |log| && (log[i].command.ListNetworks? || log[i].command.GetPriority?) ==> log[i].ok
  }

  /** No listing and no ENABLE_NETWORK was refused. */
  ghost predicate EnablesDone(log: seq<Sent>, from: nat) {
    forall i :: from <= i < |log| && (log[i].command.ListNetworks? || log[i].command.EnableNetwork?) ==> log[i].ok
  }

  /** The command was sent and carried out. */
  ghost predicate Succeeded(log: seq<Sent>, from: nat, c: Command) {
    exists i :: from <= i < |log| && log[i] == Sent(c, true)
  }

  /** The error code that stands for a refused command, or 0. */
  function CodeOf(c: Command): int {
    match c
    case AddNetwork => ERR_LIB_ADD_NETWORK
    case SetNetwork(_, _) => ERR_LIB_SET_NETWORK
    case SelectNetwork(_) => ERR_LIB_SELECT_NETWORK
    case EnableNetwork(_) => ERR_LIB_ENABLE_NETWORK
    case Reconnect => ERR_LIB_RECONNECT_NETWORK
    case _ => 0
  }

  /** A failure before the wait names a command that was refused. */
  ghost predicate Refused(log: seq<Sent>, from: nat, error: int) {
    exists i :: from <= i < |log| && !log[i].ok && CodeOf(log[i].command) == error
  }

  lemma GrownLog(log0: seq<Sent>, log: seq<Sent>, from: nat)
    requires log0 <= log
    ensures forall error :: Refused(log0, from, error) ==> Refused(log, from, error)
    ensures forall c :: Succeeded(log0, from, c) ==> Succeeded(log, from, c)
  {
    forall error | Refused(log0, from, error) ensures Refused(log, from, error) {
      var i :| from <= i < |log0| && !log0[i].ok && CodeOf(log0[i].command) == error;
      assert log[i] == log0[i];
    }
    forall c | Succeeded(log0, from, c) ensures Succeeded(log, from, c) {
      var i :| from <= i < |log0| && log0[i] == Sent(c, true);
      assert log[i] == log0[i];
    }
  }

  /** None of the commands sent since then was a REMOVE_NETWORK. */
  ghost predicate NoRemoves(log: seq<Sent>, from: nat) {
    forall i :: from <= i < |log| ==> !log[i].command.RemoveNetwork?
  }

  lemma RemovesStand(log0: seq<Sent>, log: seq<Sent>, from: nat)
    requires log0 <= log && from <= |log0| && NoRemoves(log, |log0|)
    ensures RemovesDone(log, from) <==> RemovesDone(log0, from)
  {
    assert forall i :: 0 <= i < |log0| ==> log[i] == log0[i];
  }

  /** The new network is in the table, and no removal was refused so far. */
  ghost predicate Open(ns: seq<Network>, base: seq<Network>, n: Network, id: Text, log: seq<Sent>, from: nat) {
    HasNew(ns, base, n) && n.id == id && from <= |log| && RemovesDone(log, from)
  }

  /** The table at entry and one network more, with this id. */
  ghost predicate StillThere(ns: seq<Network>, base: seq<Network>, id: Text) {
    exists n: Network :: n.id == id && HasNew(ns, base, n)
  }

  /** The attempt left no trace, or its own REMOVE_NETWORK was refused and the new
      network is still there. */
  ghost predicate RolledBack(ns: seq<Network>, base: seq<Network>, id: Text, log: seq<Sent>, from: nat) {
    WellFormed(ns) && if RemovesDone(log, from) then Profiles(ns) == Profiles(base) else StillThere(ns, base, id)
  }

  /** The table is the one at entry exactly when no removal was refused. */
  lemma RolledBackExactly(ns: seq<Network>, base: seq<Network>, id: Text, log: seq<Sent>, from: nat)
    requires RolledBack(ns, base, id, log, from)
    ensures Profiles(ns) == Profiles(base) <==> RemovesDone(log, from)
  {
    if !RemovesDone(log, from) {
      var n: Network :| n.id == id && HasNew(ns, base, n);
      assert |Profiles(ns)| == |Profiles(base)| + 1;
    }
  }

  method Send(sup: WpaSupplicant, c: Command) returns (ret: int)
    requires WellFormed(sup.networks) && !c.AddNetwork? && !c.ListNetworks?
    modifies sup
    ensures WellFormed(sup.networks) && (ret == 0 || ret == -1) && sup.complete == old(sup.complete)
    ensures sup.log == if c.SaveConfig? then old(sup.log) else old(sup.log) + [Sent(c, ret == 0)]
    ensures c.SaveConfig? ==> sup.networks == old(sup.networks)
    ensures !c.SaveConfig? && ret == 0 ==>
      Accepts(old(sup.networks), c) && sup.networks == Applied(old(sup.networks), c)
    ensures ret != 0 ==> sup.networks == old(sup.networks)
  {
    var reply;
    ghost var raw, shown;
    ret, reply, raw, shown := sup.Ask(c);
  }

  /** Cancels the network saved so far. */
  method Undo(sup: WpaSupplicant, id: Text, ghost base: seq<Network>, ghost n: Network, ghost from: nat)
    requires Open(sup.networks, base, n, id, sup.log, from)
    modifies sup
    ensures RolledBack(sup.networks, base, id, sup.log, from)
    ensures old(sup.log) <= sup.log && sup.complete == old(sup.complete)
  {
    RemovedNew(sup.networks, base, n);
    var ret := Send(sup, RemoveNetwork(id));
    assert ret != 0 ==> !sup.log[|sup.log| - 1].ok;
  }

  method SetOrUndo(sup: WpaSupplicant, id: Text, s: Setting, ghost base: seq<Network>, ghost n: Network,
                   ghost from: nat)
    returns (ret: int)
    requires Open(sup.networks, base, n, id, sup.log, from)
    modifies sup
    ensures ret == 0 || ret == ERR_LIB_SET_NETWORK
    ensures ret == 0 ==> AcceptsSetting(s) && Open(sup.networks, base, With(n, s), id, sup.log, from)
    ensures ret != 0 ==> RolledBack(sup.networks, base, id, sup.log, from) && Refused(sup.log, from, ret)
    ensures old(sup.log) <= sup.log && sup.complete == old(sup.complete)
  {
    ret := Send(sup, SetNetwork(id, s));
    if ret != 0 {
      assert !sup.log[|old(sup.log)|].ok;
      Undo(sup, id, base, n, from);
      return ERR_LIB_SET_NETWORK;
    }
    SetNew(old(sup.networks), base, n, s);
  }

  /** SELECT_NETWORK, ENABLE_NETWORK or RECONNECT, which touch no setting. */
  method SendOrUndo(sup: WpaSupplicant, c: Command, error: int, id: Text, ghost base: seq<Network>, ghost n: Network,
                    ghost from: nat)
    returns (ret: int)
    requires Open(sup.networks, base, n, id, sup.log, from)
    requires (OnlyEnables(c) || c.Reconnect?) && error == CodeOf(c) != 0
    modifies sup
    ensures ret == 0 || ret == error
    ensures ret == 0 ==> Open(sup.networks, base, n, id, sup.log, from) && Succeeded(sup.log, from, c)
    ensures ret != 0 ==> RolledBack(sup.networks, base, id, sup.log, from) && Refused(sup.log, from, ret)
    ensures old(sup.log) <= sup.log && sup.complete == old(sup.complete)
  {
    ret := Send(sup, c);
    if ret != 0 {
      assert !sup.log[|old(sup.log)|].ok;
      Undo(sup, id, base, n, from);
      return error;
    }
    assert sup.log[|old(sup.log)|] == Sent(c, true);
    if OnlyEnables(c) {
      EnablesKeepProfiles(old(sup.networks), c);
    }
  }

  // ----- configuring the new network

  predicate PasswordOk(passwd: Text) {
    passwd != [] && forall i :: 0 <= i < |passwd| ==> 32 <= passwd[i] <= 126
  }

  method CheckWpaPasswd(passwd: Text) returns (result: int)
    requires NulFree(passwd)
    ensures result == if PasswordOk(passwd) then 1 else 0
  {
    result := 0;
    if passwd == [] {
      return;
    }
    var i := 0;
    while i < |passwd| && 32 <= passwd[i] <= 126
      invariant 0 <= i <= |passwd| && forall k :: 0 <= k < i ==> 32 <= passwd[k] <= 126
    {
      i := i + 1;
    }
    if i == |passwd| {
      result := 1;
    }
  }

  function InQuotes(s: Text): Text {
    [QUOTE] + s + [QUOTE]
  }

  const OPEN_SHARED: Text := Ascii("OPEN SHARED")

  /** The key settings of the new network, by kind of key. */
  ghost predicate KeyedFor(n: Network, n0: Network, keyMgmt: KeyMgmt, passwd: Text) {
    && n == n0.(keyMgmt := KeyType(keyMgmt), secrets := n.secrets)
    && (keyMgmt == NoKey ==> n.secrets == n0.secrets)
    && (keyMgmt == WpaPsk || keyMgmt == Wpa2Psk ==>
          PasswordOk(passwd) && n.secrets == n0.secrets[Psk := InQuotes(passwd)])
    && (keyMgmt == Wep ==>
          || n.secrets == n0.secrets[WepKey0 := passwd][AuthAlg := OPEN_SHARED]
          || n.secrets == n0.secrets[WepKey0 := InQuotes(passwd)][AuthAlg := OPEN_SHARED])
    && keyMgmt != OtherKeyMgmt
  }

  /** Why an attempt failed before the wait: a refused command or an unusable key. */
  ghost predicate Blamed(log: seq<Sent>, from: nat, error: int, keyMgmt: KeyMgmt, passwd: Text) {
    || Refused(log, from, error)
    || (error == ERR_LIB_INVALID_PASSWORD && keyMgmt == OtherKeyMgmt)
    || (error == ERR_LIB_INVALID_PASSWORD && (keyMgmt == WpaPsk || keyMgmt == Wpa2Psk) && !PasswordOk(passwd))
  }

  method SetKeys(sup: WpaSupplicant, id: Text, keyMgmt: KeyMgmt, passwd: Text, ghost base: seq<Network>,
                 ghost n0: Network, ghost from: nat)
    returns (ret: int, ghost n: Network)
    requires Open(sup.networks, base, n0, id, sup.log, from) && NulFree(passwd)
    modifies sup
    ensures n.id == id
    ensures ret == 0 || ret == ERR_LIB_SET_NETWORK || ret == ERR_LIB_INVALID_PASSWORD
    ensures ret == 0 ==> Open(sup.networks, base, n, id, sup.log, from) && KeyedFor(n, n0, keyMgmt, passwd)
    ensures ret != 0 ==>
      RolledBack(sup.networks, base, id, sup.log, from) && Blamed(sup.log, from, ret, keyMgmt, passwd)
    ensures keyMgmt == OtherKeyMgmt ==> ret == ERR_LIB_INVALID_PASSWORD
    ensures old(sup.log) <= sup.log && sup.complete == old(sup.complete)
  {
    n := n0;
    match keyMgmt {
      case NoKey =>
        ret := SetOrUndo(sup, id, KeyMgmt(NONE), base, n, from);
        n := With(n, KeyMgmt(NONE));
      case WpaPsk =>
        ret, n := SetPsk(sup, id, passwd, base, n, from);
      case Wpa2Psk =>
        ret, n := SetPsk(sup, id, passwd, base, n, from);
      case Wep =>
        ret, n := SetWep(sup, id, passwd, base, n, from);
      case OtherKeyMgmt =>
        Undo(sup, id, base, n, from);
        ret := ERR_LIB_INVALID_PASSWORD;
    }
  }

  method SetPsk(sup: WpaSupplicant, id: Text, passwd: Text, ghost base: seq<Network>, ghost n0: Network,
                ghost from: nat)
    returns (ret: int, ghost n: Network)
    requires Open(sup.networks, base, n0, id, sup.log, from) && NulFree(passwd)
    modifies sup
    ensures n.id == id
    ensures ret == 0 || ret == ERR_LIB_SET_NETWORK || ret == ERR_LIB_INVALID_PASSWORD
    ensures ret == 0 ==> Open(sup.networks, base, n, id, sup.log, from) && KeyedFor(n, n0, WpaPsk, passwd)
    ensures ret != 0 ==> RolledBack(sup.networks, base, id, sup.log, from) && Blamed(sup.log, from, ret, WpaPsk, passwd)
    ensures old(sup.log) <= sup.log && sup.complete == old(sup.complete)
  {
    n := With(n0, KeyMgmt(WPA_PSK));
    ret := SetOrUndo(sup, id, KeyMgmt(WPA_PSK), base, n0, from);
    if ret != 0 {
      return;
    }
    var result := CheckWpaPasswd(passwd);
    if result == 0 {
      Undo(sup, id, base, n, from);
      ret := ERR_LIB_INVALID_PASSWORD;
      return;
    }
    ret := SetOrUndo(sup, id, Private(Psk, InQuotes(passwd)), base, n, from);
    n := With(n, Private(Psk, InQuotes(passwd)));
  }

  method SetWep(sup: WpaSupplicant, id: Text, passwd: Text, ghost base: seq<Network>, ghost n0: Network,
                ghost from: nat)
    returns (ret: int, ghost n: Network)
    requires Open(sup.networks, base, n0, id, sup.log, from)
    modifies sup
    ensures n.id == id
    ensures ret == 0 || ret == ERR_LIB_SET_NETWORK
    ensures ret == 0 ==> Open(sup.networks, base, n, id, sup.log, from) && KeyedFor(n, n0, Wep, passwd)
    ensures ret != 0 ==> RolledBack(sup.networks, base, id, sup.log, from) && Refused(sup.log, from, ret)
    ensures old(sup.log) <= sup.log && sup.complete == old(sup.complete)
  {
    n := With(n0, KeyMgmt(NONE));
    ret := SetOrUndo(sup, id, KeyMgmt(NONE), base, n0, from);
    if ret != 0 {
      return;
    }
    ret, n := SetWepKey(sup, id, passwd, base, n, from);
    if ret != 0 {
      return;
    }
    ret := SetOrUndo(sup, id, Private(AuthAlg, OPEN_SHARED), base, n, from);
    n := With(n, Private(AuthAlg, OPEN_SHARED));
  }

  /** A WEP key is tried as hexadecimal digits first and then in quotes. */
  method SetWepKey(sup: WpaSupplicant, id: Text, passwd: Text, ghost base: seq<Network>, ghost n0: Network,
                   ghost from: nat)
    returns (ret: int, ghost n: Network)
    requires Open(sup.networks, base, n0, id, sup.log, from)
    modifies sup
    ensures n.id == id
    ensures ret == 0 || ret == ERR_LIB_SET_NETWORK
    ensures ret == 0 ==> Open(sup.networks, base, n, id, sup.log, from)
    ensures ret == 0 ==> n == With(n0, Private(WepKey0, passwd)) || n == With(n0, Private(WepKey0, InQuotes(passwd)))
    ensures ret != 0 ==> RolledBack(sup.networks, base, id, sup.log, from) && Refused(sup.log, from, ret)
    ensures old(sup.log) <= sup.log && sup.complete == old(sup.complete)
  {
    ret := Send(sup, SetNetwork(id, Private(WepKey0, passwd)));
    if ret != 0 {
      ret := SetOrUndo(sup, id, Private(WepKey0, InQuotes(passwd)), base, n0, from);
      n := With(n0, Private(WepKey0, InQuotes(passwd)));
    } else {
      n := With(n0, Private(WepKey0, passwd));
      SetNew(old(sup.networks), base, n0, Private(WepKey0, passwd));
    }
  }

  // ----- priority

  ghost predicate Above(base: seq<Network>, n: Network) {
    forall i :: 0 <= i < |base| ==> base[i].priority < n.priority
  }

  /** A walk that failed left a refused listing or query in the log. */
  lemma WalkRefused(log0: seq<Sent>, log: seq<Sent>, cs: seq<Command>, done: nat)
    requires Walked(log0, log, cs, done, -1) && forall i :: 0 <= i < |cs| ==> cs[i].GetPriority?
    ensures !QueriesDone(log, |log0|)
  {
    var last := log[|log| - 1];
    assert !last.ok && (last.command.ListNetworks? || last.command.GetPriority?);
  }

  lemma EnableWalkRefused(log0: seq<Sent>, log: seq<Sent>, cs: seq<Command>, done: nat)
    requires Walked(log0, log, cs, done, -1) && forall i :: 0 <= i < |cs| ==> cs[i].EnableNetwork?
    ensures !EnablesDone(log, |log0|)
  {
    var last := log[|log| - 1];
    assert !last.ok && (last.command.ListNetworks? || last.command.EnableNetwork?);
  }

  lemma WalkGrows(log0: seq<Sent>, log: seq<Sent>, cs: seq<Command>, done: nat, ret: int)
    requires Walked(log0, log, cs, done, ret)
    ensures log0 <= log && (ret == 0 ==> Listed(log0, log))
    ensures (forall i :: 0 <= i < |cs| ==> !cs[i].RemoveNetwork?) ==> NoRemoves(log, |log0|)
  {
  }

  lemma RankedAbove(ns: seq<Network>, base: seq<Network>, n: Network, maxPrio: int)
    requires HasNew(ns, base, n) && IsMaxPriority(ns, |ns|, maxPrio)
    ensures Above(base, n.(priority := maxPrio + 1))
  {
    NewIsLast(ns, base, n);
    forall i | 0 <= i < |base| ensures base[i].priority <= maxPrio {
      assert Profile(ns[i]) == Profile(base[i]);
    }
  }

  /** The new network's priority becomes one more than the largest one read. */
  method SetPriority(sup: WpaSupplicant, id: Text, ghost base: seq<Network>, ghost n0: Network, ghost from: nat)
    returns (ret: int, ghost n: Network)
    requires Open(sup.networks, base, n0, id, sup.log, from)
    modifies sup
    ensures ret == 0 || ret == ERR_LIB_SET_NETWORK
    ensures n == n0.(priority := n.priority)
    ensures ret == 0 ==> Open(sup.networks, base, n, id, sup.log, from)
    ensures ret == 0 && QueriesDone(sup.log, |old(sup.log)|) && sup.complete ==> Above(base, n)
    ensures ret != 0 ==> RolledBack(sup.networks, base, id, sup.log, from) && Refused(sup.log, from, ret)
    ensures old(sup.log) <= sup.log && (sup.complete ==> old(sup.complete))
  {
    var maxPrio;
    ghost var shown, done;
    maxPrio, shown, done := MaxPriority(sup);
    ghost var log1 := sup.log;
    ghost var ranked := maxPrio != -1 && shown == |sup.networks|;
    ghost var cs := ForEach(id => GetPriority(id), sup.networks[..shown]);
    WalkGrows(old(sup.log), log1, cs, done, if maxPrio == -1 then -1 else 0);
    if maxPrio == -1 {
      WalkRefused(old(sup.log), log1, cs, done);
    } else if shown == |sup.networks| {
      RankedAbove(sup.networks, base, n0, maxPrio);
    }
    n := With(n0, Priority(maxPrio + 1));
    RemovesStand(old(sup.log), log1, from);
    assert sup.complete ==> old(sup.complete) && (maxPrio != -1 ==> ranked);
    ret := SetOrUndo(sup, id, Priority(maxPrio + 1), base, n0, from);
    assert log1 <= sup.log;
  }

  // ----- waiting for the link

  /** What the last poll saw. */
  datatype Polled = Polled(state: MachineState, event: InnerEvent)

  datatype Ending = RollsBack | LeavesBehind | Keeps

  /** What becomes of the new network after the wait. */
  function EndingOf(p: Polled): Ending {
    match p.state
    case Connecting => RollsBack
    case Disconnected =>
      if p.event == PasswordIncorrect then RollsBack
      else if p.event == ObtainingIpTimeout then Keeps
      else LeavesBehind
    case L2Connected => Keeps
    case Connected => Keeps
    case Disconnecting => LeavesBehind
  }

  // ----- the new network as a whole

  /** The value SET_NETWORK gets for the SSID: hexadecimal as it is, plain text in quotes. */
  function SsidValue(ssid: Text, chinese: bool): Text {
    if chinese then ssid else InQuotes(ssid)
  }

  /** The network an attempt configures. */
  ghost predicate Configured(n: Network, ssid: Text, chinese: bool, keyMgmt: KeyMgmt, passwd: Text) {
    && NulFree(SsidValue(ssid, chinese)) && ParsedString(SsidValue(ssid, chinese)) == Some(n.ssid)
    && |n.ssid| <= SSID_MAX_LEN
    && KeyedFor(n, Network(n.id, n.ssid, n.keyMgmt, n.priority, map[], n.enabled), keyMgmt, passwd)
  }

  method Prepare(sup: WpaSupplicant, id: Text, ssid: Text, chinese: bool, keyMgmt: KeyMgmt, passwd: Text,
                 ghost base: seq<Network>, ghost from: nat)
    returns (ret: int, ghost n: Network)
    requires Open(sup.networks, base, Fresh(id), id, sup.log, from) && NulFree(passwd)
    modifies sup
    ensures n.id == id
    ensures ret == 0 ==>
      Open(sup.networks, base, n, id, sup.log, from) && n.id == id && Configured(n, ssid, chinese, keyMgmt, passwd)
    ensures ret == 0 ==> Succeeded(sup.log, from, SelectNetwork(id)) && Succeeded(sup.log, from, EnableNetwork(id))
    ensures ret == 0 && QueriesDone(sup.log, from) && sup.complete ==> Above(base, n)
    ensures ret != 0 ==>
      RolledBack(sup.networks, base, id, sup.log, from) && Blamed(sup.log, from, ret, keyMgmt, passwd)
    ensures old(sup.log) <= sup.log && (sup.complete ==> old(sup.complete))
  {
    var s := Ssid(SsidValue(ssid, chinese));
    ghost var n1 := With(Fresh(id), s);
    ret := SetOrUndo(sup, id, s, base, Fresh(id), from);
    n := n1;
    if ret == 0 {
      ret, n := SetKeys(sup, id, keyMgmt, passwd, base, n1, from);
    }
    ghost var n2 := n;
    if ret == 0 {
      ret, n := SetPriority(sup, id, base, n2, from);
    }
    if ret == 0 {
      ret := Activate(sup, id, base, n, from);
    }
  }

  method Activate(sup: WpaSupplicant, id: Text, ghost base: seq<Network>, ghost n: Network, ghost from: nat)
    returns (ret: int)
    requires Open(sup.networks, base, n, id, sup.log, from)
    modifies sup
    ensures ret == 0 || ret == ERR_LIB_SELECT_NETWORK || ret == ERR_LIB_ENABLE_NETWORK
    ensures ret == 0 ==> Open(sup.networks, base, n, id, sup.log, from)
    ensures ret == 0 ==> Succeeded(sup.log, from, SelectNetwork(id)) && Succeeded(sup.log, from, EnableNetwork(id))
    ensures ret != 0 ==> RolledBack(sup.networks, base, id, sup.log, from) && Refused(sup.log, from, ret)
    ensures old(sup.log) <= sup.log && sup.complete == old(sup.complete)
  {
    ret := SendOrUndo(sup, SelectNetwork(id), ERR_LIB_SELECT_NETWORK, id, base, n, from);
    ghost var log1 := sup.log;
    if ret == 0 {
      ret := SendOrUndo(sup, EnableNetwork(id), ERR_LIB_ENABLE_NETWORK, id, base, n, from);
      GrownLog(log1, sup.log, from);
    }
  }

  /** ADD_NETWORK. */
  method Add(sup: WpaSupplicant) returns (ret: int, id: Text)
    requires WellFormed(sup.networks)
    modifies sup
    ensures ret == 0 || ret == ERR_LIB_ADD_NETWORK
    ensures ret == 0 ==> HasNew(sup.networks, old(sup.networks), Fresh(id)) && PlaceOf(old(sup.networks), id) < 0
    ensures ret != 0 ==> sup.networks == old(sup.networks) && Refused(sup.log, |old(sup.log)|, ret)
    ensures WellFormed(sup.networks) && old(sup.log) <= sup.log && sup.complete == old(sup.complete)
    ensures NoRemoves(sup.log, |old(sup.log)|)
  {
    ghost var raw, shown;
    ret, id, raw, shown := sup.Ask(AddNetwork);
    if ret != 0 {
      assert !sup.log[|old(sup.log)|].ok;
      return ERR_LIB_ADD_NETWORK, id;
    }
    AddedNew(old(sup.networks), sup.networks, id);
  }

  method AddPrepared(sup: WpaSupplicant, ssid: Text, chinese: bool, keyMgmt: KeyMgmt, passwd: Text, ghost from: nat)
    returns (ret: int, id: Text, ghost n: Network)
    requires WellFormed(sup.networks) && from <= |sup.log| && RemovesDone(sup.log, from) && NulFree(passwd)
    modifies sup
    ensures n.id == id
    ensures ret == 0 ==>
      Open(sup.networks, old(sup.networks), n, id, sup.log, from) && PlaceOf(old(sup.networks), id) < 0
    ensures ret == 0 ==> Configured(n, ssid, chinese, keyMgmt, passwd)
    ensures ret == 0 && QueriesDone(sup.log, from) && sup.complete ==> Above(old(sup.networks), n)
    ensures ret == 0 ==> Succeeded(sup.log, from, SelectNetwork(id)) && Succeeded(sup.log, from, EnableNetwork(id))
    ensures ret != 0 ==>
      RolledBack(sup.networks, old(sup.networks), id, sup.log, from) && Blamed(sup.log, from, ret, keyMgmt, passwd)
    ensures old(sup.log) <= sup.log && (sup.complete ==> old(sup.complete))
  {
    ret, id := Add(sup);
    n := Fresh(id);
    RemovesStand(old(sup.log), sup.log, from);
    if ret == 0 {
      ret, n := Prepare(sup, id, ssid, chinese, keyMgmt, passwd, old(sup.networks), from);
    }
  }

  // ----- after the wait

  /** The table once a network is kept: the old network of the same SSID and key
      type, if the lookup found one, is gone, unless its removal was refused. */
  ghost predicate Kept(ns: seq<Network>, base: seq<Network>, n: Network, isExist: int, oldId: Text, log: seq<Sent>,
                       from: nat)
  {
    && (isExist == 1 || isExist == 3 ==> PlaceOf(base, oldId) >= 0)
    && HasNew(ns, if (isExist == 1 || isExist == 3) && RemovesDone(log, from) then Dropped(base, PlaceOf(base, oldId))
                  else base, n)
  }

  method RemoveOld(sup: WpaSupplicant, isExist: int, oldId: Text, ghost base: seq<Network>, ghost n: Network,
                   ghost from: nat)
    requires Open(sup.networks, base, n, n.id, sup.log, from)
    requires isExist == 1 || isExist == 3 ==> PlaceOf(base, oldId) >= 0
    modifies sup
    ensures Kept(sup.networks, base, n, isExist, oldId, sup.log, from)
    ensures old(sup.log) <= sup.log && sup.complete == old(sup.complete)
  {
    if isExist == 1 || isExist == 3 {
      RemovedOld(sup.networks, base, n, PlaceOf(base, oldId));
      var ret := Send(sup, RemoveNetwork(oldId));
      assert ret != 0 ==> !sup.log[|sup.log| - 1].ok;
    }
    var saved := Send(sup, SaveConfig);
  }

  /** DISABLE_NETWORK and REMOVE_NETWORK after the link failed. */
  method GiveUp(sup: WpaSupplicant, id: Text, ghost base: seq<Network>, ghost n: Network, ghost from: nat)
    requires Open(sup.networks, base, n, id, sup.log, from)
    modifies sup
    ensures RolledBack(sup.networks, base, id, sup.log, from)
    ensures old(sup.log) <= sup.log && sup.complete == old(sup.complete)
  {
    var ret := Send(sup, DisableNetwork(id));
    if ret == 0 {
      EnablesKeepProfiles(old(sup.networks), DisableNetwork(id));
    }
    Undo(sup, id, base, n, from);
    ret := Send(sup, SaveConfig);
  }

  /** What a lookup answered: its result is that of the rows shown. */
  ghost predicate LookedUp(ns: seq<Network>, q: Search, ssid: Text, keyMgmt: KeyMgmt, isExist: int, oldId: Text,
                           complete: bool) {
    isExist != -1 ==>
      && q.ssid == ssid && q.keyType == KeyType(keyMgmt) && |q.ns| <= |ns| && q.ns == ns[..|q.ns|]
      && (complete ==> q.ns == ns)
      && isExist == Lookup(q, 0, NOTHING_FOUND).flag && oldId == NetId(q, Lookup(q, 0, NOTHING_FOUND).hit, [])
  }

  /** A lookup that found something found a network of the table. */
  lemma {:induction false} FoundIsListed(q: Search, i: nat, f: Found)
    requires i <= |q.ns|
    ensures Lookup(q, i, f) == f || 0 <= Lookup(q, i, f).hit < |q.ns|
    decreases |q.ns| - i
  {
    if i < |q.ns| {
      var k := i + 1;
      if q.HitAt(i) {
        FoundIsListed(q, k, Found(RowFlag(q.Row(i)), i));
      } else {
        FoundIsListed(q, k, f);
      }
    }
  }

  lemma {:induction false} QueriesAreGets(q: Search, i: nat)
    ensures forall k :: 0 <= k < |Queries(q, i)| ==> Queries(q, i)[k].GetKeyMgmt?
    decreases |q.ns| - i
  {
    if i < |q.ns| {
      QueriesAreGets(q, i + 1);
    }
  }

  method LookUp(sup: WpaSupplicant, ssid: Text, keyMgmt: KeyMgmt) returns (isExist: int, netId: Text, ghost q: Search)
    requires WellFormed(sup.networks) && NulFree(ssid) && Lines.Without(ssid, NEWLINE) && ssid != []
    modifies sup
    ensures sup.networks == old(sup.networks) && old(sup.log) <= sup.log && (sup.complete ==> old(sup.complete))
    ensures LookedUp(sup.networks, q, ssid, keyMgmt, isExist, netId, sup.complete)
    ensures isExist == 1 || isExist == 3 ==> PlaceOf(sup.networks, netId) >= 0
    ensures NoRemoves(sup.log, |old(sup.log)|)
  {
    var course;
    ghost var done;
    isExist, netId, course, q, done := IsApExist(sup, ssid, keyMgmt, []);
    EndsWithoutNewline(q);
    QueriesAreGets(q, 0);
    WalkGrows(old(sup.log), sup.log, Queries(q, 0), done, if isExist == -1 then -1 else 0);
    FoundIsListed(q, 0, NOTHING_FOUND);
    assert isExist == 1 || isExist == 3 ==> sup.networks[Lookup(q, 0, NOTHING_FOUND).hit].id == netId;
  }

  /** The law of the transaction: before the wait any failure is undone; after it
      the last poll decides.  Two of its outcomes leave the new network behind. */
  ghost predicate Transaction(ns: seq<Network>, base: seq<Network>, ret: int, n: Network, polled: Option<Polled>,
                              isExist: int, oldId: Text, log: seq<Sent>, from: nat)
  {
    WellFormed(ns) &&
    match polled
    case None => ret != 0 && RolledBack(ns, base, n.id, log, from)
    case Some(last) =>
      match EndingOf(last)
      case RollsBack =>
        && ret == (if last.state == Connecting then ERR_LIB_NET_EXISTENCE else ERR_LIB_WRONG_PASSWORD)
        && RolledBack(ns, base, n.id, log, from)
      case LeavesBehind => ret == ERR_LIB_NET_EXISTENCE && HasNew(ns, base, n)
      case Keeps => ret == 0 && Kept(ns, base, n, isExist, oldId, log, from)
  }

  /** The network was selected and enabled, and the link requested. */
  ghost predicate Started(log: seq<Sent>, from: nat, id: Text) {
    && Succeeded(log, from, SelectNetwork(id)) && Succeeded(log, from, EnableNetwork(id))
    && Succeeded(log, from, Reconnect)
  }

  /** Enabling networks afterwards does not disturb the outcome. */
  lemma TransactionStands(ns: seq<Network>, ms: seq<Network>, base: seq<Network>, ret: int, n: Network,
                          polled: Option<Polled>, isExist: int, oldId: Text, log: seq<Sent>, log': seq<Sent>, from: nat)
    requires Transaction(ns, base, ret, n, polled, isExist, oldId, log, from) && from <= |log|
    requires WellFormed(ms) && Profiles(ms) == Profiles(ns) && log <= log' && NoRemoves(log', |log|)
    ensures Transaction(ms, base, ret, n, polled, isExist, oldId, log', from)
  {
    RemovesStand(log, log', from);
    if StillThere(ns, base, n.id) {
      var m: Network :| m.id == n.id && HasNew(ns, base, m);
      assert HasNew(ms, base, m);
    }
  }

  class WifiManager {
    const sup: WpaSupplicant
    var machineState: MachineState
    var event: InnerEvent
    var assocRejects: nat
    var netidConnecting: Text
    var disconnecting: bool
    var ssidContainChinese: bool

    constructor (supplicant: WpaSupplicant)
      ensures sup == supplicant && machineState == Disconnected
    {
      sup := supplicant;
      machineState, event, assocRejects := Disconnected, ApDisconnected, 0;
      netidConnecting, disconnecting, ssidContainChinese := [], false, false;
    }

    /** The other threads: link events, the DHCP client, timeouts. */
    method Others()
      modifies `machineState, `event, `assocRejects
    {
      machineState, event := *, *;
      var rejects: int := *;
      assocRejects := if rejects >= 0 then rejects else 0;
    }

    /** Polls until the link is up, the password is known to be wrong, the access
        point has rejected three times, or 225 polls are over. */
    method WaitForLink() returns (polled: Polled, ghost polls: nat, ghost rejected: bool)
      modifies `machineState, `event, `assocRejects
      ensures 1 <= polls <= MAX_POLLS
      ensures polled == Polled(machineState, event) && (rejected ==> assocRejects == 0)
      ensures polls == MAX_POLLS || rejected || polled == Polled(Disconnected, PasswordIncorrect)
        || polled.state == L2Connected || polled.state == Connected
    {
      assocRejects := 0;
      polls, rejected := 0, false;
      polled := Polled(machineState, event);
      var i, waiting := 0, true;
      while waiting
        invariant 0 <= i <= MAX_POLLS && polls <= MAX_POLLS && (waiting ==> polls == i < MAX_POLLS)
        invariant !waiting ==> polls >= 1
        invariant polled == Polled(machineState, event)
        invariant rejected ==> assocRejects == 0 && !waiting
        invariant waiting || polls == MAX_POLLS || rejected || polled == Polled(Disconnected, PasswordIncorrect)
          || polled.state == L2Connected || polled.state == Connected
        decreases waiting, MAX_POLLS - i
      {
        Others();
        polled, polls := Polled(machineState, event), polls + 1;
        if machineState == Disconnected && event == PasswordIncorrect {
          waiting := false;
        } else if assocRejects >= MAX_ASSOC_REJECT_COUNT {
          assocRejects, rejected, waiting := 0, true, false;
        } else {
          i := i + 1;
          waiting := polled.state != L2Connected && polled.state != Connected && i < MAX_POLLS;
        }
      }
    }

    /** Decides by the last poll what becomes of the new network. */
    method Conclude(polled: Polled, isExist: int, oldId: Text, id: Text, ghost base: seq<Network>, ghost n: Network,
                    ghost from: nat)
      returns (ret: int)
      requires Open(sup.networks, base, n, id, sup.log, from)
      requires isExist == 1 || isExist == 3 ==> PlaceOf(base, oldId) >= 0
      modifies sup, `machineState, `event
      ensures EndingOf(polled) == RollsBack ==> RolledBack(sup.networks, base, id, sup.log, from)
      ensures EndingOf(polled) == RollsBack ==>
        ret == if polled.state == Connecting then ERR_LIB_NET_EXISTENCE else ERR_LIB_WRONG_PASSWORD
      ensures polled.state == Connecting ==> machineState == Disconnected && event == ConnectApTimeout
      ensures polled.state == Connecting ==>
        |old(sup.log)| < |sup.log| && sup.log[|old(sup.log)|].command == Command.Disconnect
      ensures EndingOf(polled) == LeavesBehind ==> HasNew(sup.networks, base, n) && ret == ERR_LIB_NET_EXISTENCE
      ensures EndingOf(polled) == Keeps ==> Kept(sup.networks, base, n, isExist, oldId, sup.log, from) && ret == 0
      ensures old(sup.log) <= sup.log && sup.complete == old(sup.complete)
    {
      if polled.state == Connecting {
        var r := Send(sup, Command.Disconnect);
        machineState, event := Disconnected, ConnectApTimeout;
        GiveUp(sup, id, base, n, from);
        ret := ERR_LIB_NET_EXISTENCE;
      } else if polled.state == Disconnected {
        if polled.event == PasswordIncorrect {
          GiveUp(sup, id, base, n, from);
          ret := ERR_LIB_WRONG_PASSWORD;
        } else if polled.event == ObtainingIpTimeout {
          RemoveOld(sup, isExist, oldId, base, n, from);
          ret := 0;
        } else {
          ret := ERR_LIB_NET_EXISTENCE;
        }
      } else if polled.state == L2Connected || polled.state == Connected {
        RemoveOld(sup, isExist, oldId, base, n, from);
        ret := 0;
      } else {
        ret := ERR_LIB_NET_EXISTENCE;
      }
    }

    /** RECONNECT, the wait, and what follows from it. */
    method TryLink(isExist: int, oldId: Text, id: Text, ghost base: seq<Network>, ghost n: Network, ghost from: nat)
      returns (ret: int, ghost polled: Option<Polled>)
      requires Open(sup.networks, base, n, id, sup.log, from)
      requires isExist == 1 || isExist == 3 ==> PlaceOf(base, oldId) >= 0
      modifies sup, `machineState, `event, `assocRejects
      ensures Transaction(sup.networks, base, ret, n, polled, isExist, oldId, sup.log, from)
      ensures if polled.Some? then Succeeded(sup.log, from, Reconnect) else Refused(sup.log, from, ret)
      ensures old(sup.log) <= sup.log && sup.complete == old(sup.complete)
    {
      polled := None;
      ret := SendOrUndo(sup, Reconnect, ERR_LIB_RECONNECT_NETWORK, id, base, n, from);
      ghost var log1 := sup.log;
      if ret == 0 {
        var last;
        ghost var polls, rejected;
        last, polls, rejected := WaitForLink();
        polled := Some(last);
        ret := Conclude(last, isExist, oldId, id, base, n, from);
        GrownLog(log1, sup.log, from);
      }
    }

    /** The attempt up to the common exit. */
    method Attempt(ssid: Text, keyMgmt: KeyMgmt, passwd: Text)
      returns (ret: int, ghost n: Network, ghost polled: Option<Polled>, ghost q: Search, ghost isExist: int,
        ghost oldId: Text)
      requires WellFormed(sup.networks) && NulFree(ssid) && Lines.Without(ssid, NEWLINE) && ssid != []
      requires NulFree(passwd)
      modifies this, sup
      ensures Transaction(sup.networks, old(sup.networks), ret, n, polled, isExist, oldId, sup.log, |old(sup.log)|)
      ensures polled.Some? ==> n.id == netidConnecting && PlaceOf(old(sup.networks), n.id) < 0
      ensures polled.Some? ==> Configured(n, ssid, ssidContainChinese, keyMgmt, passwd)
      ensures polled.Some? && QueriesDone(sup.log, |old(sup.log)|) && sup.complete ==> Above(old(sup.networks), n)
      ensures polled.None? ==> Blamed(sup.log, |old(sup.log)|, ret, keyMgmt, passwd)
      ensures polled.Some? ==> Started(sup.log, |old(sup.log)|, n.id)
      ensures LookedUp(old(sup.networks), q, ssid, keyMgmt, isExist, oldId, sup.complete)
      ensures old(sup.log) <= sup.log && (sup.complete ==> old(sup.complete))
      ensures ssidContainChinese == old(ssidContainChinese)
    {
      ghost var base, from := sup.networks, |sup.log|;
      machineState, disconnecting := Connecting, false;
      polled, n := None, Fresh([]);
      var found, netid1, netid2;
      found, netid1, q := LookUp(sup, ssid, keyMgmt);
      isExist, oldId := found, netid1;
      RemovesStand(old(sup.log), sup.log, from);
      ret, netid2, n := AddPrepared(sup, ssid, ssidContainChinese, keyMgmt, passwd, from);
      if ret != 0 {
        return;
      }
      netidConnecting := netid2;
      ghost var log1 := sup.log;
      ret, polled := TryLink(found, netid1, netid2, base, n, from);
      GrownLog(log1, sup.log, from);
    }

    /** The common exit: every network is enabled again. */
    method EnableAgain()
      requires WellFormed(sup.networks)
      modifies sup
      ensures WellFormed(sup.networks) && Profiles(sup.networks) == Profiles(old(sup.networks))
      ensures |old(sup.log)| < |sup.log| && sup.log[|old(sup.log)|].command == ListNetworks
      ensures NoRemoves(sup.log, |old(sup.log)|)
      ensures EnablesDone(sup.log, |old(sup.log)|) && sup.complete ==>
        forall i :: 0 <= i < |sup.networks| ==> sup.networks[i].enabled
      ensures old(sup.log) <= sup.log && (sup.complete ==> old(sup.complete))
    {
      ghost var ns, log1 := sup.networks, sup.log;
      var enabled;
      ghost var shown, done;
      enabled, shown, done := EnableAll(sup);
      ghost var cs := ForEach(id => EnableNetwork(id), ns[..shown]);
      WalkGrows(log1, sup.log, cs, done, enabled);
      EnabledFirstMeans(ns, done);
      if enabled != 0 {
        EnableWalkRefused(log1, sup.log, cs, done);
      }
    }

    /** One attempt: whatever happens, all networks are enabled again at the end
        and a failure leaves the manager disconnected. */
    method ConnectApInner(ssid: Text, keyMgmt: KeyMgmt, passwd: Text)
      returns (ret: int, ghost n: Network, ghost polled: Option<Polled>, ghost q: Search, ghost isExist: int,
        ghost oldId: Text)
      requires WellFormed(sup.networks) && NulFree(ssid) && Lines.Without(ssid, NEWLINE) && ssid != []
      requires NulFree(passwd)
      modifies this, sup
      ensures Transaction(sup.networks, old(sup.networks), ret, n, polled, isExist, oldId, sup.log, |old(sup.log)|)
      ensures ret != 0 ==> machineState == Disconnected
      ensures EnablesDone(sup.log, |old(sup.log)|) && sup.complete ==>
        forall i :: 0 <= i < |sup.networks| ==> sup.networks[i].enabled
      ensures polled.Some? ==> n.id == netidConnecting && PlaceOf(old(sup.networks), n.id) < 0
      ensures polled.Some? ==> Configured(n, ssid, ssidContainChinese, keyMgmt, passwd)
      ensures polled.Some? && QueriesDone(sup.log, |old(sup.log)|) && sup.complete ==> Above(old(sup.networks), n)
      ensures polled.None? ==> Blamed(sup.log, |old(sup.log)|, ret, keyMgmt, passwd)
      ensures polled.Some? ==> Started(sup.log, |old(sup.log)|, n.id)
      ensures LookedUp(old(sup.networks), q, ssid, keyMgmt, isExist, oldId, sup.complete)
      ensures old(sup.log) <= sup.log && (sup.complete ==> old(sup.complete))
      ensures ssidContainChinese == old(ssidContainChinese)
    {
      ret, n, polled, q, isExist, oldId := Attempt(ssid, keyMgmt, passwd);
      ghost var ns, log1 := sup.networks, sup.log;
      EnableAgain();
      GrownLog(log1, sup.log, |old(sup.log)|);
      TransactionStands(ns, sup.networks, old(sup.networks), ret, n, polled, isExist, oldId, log1, sup.log,
        |old(sup.log)|);
      if ret != 0 {
        machineState := Disconnected;
      }
    }
  }
}
