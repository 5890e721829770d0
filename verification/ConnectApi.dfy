/** aw_wifi_connect_ap and aw_wifi_connect_ap_key_mgmt: from an SSID as the
    application spells it to one or two connect attempts (wifimanager.c). */
module ConnectApi {
  import opened Bytes
  import opened PrintfCodec
  import opened SsidCodec
  import Lines
  import opened Supplicant
  import opened NetworkTable
  import opened NetworkLookup
  import opened NetworkMatching
  import opened Connect
  import opened ConnectLaws
  import ScanTable

  const WPA_SSID_LENGTH := 512

  const ERR_LIB_DEVICE_DISABLE := -18
  const ERR_LIB_INVALID_SSID := -19
  const ERR_LIB_DEVICE_BUSY := -21

  lemma FormsFit(ssid: Text)
    requires |ssid| <= SSID_MAX_LEN
    ensures |ScanForm(ssid)| < WPA_SSID_LENGTH && |ConfForm(ssid)| == 2 * |ssid| < WPA_SSID_LENGTH
  {
    ScanFormAgainstEncode(ssid);
    EncodeLength(ssid);
    HexRoundTrip(ssid);
  }

  /** The spellings of the SSID that the scan table and the supplicant use. */
  method Convert(m: WifiManager, appSsid: Text) returns (ret: int, ssid: Text, scan: Text)
    requires NulFree(appSsid) && |appSsid| <= SSID_MAX_LEN
    modifies m`ssidContainChinese
    ensures ret < 0 <==> appSsid == []
    ensures ret >= 0 ==>
      ssid == LookupForm(appSsid) && scan == ScanForm(appSsid) && m.ssidContainChinese == !IsAscii(appSsid)
  {
    FormsFit(appSsid);
    var scanSsid, confSsid := new byte[WPA_SSID_LENGTH], new byte[WPA_SSID_LENGTH];
    ret := SsidAppToWpaScan(appSsid, scanSsid);
    ssid, scan := appSsid, [];
    if ret < 0 {
      return;
    }
    scan := scanSsid[..|ScanForm(appSsid)|];
    m.ssidContainChinese := ret > 0;
    if m.ssidContainChinese {
      var converted := SsidAppToWpaConf(appSsid, confSsid);
      ssid := confSsid[..2 * |appSsid|];
    }
  }

  // ----- what the scan table offers

  /** The key types found for the SSID, as the table spells it, in these rows. */
  ghost predicate Seen(rows: seq<ScanTable.ScanRow>, scan: Text, open: bool, wpa: bool, wep: bool) {
    && ScanTable.CleanRows(rows)
    && (open <==> ScanTable.Announced(rows, |rows|, scan, ScanTable.KEY_NONE_INDEX))
    && (wpa <==> ScanTable.Announced(rows, |rows|, scan, ScanTable.KEY_WPA_PSK_INDEX))
    && (wep <==> ScanTable.Announced(rows, |rows|, scan, ScanTable.KEY_WEP_INDEX))
  }

  /** get_key_mgmt on the scan table, whatever the scan thread has left there. */
  method ScanKeys(scan: Text) returns (open: bool, wpa: bool, wep: bool, ghost rows: seq<ScanTable.ScanRow>)
    ensures Seen(rows, scan, open, wpa, wep)
  {
    var found: seq<ScanTable.ScanRow> := *;
    if !ScanTable.CleanRows(found) {
      found := [];
    }
    rows := found;
    var text := ScanTable.Table(found);
    ScanTable.LinesAreClean(found);
    var scanResults := new byte[|text| + 1](i => if 0 <= i < |text| then text[i] else NUL);
    assert scanResults[..|text|] == text;
    var keys := new int[4];
    ScanTable.GetKeyMgmt(scanResults, |text|, rows, scan, keys);
    open := keys[ScanTable.KEY_NONE_INDEX] == 1;
    wpa := keys[ScanTable.KEY_WPA_PSK_INDEX] == 1;
    wep := keys[ScanTable.KEY_WEP_INDEX] == 1;
  }

  function KeyIndexOf(keyMgmt: KeyMgmt): int {
    match keyMgmt
    case NoKey => ScanTable.KEY_NONE_INDEX
    case WpaPsk => ScanTable.KEY_WPA_PSK_INDEX
    case Wpa2Psk => ScanTable.KEY_WPA_PSK_INDEX
    case Wep => ScanTable.KEY_WEP_INDEX
    case OtherKeyMgmt => -1
  }

  /** Some row announces the SSID's scan form with this kind of key. */
  ghost predicate Offered(rows: seq<ScanTable.ScanRow>, appSsid: Text, keyMgmt: KeyMgmt) {
    keyMgmt != OtherKeyMgmt && ScanTable.Announced(rows, |rows|, ScanForm(appSsid), KeyIndexOf(keyMgmt))
  }

  /** An SSID whose scan form some row announces holds no newline. */
  lemma SeenWithoutNewline(rows: seq<ScanTable.ScanRow>, appSsid: Text, k: int)
    requires ScanTable.Announced(rows, |rows|, ScanForm(appSsid), k)
    ensures Lines.Without(appSsid, NEWLINE)
  {
    var i :| 0 <= i < |rows| && ScanTable.Announces(rows[i], ScanForm(appSsid), k);
    EncodeIsPrintable(rows[i].ssid);
    ScanFormKeeps(appSsid, NEWLINE);
  }

  lemma {:induction false} ScanFormKeeps(s: Text, c: byte)
    requires c <= 127 && Lines.Without(ScanForm(s), c)
    ensures Lines.Without(s, c)
  {
    if s != [] {
      var b, rest := ScanByte(s[0]), ScanForm(s[1..]);
      assert ScanForm(s) == b + rest;
      forall i | 0 <= i < |rest| ensures rest[i] != c {
        assert (b + rest)[|b| + i] == rest[i];
      }
      assert (b + rest)[0] == b[0];
      ScanFormKeeps(s[1..], c);
      assert forall i :: 0 < i < |s| ==> s[i] == s[1..][i - 1];
    }
  }

  /** For an agreeable SSID the rows that offer it are those of exactly that SSID. */
  lemma OfferedMeans(rows: seq<ScanTable.ScanRow>, appSsid: Text, keyMgmt: KeyMgmt)
    requires AllAgreeable(appSsid) && keyMgmt != OtherKeyMgmt
    ensures Offered(rows, appSsid, keyMgmt) <==>
      exists i :: 0 <= i < |rows| && rows[i].ssid == appSsid && ScanTable.KeyIndex(rows[i].flags) == KeyIndexOf(keyMgmt)
  {
    var k := KeyIndexOf(keyMgmt);
    forall i | 0 <= i < |rows|
      ensures ScanTable.Announces(rows[i], ScanForm(appSsid), k) <==>
        rows[i].ssid == appSsid && ScanTable.KeyIndex(rows[i].flags) == k
    {
      ScanFormIdentifies(appSsid);
      assert ScanForm(appSsid) == Encode(rows[i].ssid) <==> appSsid == rows[i].ssid;
    }
    if i: nat :| i < |rows| && rows[i].ssid == appSsid && ScanTable.KeyIndex(rows[i].flags) == k {
      assert ScanTable.Announces(rows[i], ScanForm(appSsid), k);
    }
  }

  // ----- one attempt

  /** What one attempt did, in terms of the SSID the application asked for. */
  ghost predicate AttemptFor(base: seq<Network>, ns: seq<Network>, appSsid: Text, keyMgmt: KeyMgmt, ret: int,
                             n: Network, polled: Option<Polled>, q: Search, isExist: int, oldId: Text,
                             log: seq<Sent>, from: nat, complete: bool)
  {
    && Transaction(ns, base, ret, n, polled, isExist, oldId, log, from)
    && LookedUp(base, q, LookupForm(appSsid), keyMgmt, isExist, oldId, complete)
    && (polled.Some? ==> PlaceOf(base, n.id) < 0 && n.ssid == appSsid && Stripped(n.keyMgmt) == KeyType(keyMgmt))
    && (polled.Some? && QueriesDone(log, from) && complete ==> Above(base, n))
  }

  method ConnectFor(m: WifiManager, ghost appSsid: Text, ssid: Text, keyMgmt: KeyMgmt, passwd: Text)
    returns (ret: int, ghost n: Network, ghost polled: Option<Polled>, ghost q: Search, ghost isExist: int,
        ghost oldId: Text)
    requires WellFormed(m.sup.networks) && NulFree(passwd) && appSsid != [] && NulFree(appSsid)
    requires Lines.Without(appSsid, NEWLINE) && ssid == LookupForm(appSsid) && m.ssidContainChinese == !IsAscii(appSsid)
    modifies m, m.sup
    ensures AttemptFor(old(m.sup.networks), m.sup.networks, appSsid, keyMgmt, ret, n, polled, q, isExist, oldId,
                       m.sup.log, |old(m.sup.log)|, m.sup.complete)
    ensures ret != 0 ==> m.machineState == Disconnected
    ensures old(m.sup.log) <= m.sup.log && m.ssidContainChinese == old(m.ssidContainChinese)
  {
    FormIsClean(appSsid);
    ret, n, polled, q, isExist, oldId := m.ConnectApInner(ssid, keyMgmt, passwd);
    SetNetworkRoundTrip(appSsid);
    assert Stripped(KeyType(keyMgmt)) == KeyType(keyMgmt);
  }

  lemma FormIsClean(appSsid: Text)
    requires appSsid != [] && NulFree(appSsid) && Lines.Without(appSsid, NEWLINE)
    ensures LookupForm(appSsid) != [] && NulFree(LookupForm(appSsid)) && Lines.Without(LookupForm(appSsid), NEWLINE)
    ensures SsidValue(LookupForm(appSsid), !IsAscii(appSsid)) == SetNetworkValue(appSsid)
  {
    if !IsAscii(appSsid) {
      HexRoundTrip(appSsid);
      var t := ConfForm(appSsid);
      forall i | 0 <= i < |t| ensures t[i] != NEWLINE {
        assert Hex2Num(t[i]) >= 0;
      }
    }
  }

  method ConnectApKeyMgmt(m: WifiManager, disabled: bool, appSsid: Text, keyMgmt: KeyMgmt, passwd: Text)
    returns (ret: int, ghost n: Network, ghost tried: bool, ghost polled: Option<Polled>, ghost q: Search,
             ghost isExist: int, ghost oldId: Text, ghost rows: seq<ScanTable.ScanRow>)
    requires WellFormed(m.sup.networks) && NulFree(passwd) && NulFree(appSsid) && |appSsid| <= SSID_MAX_LEN
    modifies m, m.sup
    ensures tried ==> AttemptFor(old(m.sup.networks), m.sup.networks, appSsid, keyMgmt, ret, n, polled, q, isExist,
                                 oldId, m.sup.log, |old(m.sup.log)|, m.sup.complete)
    ensures !tried ==> ret == -1 && unchanged(m.sup) && m.machineState == old(m.machineState)
    ensures tried <==>
      && !disabled && appSsid != [] && (old(m.machineState) == Connected || old(m.machineState) == Disconnected)
      && Offered(rows, appSsid, keyMgmt)
    ensures tried && ret != 0 ==> m.machineState == Disconnected
  {
    ret, n, tried, polled, isExist, oldId := -1, Fresh([]), false, None, -1, [];
    q, rows := Search([], [], [], []), [];
    if disabled || appSsid == [] {
      return;
    }
    if m.machineState != Connected && m.machineState != Disconnected {
      return;
    }
    var ssid, scan, open, wpa, wep;
    ret, ssid, scan := Convert(m, appSsid);
    open, wpa, wep, rows := ScanKeys(scan);
    if (keyMgmt == NoKey && !open) || ((keyMgmt == WpaPsk || keyMgmt == Wpa2Psk) && !wpa) || (keyMgmt == Wep && !wep) {
      open, wpa, wep, rows := ScanKeys(scan);
    }
    if (keyMgmt == NoKey && !open) || ((keyMgmt == WpaPsk || keyMgmt == Wpa2Psk) && !wpa) || (keyMgmt == Wep && !wep)
      || keyMgmt == OtherKeyMgmt
    {
      ret := -1;
      return;
    }
    tried := true;
    SeenWithoutNewline(rows, appSsid, KeyIndexOf(keyMgmt));
    ret, n, polled, q, isExist, oldId := ConnectFor(m, appSsid, ssid, keyMgmt, passwd);
  }

  // ----- what a successful attempt leaves

  /** The network connected to has a priority above that of every other saved one. */
  ghost predicate TopPriority(ns: seq<Network>, n: Network) {
    && ns != [] && ns[|ns| - 1].id == n.id && ns[|ns| - 1].priority == n.priority
    && forall i :: 0 <= i < |ns| - 1 ==> ns[i].priority < n.priority
  }

  lemma AboveIsTop(ns: seq<Network>, rest: seq<Network>, n: Network)
    requires HasNew(ns, rest, n) && Above(rest, n)
    ensures TopPriority(ns, n)
  {
    NewIsLast(ns, rest, n);
    forall i | 0 <= i < |rest| ensures ns[i].priority < n.priority {
      assert Profile(ns[i]) == Profile(rest[i]);
    }
  }

  lemma AboveDropped(base: seq<Network>, k: nat, n: Network)
    requires k < |base| && Above(base, n)
    ensures Above(Dropped(base, k), n)
  {
  }

  /** When no removal and no query is refused and the listings are whole, a
      successful attempt leaves the network above every other; and one network per
      SSID and key type, exactly when a network saved before under the SSID asked
      for was the first match of the lookup. */
  lemma SuccessMeans(base: seq<Network>, ns: seq<Network>, appSsid: Text, keyMgmt: KeyMgmt, n: Network,
                     polled: Option<Polled>, q: Search, isExist: int, oldId: Text, log: seq<Sent>, from: nat)
    requires AttemptFor(base, ns, appSsid, keyMgmt, 0, n, polled, q, isExist, oldId, log, from, true)
    requires RemovesDone(log, from) && QueriesDone(log, from) && isExist != -1
    requires WellFormed(base) && AtMostOne(base)
    ensures TopPriority(ns, n) && n.ssid == appSsid
    ensures AtMostOne(ns) <==> forall k :: 0 <= k < |base| && SameNet(base[k], n) ==> FirstMatch(q, 0, k)
  {
    KeepsAtMostOne(base, ns, n, q, LookupForm(appSsid), keyMgmt, isExist, oldId, log, from);
    if isExist == 1 || isExist == 3 {
      var k := PlaceOf(base, oldId);
      AboveDropped(base, k, n);
      AboveIsTop(ns, Dropped(base, k), n);
    } else {
      AboveIsTop(ns, base, n);
    }
  }

  // ----- one call, up to two attempts

  /** One attempt of a call and the part of the log it wrote. */
  datatype Tried = Tried(keyMgmt: KeyMgmt, ret: int, polled: Option<Polled>, from: nat, to: nat)

  ghost predicate WithinLog(t: Tried, log: seq<Sent>) {
    t.from <= t.to <= |log|
  }

  /** No removal of this attempt was refused. */
  ghost predicate RemovedAll(t: Tried, log: seq<Sent>)
    requires WithinLog(t, log)
  {
    RemovesDone(log[..t.to], t.from)
  }

  /** A failed attempt leaves its network in the table: by one of the two exits that
      remove nothing, or because the removal was refused. */
  ghost predicate LeavesOne(t: Tried, log: seq<Sent>)
    requires WithinLog(t, log)
  {
    t.ret != 0 && ((t.polled.Some? && EndingOf(t.polled.value) == LeavesBehind) || !RemovedAll(t, log))
  }

  ghost function LeftCount(tries: seq<Tried>, log: seq<Sent>): nat
    requires forall i :: 0 <= i < |tries| ==> WithinLog(tries[i], log)
  {
    if tries == [] then 0
    else LeftCount(tries[..|tries| - 1], log) + if LeavesOne(tries[|tries| - 1], log) then 1 else 0
  }

  /** The attempts follow each other in the log. */
  ghost predicate InOrder(tries: seq<Tried>, from: nat, log: seq<Sent>) {
    && (forall i :: 0 <= i < |tries| ==> WithinLog(tries[i], log))
    && (if tries == [] then from == |log| else tries[0].from == from && tries[|tries| - 1].to == |log|)
    && (forall i :: 0 < i < |tries| ==> tries[i].from == tries[i - 1].to)
  }

  ghost predicate ReplacedOne(ns: seq<Network>, base: seq<Network>, n: Network) {
    exists k :: 0 <= k < |base| && HasNew(ns, Dropped(base, k), n)
  }

  /** The table after a call: on failure what was there and what failed attempts
      left; on success also the new network, added or in the place of another one,
      added if the last removal was refused. */
  ghost predicate Settled(ns: seq<Network>, base: seq<Network>, appSsid: Text, ret: int, n: Network,
                          left: seq<Network>, removed: bool)
  {
    WellFormed(ns) &&
    if ret != 0 then Profiles(ns) == Profiles(base + left)
    else n.ssid == appSsid && (HasNew(ns, base + left, n) || (removed && ReplacedOne(ns, base + left, n)))
  }

  lemma ProfilesOfAll(a: seq<Network>, b: seq<Network>)
    ensures Profiles(a + b) == Profiles(a) + Profiles(b)
  {
  }

  lemma NewIsLeft(ns: seq<Network>, base: seq<Network>, m: Network)
    requires HasNew(ns, base, m)
    ensures Profiles(ns) == Profiles(base + [m])
  {
    ProfilesAppended(base, m);
  }

  /** What one attempt leaves behind. */
  lemma SettledByAttempt(base: seq<Network>, ns: seq<Network>, appSsid: Text, n: Network, t: Tried, q: Search,
                         isExist: int, oldId: Text, log: seq<Sent>, complete: bool) returns (left: seq<Network>)
    requires WithinLog(t, log) && t.to == |log|
    requires AttemptFor(base, ns, appSsid, t.keyMgmt, t.ret, n, t.polled, q, isExist, oldId, log, t.from, complete)
    ensures Settled(ns, base, appSsid, t.ret, n, left, RemovedAll(t, log))
    ensures |left| == if LeavesOne(t, log) then 1 else 0
  {
    left := [];
    assert log[..t.to] == log && base + left == base;
    if t.ret == 0 {
      if RemovesDone(log, t.from) && (isExist == 1 || isExist == 3) {
        assert HasNew(ns, Dropped(base, PlaceOf(base, oldId)), n);
      }
    } else if LeavesOne(t, log) {
      var m: Network :| HasNew(ns, base, m);
      left := [m];
      NewIsLeft(ns, base, m);
    }
  }

  /** A second attempt starts from what the first left. */
  lemma SettledTwice(base: seq<Network>, mid: seq<Network>, ns: seq<Network>, appSsid: Text, ret1: int, ret: int,
                     n1: Network, n: Network, left1: seq<Network>, left2: seq<Network>, removed1: bool, removed: bool)
    requires ret1 != 0 && Settled(mid, base, appSsid, ret1, n1, left1, removed1)
    requires Settled(ns, mid, appSsid, ret, n, left2, removed)
    ensures Settled(ns, base, appSsid, ret, n, left1 + left2, removed)
  {
    var was, now := mid + left2, base + (left1 + left2);
    ProfilesOfAll(mid, left2);
    ProfilesOfAll(base + left1, left2);
    assert now == base + left1 + left2;
    assert |Profiles(was)| == |was| && |Profiles(now)| == |now|;
    if ret == 0 && !HasNew(ns, was, n) {
      var k :| 0 <= k < |was| && HasNew(ns, Dropped(was, k), n);
      DroppedProfiles(was, k);
      DroppedProfiles(now, k);
      assert HasNew(ns, Dropped(now, k), n);
    }
  }

  lemma LeftOfTwo(t1: Tried, t2: Tried, log1: seq<Sent>, log: seq<Sent>)
    requires WithinLog(t1, log1) && log1 <= log && WithinLog(t2, log)
    ensures LeftCount([t1, t2], log) == LeftCount([t1], log1) + LeftCount([t2], log)
  {
    assert log[..t1.to] == log1[..t1.to];
    assert [t1, t2][..1] == [t1] && [t1][..0] == [] && [t2][..0] == [];
    assert LeftCount([t1], log) == LeftCount([t1], log1);
  }

  /** Converts the SSID and looks for its key types, once more after a new scan if
      none of use is found. */
  method LookAround(m: WifiManager, appSsid: Text, passwd: Text)
    returns (ssid: Text, open: bool, wpa: bool, wep: bool, ghost rows: seq<ScanTable.ScanRow>)
    requires NulFree(appSsid) && appSsid != [] && |appSsid| <= SSID_MAX_LEN
    modifies m`ssidContainChinese
    ensures ssid == LookupForm(appSsid) && m.ssidContainChinese == !IsAscii(appSsid)
    ensures (open <==> Offered(rows, appSsid, NoKey)) && (wpa <==> Offered(rows, appSsid, WpaPsk))
    ensures (wep <==> Offered(rows, appSsid, Wep)) && ScanTable.CleanRows(rows)
    ensures open || wpa || wep ==> Lines.Without(appSsid, NEWLINE)
  {
    var ret, scan;
    ret, ssid, scan := Convert(m, appSsid);
    open, wpa, wep, rows := ScanKeys(scan);
    if (passwd == [] && !open) || (passwd != [] && !wpa && !wep) {
      open, wpa, wep, rows := ScanKeys(scan);
    }
    if open || wpa || wep {
      SeenWithoutNewline(rows, appSsid, KeyIndexOf(if open then NoKey else if wpa then WpaPsk else Wep));
    }
  }

  method ConnectAp(m: WifiManager, disabled: bool, appSsid: Text, passwd: Text)
    returns (ret: int, ghost n: Network, ghost tries: seq<Tried>, ghost left: seq<Network>,
             ghost rows: seq<ScanTable.ScanRow>)
    requires WellFormed(m.sup.networks) && NulFree(passwd) && NulFree(appSsid) && |appSsid| <= SSID_MAX_LEN
    modifies m, m.sup
    ensures InOrder(tries, |old(m.sup.log)|, m.sup.log) && |left| == LeftCount(tries, m.sup.log)
    ensures Settled(m.sup.networks, old(m.sup.networks), appSsid, ret, n, left,
                    tries != [] && RemovedAll(tries[|tries| - 1], m.sup.log))
    ensures tries == [] ==> ret < 0 && unchanged(m.sup) && m.machineState == old(m.machineState)
    ensures tries != [] ==> tries[|tries| - 1].ret == ret && (ret != 0 ==> m.machineState == Disconnected)
    ensures ret == 0 ==> Stripped(n.keyMgmt) == KeyType(tries[|tries| - 1].keyMgmt)
    ensures KeysTried(tries, passwd, appSsid, rows)
    ensures disabled ==> ret == ERR_LIB_DEVICE_DISABLE && tries == []
    ensures !disabled && appSsid == [] ==> ret == ERR_LIB_INVALID_SSID && tries == []
    ensures !disabled && appSsid != [] && old(m.machineState) != Connected && old(m.machineState) != Disconnected ==>
      ret == ERR_LIB_DEVICE_BUSY && tries == []
    ensures !disabled && appSsid != [] && (old(m.machineState) == Connected || old(m.machineState) == Disconnected) ==>
      ScanTable.CleanRows(rows) && (tries == [] ==> ret == ERR_LIB_NET_EXISTENCE)
  {
    n, tries, left, rows := Fresh([]), [], [], [];
    assert old(m.sup.networks) + [] == old(m.sup.networks);
    if disabled {
      return ERR_LIB_DEVICE_DISABLE, n, tries, left, rows;
    }
    if appSsid == [] {
      return ERR_LIB_INVALID_SSID, n, tries, left, rows;
    }
    if m.machineState != Connected && m.machineState != Disconnected {
      return ERR_LIB_DEVICE_BUSY, n, tries, left, rows;
    }
    var ssid, open, wpa, wep;
    ssid, open, wpa, wep, rows := LookAround(m, appSsid, passwd);
    if (passwd == [] && !open) || (passwd != [] && !wpa && !wep) {
      return ERR_LIB_NET_EXISTENCE, n, tries, left, rows;
    }
    ret, n, tries, left := TryOffered(m, appSsid, ssid, wpa, wep, passwd, rows);
  }

  /** The attempts, once a kind of key of use is offered. */
  method TryOffered(m: WifiManager, ghost appSsid: Text, ssid: Text, wpa: bool, wep: bool, passwd: Text,
                    ghost rows: seq<ScanTable.ScanRow>)
    returns (ret: int, ghost n: Network, ghost tries: seq<Tried>, ghost left: seq<Network>)
    requires WellFormed(m.sup.networks) && NulFree(passwd) && appSsid != [] && NulFree(appSsid)
    requires Lines.Without(appSsid, NEWLINE) && ssid == LookupForm(appSsid) && m.ssidContainChinese == !IsAscii(appSsid)
    requires (wpa <==> Offered(rows, appSsid, WpaPsk)) && (wep <==> Offered(rows, appSsid, Wep))
    requires if passwd == [] then Offered(rows, appSsid, NoKey) else wpa || wep
    modifies m, m.sup
    ensures tries != [] && tries[|tries| - 1].ret == ret && KeysTried(tries, passwd, appSsid, rows)
    ensures InOrder(tries, |old(m.sup.log)|, m.sup.log) && |left| == LeftCount(tries, m.sup.log)
    ensures Settled(m.sup.networks, old(m.sup.networks), appSsid, ret, n, left,
                    RemovedAll(tries[|tries| - 1], m.sup.log))
    ensures ret == 0 ==> Stripped(n.keyMgmt) == KeyType(tries[|tries| - 1].keyMgmt)
    ensures ret != 0 ==> m.machineState == Disconnected
  {
    if passwd != [] && wpa {
      ret, n, tries, left := TryBoth(m, appSsid, ssid, wep, passwd);
    } else {
      ret, n, tries, left := Try(m, appSsid, ssid, if passwd == [] then NoKey else Wep, passwd);
    }
  }

  /** Without a password the open network, if a row offers it; with one WPA-PSK if
      offered, and WEP if offered where WPA-PSK is not or failed. */
  ghost predicate KeysTried(tries: seq<Tried>, passwd: Text, appSsid: Text, rows: seq<ScanTable.ScanRow>) {
    var wpa, wep := Offered(rows, appSsid, WpaPsk), Offered(rows, appSsid, Wep);
    if passwd == [] then
      if Offered(rows, appSsid, NoKey) then |tries| == 1 && tries[0].keyMgmt == NoKey else tries == []
    else if wpa then
      && 1 <= |tries| <= 2 && tries[0].keyMgmt == WpaPsk && (|tries| == 2 <==> tries[0].ret != 0 && wep)
      && (|tries| == 2 ==> tries[1].keyMgmt == Wep)
    else if wep then |tries| == 1 && tries[0].keyMgmt == Wep
    else tries == []
  }

  method Try(m: WifiManager, ghost appSsid: Text, ssid: Text, keyMgmt: KeyMgmt, passwd: Text)
    returns (ret: int, ghost n: Network, ghost tries: seq<Tried>, ghost left: seq<Network>)
    requires WellFormed(m.sup.networks) && NulFree(passwd) && appSsid != [] && NulFree(appSsid)
    requires Lines.Without(appSsid, NEWLINE) && ssid == LookupForm(appSsid) && m.ssidContainChinese == !IsAscii(appSsid)
    modifies m, m.sup
    ensures |tries| == 1 && tries[0].keyMgmt == keyMgmt && tries[0].ret == ret
    ensures InOrder(tries, |old(m.sup.log)|, m.sup.log) && |left| == LeftCount(tries, m.sup.log)
    ensures Settled(m.sup.networks, old(m.sup.networks), appSsid, ret, n, left, RemovedAll(tries[0], m.sup.log))
    ensures ret == 0 ==> Stripped(n.keyMgmt) == KeyType(keyMgmt)
    ensures ret != 0 ==> m.machineState == Disconnected
    ensures old(m.sup.log) <= m.sup.log && m.ssidContainChinese == old(m.ssidContainChinese)
  {
    ghost var polled, q, isExist, oldId;
    ret, n, polled, q, isExist, oldId := ConnectFor(m, appSsid, ssid, keyMgmt, passwd);
    ghost var t := Tried(keyMgmt, ret, polled, |old(m.sup.log)|, |m.sup.log|);
    tries := [t];
    assert tries[..0] == [];
    left := SettledByAttempt(old(m.sup.networks), m.sup.networks, appSsid, n, t, q, isExist, oldId, m.sup.log,
                             m.sup.complete);
  }

  /** WPA-PSK first; WEP, where the access point offers it, after a failure. */
  method TryBoth(m: WifiManager, ghost appSsid: Text, ssid: Text, wep: bool, passwd: Text)
    returns (ret: int, ghost n: Network, ghost tries: seq<Tried>, ghost left: seq<Network>)
    requires WellFormed(m.sup.networks) && NulFree(passwd) && appSsid != [] && NulFree(appSsid)
    requires Lines.Without(appSsid, NEWLINE) && ssid == LookupForm(appSsid) && m.ssidContainChinese == !IsAscii(appSsid)
    modifies m, m.sup
    ensures 1 <= |tries| <= 2 && tries[0].keyMgmt == WpaPsk && tries[|tries| - 1].ret == ret
    ensures |tries| == 2 <==> tries[0].ret != 0 && wep
    ensures |tries| == 2 ==> tries[1].keyMgmt == Wep
    ensures InOrder(tries, |old(m.sup.log)|, m.sup.log) && |left| == LeftCount(tries, m.sup.log)
    ensures Settled(m.sup.networks, old(m.sup.networks), appSsid, ret, n, left,
                    RemovedAll(tries[|tries| - 1], m.sup.log))
    ensures ret == 0 ==> Stripped(n.keyMgmt) == KeyType(tries[|tries| - 1].keyMgmt)
    ensures ret != 0 ==> m.machineState == Disconnected
  {
    ret, n, tries, left := Try(m, appSsid, ssid, WpaPsk, passwd);
    if ret != 0 && wep {
      ghost var base, mid, log1, ret1, n1, left1 := old(m.sup.networks), m.sup.networks, m.sup.log, ret, n, left;
      ghost var t1, more, left2 := tries[0], [], [];
      ret, n, more, left2 := Try(m, appSsid, ssid, Wep, passwd);
      ghost var t2 := more[0];
      assert tries == [t1] && more == [t2];
      LeftOfTwo(t1, t2, log1, m.sup.log);
      SettledTwice(base, mid, m.sup.networks, appSsid, ret1, ret, n1, n, left1, left2,
                   RemovedAll(t1, log1), RemovedAll(t2, m.sup.log));
      tries, left := [t1, t2], left1 + left2;
    }
  }
}
