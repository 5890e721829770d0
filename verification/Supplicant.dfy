/** The supplicant as the manager sees it: a table of networks changed by
    commands, any of which may fail, and the text of its replies.

    A failed command changes nothing.  Which access point is current changes on
    its own, and a listing may leave out rows at its end. */
module Supplicant {
  import opened Bytes
  import opened PrintfCodec
  import opened SsidCodec
  import opened Decimal
  import opened Lines

  const REPLY_BUF_SIZE := 4096
  const NET_ID_LEN := 10

  datatype Secret = Psk | WepKey0 | AuthAlg

  datatype Setting =
    | Ssid(value: Text)
    | KeyMgmt(value: Text)
    | Priority(level: int)
    | Private(secret: Secret, value: Text)

  datatype Network = Network(
    id: Text, ssid: Text, keyMgmt: Text, priority: int, secrets: map<Secret, Text>, enabled: bool)

  datatype Command =
    | AddNetwork
    | SetNetwork(id: Text, setting: Setting)
    | GetKeyMgmt(id: Text)
    | GetPriority(id: Text)
    | SelectNetwork(id: Text)
    | EnableNetwork(id: Text)
    | DisableNetwork(id: Text)
    | RemoveNetwork(id: Text)
    | ListNetworks
    | Reconnect
    | Disconnect
    | SaveConfig

  /** A command as the supplicant saw it, and whether it was carried out. */
  datatype Sent = Sent(command: Command, ok: bool)

  const DEFAULT_KEY_MGMT: Text := Ascii("WPA-PSK WPA-EAP")

  predicate ValidId(id: Text) {
    1 <= |id| < NET_ID_LEN && forall i :: 0 <= i < |id| ==> IsDigit(id[i])
  }

  function PlaceOf(ns: seq<Network>, id: Text): (k: int)
    ensures k < 0 ==> k == -1 && forall i :: 0 <= i < |ns| ==> ns[i].id != id
    ensures k >= 0 ==> k < |ns| && ns[k].id == id && forall i :: 0 <= i < k ==> ns[i].id != id
  {
    if ns == [] then -1
    else
      var k := PlaceOf(ns[..|ns| - 1], id);
      if k >= 0 then k else if ns[|ns| - 1].id == id then |ns| - 1 else -1
  }

  /** Every row has an id of its own, printable as the listing prints it. */
  ghost predicate WellFormed(ns: seq<Network>) {
    forall i {:trigger PlaceOf(ns, ns[i].id)} {:trigger ns[i].ssid} :: 0 <= i < |ns| ==>
      ValidId(ns[i].id) && |ns[i].ssid| <= SSID_MAX_LEN && PlaceOf(ns, ns[i].id) == i
  }

  /** A network with everything but whether it is enabled. */
  function Profile(n: Network): Network {
    n.(enabled := true)
  }

  function Profiles(ns: seq<Network>): seq<Network> {
    seq(|ns|, i requires 0 <= i < |ns| => Profile(ns[i]))
  }

  // ----- what a command does

  function Fresh(id: Text): Network {
    Network(id, [], DEFAULT_KEY_MGMT, 0, map[], false)
  }

  function With(n: Network, s: Setting): Network {
    match s
    case Ssid(value) =>
      if NulFree(value) && ParsedString(value).Some? then n.(ssid := ParsedString(value).value) else n
    case KeyMgmt(value) => n.(keyMgmt := value)
    case Priority(level) => n.(priority := level)
    case Private(secret, value) => n.(secrets := n.secrets[secret := value])
  }

  predicate AcceptsSetting(s: Setting) {
    s.Ssid? ==> NulFree(s.value) && ParsedString(s.value).Some? && |ParsedString(s.value).value| <= SSID_MAX_LEN
  }

  predicate Accepts(ns: seq<Network>, c: Command) {
    match c
    case SetNetwork(id, s) => PlaceOf(ns, id) >= 0 && AcceptsSetting(s)
    case GetKeyMgmt(id) => PlaceOf(ns, id) >= 0
    case GetPriority(id) => PlaceOf(ns, id) >= 0
    case SelectNetwork(id) => PlaceOf(ns, id) >= 0
    case EnableNetwork(id) => PlaceOf(ns, id) >= 0
    case DisableNetwork(id) => PlaceOf(ns, id) >= 0
    case RemoveNetwork(id) => PlaceOf(ns, id) >= 0
    case _ => true
  }

  /** The table after an accepted command other than ADD_NETWORK. */
  function Applied(ns: seq<Network>, c: Command): (r: seq<Network>)
    requires Accepts(ns, c)
  {
    match c
    case SetNetwork(id, s) => ns[PlaceOf(ns, id) := With(ns[PlaceOf(ns, id)], s)]
    case SelectNetwork(id) => seq(|ns|, i requires 0 <= i < |ns| => ns[i].(enabled := ns[i].id == id))
    case EnableNetwork(id) => ns[PlaceOf(ns, id) := ns[PlaceOf(ns, id)].(enabled := true)]
    case DisableNetwork(id) => ns[PlaceOf(ns, id) := ns[PlaceOf(ns, id)].(enabled := false)]
    case RemoveNetwork(id) => ns[..PlaceOf(ns, id)] + ns[PlaceOf(ns, id) + 1..]
    case _ => ns
  }

  lemma PlaceIs(ns: seq<Network>, id: Text, k: nat)
    requires k < |ns| && ns[k].id == id && forall i :: 0 <= i < k ==> ns[i].id != id
    ensures PlaceOf(ns, id) == k
  {
  }

  lemma SameIdsSamePlace(ns: seq<Network>, ms: seq<Network>, id: Text)
    requires |ns| == |ms| && forall i :: 0 <= i < |ns| ==> ns[i].id == ms[i].id
    ensures PlaceOf(ns, id) == PlaceOf(ms, id)
  {
  }

  lemma AddedIsWellFormed(ns: seq<Network>, n: Network)
    requires WellFormed(ns) && ValidId(n.id) && PlaceOf(ns, n.id) < 0 && |n.ssid| <= SSID_MAX_LEN
    ensures WellFormed(ns + [n])
  {
    var ms := ns + [n];
    forall i | 0 <= i < |ms| ensures ValidId(ms[i].id) && |ms[i].ssid| <= SSID_MAX_LEN && PlaceOf(ms, ms[i].id) == i {
      if i < |ns| {
        assert PlaceOf(ns, ns[i].id) == i;
      }
      PlaceIs(ms, ms[i].id, i);
    }
  }

  lemma RemovedIsWellFormed(ns: seq<Network>, k: nat)
    requires WellFormed(ns) && k < |ns|
    ensures WellFormed(ns[..k] + ns[k + 1..])
  {
    var ms := ns[..k] + ns[k + 1..];
    forall i | 0 <= i < |ms| ensures ValidId(ms[i].id) && |ms[i].ssid| <= SSID_MAX_LEN && PlaceOf(ms, ms[i].id) == i {
      var j := if i < k then i else i + 1;
      assert ms[i] == ns[j] && PlaceOf(ns, ns[j].id) == j;
      forall q | 0 <= q < i ensures ms[q].id != ms[i].id {
        assert ms[q] == ns[if q < k then q else q + 1];
      }
      PlaceIs(ms, ms[i].id, i);
    }
  }

  lemma SameIdsWellFormed(ns: seq<Network>, ms: seq<Network>)
    requires WellFormed(ns) && |ns| == |ms|
    requires forall i :: 0 <= i < |ns| ==> ns[i].id == ms[i].id && |ms[i].ssid| <= SSID_MAX_LEN
    ensures WellFormed(ms)
  {
    forall i | 0 <= i < |ms| ensures ValidId(ms[i].id) && |ms[i].ssid| <= SSID_MAX_LEN && PlaceOf(ms, ms[i].id) == i {
      assert PlaceOf(ns, ns[i].id) == i;
      SameIdsSamePlace(ns, ms, ns[i].id);
    }
  }

  lemma AppliedIsWellFormed(ns: seq<Network>, c: Command)
    requires WellFormed(ns) && Accepts(ns, c)
    ensures WellFormed(Applied(ns, c))
  {
    if c.RemoveNetwork? {
      RemovedIsWellFormed(ns, PlaceOf(ns, c.id));
    } else {
      var ms := Applied(ns, c);
      forall i | 0 <= i < |ns| ensures ns[i].id == ms[i].id && |ms[i].ssid| <= SSID_MAX_LEN {
        assert |ns[i].ssid| <= SSID_MAX_LEN;
      }
      SameIdsWellFormed(ns, ms);
    }
  }

  // ----- the listing

  const HEADER: Text := Ascii("network id / ssid / bssid / flags")
  const ANY_BSSID: Text := Ascii("any")
  const CURRENT: Text := Ascii("[CURRENT]")
  const DISABLED: Text := Ascii("[DISABLED]")

  function Flags(n: Network, current: Text): Text {
    (if n.id == current then CURRENT else []) + if n.enabled then [] else DISABLED
  }

  function Fields(n: Network, current: Text): seq<Text> {
    [n.id, Encode(n.ssid), ANY_BSSID, Flags(n, current)]
  }

  function RowText(n: Network, current: Text): Text {
    Joined(TAB, Fields(n, current))
  }

  function RowTexts(ns: seq<Network>, current: Text): seq<Text> {
    seq(|ns|, i requires 0 <= i < |ns| => RowText(ns[i], current))
  }

  /** The listing without the newline that ends its last line. */
  function Listing(ns: seq<Network>, current: Text): Text {
    Joined(NEWLINE, [HEADER] + RowTexts(ns, current))
  }

  /** No field holds a separator, so that the listing can be taken apart again. */
  lemma FieldsAreClean(n: Network, current: Text)
    requires ValidId(n.id)
    ensures AllWithout(Fields(n, current), TAB) && AllWithout(Fields(n, current), NEWLINE)
    ensures AllWithout(Fields(n, current), NUL)
    ensures Without(RowText(n, current), NEWLINE) && Without(RowText(n, current), NUL)
  {
    EncodeIsPrintable(n.ssid);
    forall i | 0 <= i < 4 ensures Without(Fields(n, current)[i], TAB) && Without(Fields(n, current)[i], NEWLINE)
      && Without(Fields(n, current)[i], NUL)
    {
      var f := Fields(n, current)[i];
      forall j | 0 <= j < |f| ensures 32 <= f[j] <= 126 {
        if i == 0 {
          assert IsDigit(n.id[j]);
        }
      }
    }
    JoinedWithout(TAB, Fields(n, current), NEWLINE);
    JoinedWithout(TAB, Fields(n, current), NUL);
  }

  /** Every line of the listing is free of newlines and terminators. */
  lemma LinesAreClean(ns: seq<Network>, current: Text)
    requires WellFormed(ns)
    ensures AllWithout([HEADER] + RowTexts(ns, current), NEWLINE)
    ensures NulFree(Listing(ns, current))
  {
    var lines := [HEADER] + RowTexts(ns, current);
    forall i | 0 <= i < |lines| ensures Without(lines[i], NEWLINE) && Without(lines[i], NUL) {
      if i > 0 {
        assert ns[i - 1].ssid == ns[i - 1].ssid;
        FieldsAreClean(ns[i - 1], current);
      }
    }
    JoinedWithout(NEWLINE, lines, NUL);
  }

  const OK_REPLY: Text := Ascii("OK") + [NEWLINE]
  const FAIL_REPLY: Text := Ascii("FAIL") + [NEWLINE]

  /** What the supplicant answers to an accepted command; `shown` rows of a
      listing find room. */
  function ReplyTo(ns: seq<Network>, c: Command, current: Text, shown: nat): Text
    requires Accepts(ns, c) && shown <= |ns|
  {
    match c
    case ListNetworks => Listing(ns[..shown], current) + [NEWLINE]
    case GetKeyMgmt(id) => ns[PlaceOf(ns, id)].keyMgmt
    case GetPriority(id) => Print(ns[PlaceOf(ns, id)].priority)
    case _ => OK_REPLY
  }

  /** wifi_command takes one newline off the end of a reply. */
  function Stripped(t: Text): Text {
    if t != [] && t[|t| - 1] == NEWLINE then t[..|t| - 1] else t
  }

  /** What one request may do to the table, and what it may answer. */
  ghost predicate Answered(before: seq<Network>, after: seq<Network>, c: Command, ok: bool, reply: Text,
                           current: Text, shown: nat)
  {
    && WellFormed(after)
    && (!ok ==> after == before && (reply == [] || reply == FAIL_REPLY))
    && (ok && c.AddNetwork? ==>
          && ValidId(Stripped(reply)) && PlaceOf(before, Stripped(reply)) < 0
          && after == before + [Fresh(Stripped(reply))] && reply == Stripped(reply) + [NEWLINE])
    && (ok && !c.AddNetwork? ==>
          && Accepts(before, c) && after == Applied(before, c)
          && shown <= |before| && reply == ReplyTo(before, c, current, shown)
          && (c.ListNetworks? ==> |reply| < REPLY_BUF_SIZE))
  }

  class WpaSupplicant {
    var networks: seq<Network>
    var current: Text
    ghost var log: seq<Sent>
    /** Every listing so far showed all rows. */
    ghost var complete: bool

    /** One request.  The environment decides whether it is carried out. */
    method Request(c: Command) returns (ok: bool, reply: Text, ghost shown: nat)
      requires WellFormed(networks)
      modifies this
      ensures Answered(old(networks), networks, c, ok, reply, current, shown)
      ensures log == old(log) + [Sent(c, ok)]
      ensures complete == (old(complete) && (ok && c.ListNetworks? ==> shown == |networks|))
    {
      ok := *;
      current := *;
      shown := 0;
      var failText: bool := *;
      reply := if failText then FAIL_REPLY else [];
      if c.AddNetwork? {
        var id: Text := *;
        ok := ok && ValidId(id) && PlaceOf(networks, id) < 0;
        if ok {
          AddedIsWellFormed(networks, Fresh(id));
          networks := networks + [Fresh(id)];
          reply := id + [NEWLINE];
        }
      } else {
        ok := ok && Accepts(networks, c);
        if ok {
          var rows := RowsThatFit();
          shown := rows;
          reply := ReplyTo(networks, c, current, rows);
          AppliedIsWellFormed(networks, c);
          networks := Applied(networks, c);
        }
      }
      log := log + [Sent(c, ok)];
      complete := complete && (ok && c.ListNetworks? ==> shown == |networks|);
    }

    /** Some number of rows whose listing has room in the reply. */
    method RowsThatFit() returns (rows: nat)
      ensures rows <= |networks| && |Listing(networks[..rows], current)| + 1 < REPLY_BUF_SIZE
    {
      var wish: int := *;
      rows := if 0 <= wish <= |networks| then wish else 0;
      if |Listing(networks[..rows], current)| + 1 >= REPLY_BUF_SIZE {
        rows := 0;
      }
    }

    /** wifi_command: SAVE_CONFIG is swallowed, any other command is requested
        and its reply stored. */
    method Command(c: Command, buf: array<byte>) returns (ret: int, ghost reply: Text, ghost shown: nat)
      requires WellFormed(networks) && buf.Length > |FAIL_REPLY|
      modifies this, buf
      ensures c.SaveConfig? ==> ret == 0 && unchanged(this) && unchanged(buf)
      ensures !c.SaveConfig? ==>
        && (ret == 0 || ret == -1)
        && Answered(old(networks), networks, c, ret == 0, reply, current, shown)
        && log == old(log) + [Sent(c, ret == 0)]
        && complete == (old(complete) && (ret == 0 && c.ListNetworks? ==> shown == |networks|))
        && ReplyStored(old(buf[..]), buf[..], reply, ret == 0)
    {
      reply, shown := [], 0;
      if c.SaveConfig? {
        return 0, reply, shown;
      }
      var ok, text, rows := Request(c);
      StoreReply(text, ok, buf);
      reply, shown := text, rows;
      ret := if ok then 0 else -1;
    }

    /** The same where the reply is only read whole: short replies and scratch buffers. */
    method Ask(c: Command) returns (ret: int, reply: Text, ghost raw: Text, ghost shown: nat)
      requires WellFormed(networks) && !c.ListNetworks?
      modifies this
      ensures c.SaveConfig? ==> ret == 0 && unchanged(this)
      ensures !c.SaveConfig? ==>
        && (ret == 0 || ret == -1) && reply == Stripped(raw)
        && Answered(old(networks), networks, c, ret == 0, raw, current, shown)
        && log == old(log) + [Sent(c, ret == 0)] && complete == old(complete)
    {
      reply, raw, shown := [], [], 0;
      if c.SaveConfig? {
        return 0, [], [], 0;
      }
      var ok, text, rows := Request(c);
      reply, raw, shown := Stripped(text), text, rows;
      ret := if ok then 0 else -1;
    }
  }

  /** A reply lies at the front of its buffer, its last newline replaced by the
      terminator; nothing behind it is touched.  A failed command may leave the
      word FAIL there. */
  ghost predicate ReplyStored(before: seq<byte>, after: seq<byte>, reply: Text, ok: bool)
    requires |before| == |after| > |FAIL_REPLY|
  {
    var t := Stripped(Prefix(reply, |after| - 1));
    && (ok ==> after[..|t|] == t && after[|t|] == NUL && forall k :: |t| < k < |after| ==> after[k] == before[k])
    && (!ok ==> forall k :: |FAIL_REPLY| <= k < |after| ==> after[k] == before[k])
  }

  method StoreReply(text: Text, ok: bool, buf: array<byte>)
    requires buf.Length > |FAIL_REPLY| && (ok || text == [] || text == FAIL_REPLY)
    modifies buf
    ensures ReplyStored(old(buf[..]), buf[..], text, ok)
  {
    var replyLen := if |text| < buf.Length - 1 then |text| else buf.Length - 1;
    forall k | 0 <= k < replyLen {
      buf[k] := text[k];
    }
    assert buf[..replyLen] == Prefix(text, buf.Length - 1);
    if ok {
      if replyLen > 0 && buf[replyLen - 1] == NEWLINE {
        buf[replyLen - 1] := NUL;
      } else {
        buf[replyLen] := NUL;
      }
    }
  }
}
