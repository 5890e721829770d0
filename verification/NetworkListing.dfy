/** Walks over the reply of LIST_NETWORKS (wpa_supplicant_conf.c): the buffer
    is read by pointer, cut with NULs, and overwritten in front by the replies
    to the commands sent on the way. */
module NetworkListing {
  import opened Bytes
  import opened PrintfCodec
  import opened Decimal
  import opened Lines
  import opened LineWalk
  import opened Supplicant

  /** `p` is the newline in front of `rows`, or -1 when none are left. */
  ghost predicate BeforeRows(buf: array<byte>, p: int, end: nat, rows: seq<Text>)
    reads buf
  {
    if rows == [] then p == -1 else |HEADER| <= p < end && AtLines(buf, p, end, [[]] + rows)
  }

  function ShownRows(ns: seq<Network>, shown: nat, current: Text): seq<Text>
    requires shown <= |ns|
  {
    RowTexts(ns[..shown], current)
  }

  lemma RowsFrom(rows: seq<Text>, i: nat)
    requires i < |rows|
    ensures rows[i..] == [rows[i]] + rows[i + 1..]
  {
  }

  /** Copies the id at the start of a row; a row without one leaves the old id. */
  method ReadId(buf: array<byte>, p: nat, ghost end: nat, ghost rows: seq<Text>, ghost n: Network,
                ghost current: Text, oldId: Text) returns (netId: Text)
    requires AtLines(buf, p, end, rows) && rows[0] == RowText(n, current) && ValidId(n.id)
    ensures netId == n.id
  {
    netId := oldId;
    IdColumn(n, current, if |rows| == 1 then [] else [NEWLINE] + Joined(NEWLINE, rows[1..]));
    RowThenRest(rows);
    var t := StrChr(buf, p, end, TAB);
    if t != -1 {
      var len := t - p;
      if len <= NET_ID_LEN {
        netId := buf[p..t];
      }
      assert buf[p..t] == buf[p..end][..|n.id|];
    }
  }

  /** The id ends at the first TAB. */
  lemma IdColumn(n: Network, current: Text, rest: Text)
    requires ValidId(n.id)
    ensures var s := RowText(n, current) + rest;
      IndexOf(s, TAB) == |n.id| < |RowText(n, current)| && s[..|n.id|] == n.id
  {
    FieldsAreClean(n, current);
    var fields := Fields(n, current);
    var tail := Joined(TAB, fields[1..]);
    assert Without(fields[0], TAB);
    PartEnds(n.id, TAB, tail + rest);
    assert RowText(n, current) + rest == n.id + [TAB] + (tail + rest);
  }

  // ----- LIST_NETWORKS

  /** Requests the listing and finds its first newline. */
  method List(sup: WpaSupplicant, buf: array<byte>) returns (ret: int, p: int, ghost shown: nat, ghost end: nat)
    requires WellFormed(sup.networks) && buf.Length == REPLY_BUF_SIZE
    modifies sup, buf
    ensures sup.networks == old(sup.networks) && WellFormed(sup.networks)
    ensures ret == 0 || ret == -1
    ensures sup.log == old(sup.log) + [Sent(ListNetworks, ret == 0)]
    ensures shown <= |sup.networks|
    ensures sup.complete == (old(sup.complete) && (ret == 0 ==> shown == |sup.networks|))
    ensures ret == 0 ==>
      && AtLines(buf, 0, end, [HEADER] + ShownRows(sup.networks, shown, sup.current))
      && BeforeRows(buf, p, end, ShownRows(sup.networks, shown, sup.current))
  {
    p, shown, end := -1, 0, 0;
    ghost var text, rows;
    ret, text, rows := sup.Command(ListNetworks, buf);
    if ret == 0 {
      shown := rows;
      ghost var lines := [HEADER] + ShownRows(sup.networks, shown, sup.current);
      end := ListingStored(sup.networks, sup.current, shown, old(buf[..]), buf[..], text);
      assert buf[0..end] == buf[..][..end];
      p := EndOfLine(buf, 0, end, lines);
      assert lines[1..] == ShownRows(sup.networks, shown, sup.current);
    }
  }

  lemma ListingStored(ns: seq<Network>, current: Text, shown: nat, before: seq<byte>, after: seq<byte>, reply: Text)
    returns (end: nat)
    requires |before| == |after| == REPLY_BUF_SIZE && shown <= |ns|
    requires Answered(ns, ns, ListNetworks, true, reply, current, shown) && ReplyStored(before, after, reply, true)
    ensures var lines := [HEADER] + ShownRows(ns, shown, current);
      && end < |after| && after[..end] == Joined(NEWLINE, lines) && after[end] == NUL
      && (forall j :: 0 <= j < end ==> after[j] != NUL)
      && AllWithout(lines, NEWLINE)
  {
    var t := Listing(ns[..shown], current);
    end := |t|;
    ShownIsWellFormed(ns, shown);
    LinesAreClean(ns[..shown], current);
    assert Stripped(t + [NEWLINE]) == t;
    assert after[..end] == t;
    forall j | 0 <= j < end ensures after[j] != NUL {
      assert after[j] == t[j];
    }
  }

  lemma ShownIsWellFormed(ns: seq<Network>, shown: nat)
    requires WellFormed(ns) && shown <= |ns|
    ensures WellFormed(ns[..shown])
  {
    var ms := ns[..shown];
    forall i | 0 <= i < |ms| ensures ValidId(ms[i].id) && |ms[i].ssid| <= SSID_MAX_LEN && PlaceOf(ms, ms[i].id) == i {
      assert PlaceOf(ns, ns[i].id) == i;
      PlaceIs(ms, ms[i].id, i);
    }
  }

  // ----- ENABLE_NETWORK and REMOVE_NETWORK for every row

  /** One command per listed network, given by its id. */
  function ForEach(command: Text -> Command, ns: seq<Network>): seq<Command> {
    seq(|ns|, i requires 0 <= i < |ns| => command(ns[i].id))
  }

  /** The first `done` commands carried out and, after a failure, one more refused. */
  function Attempts(cs: seq<Command>, done: nat, failed: bool): seq<Sent>
    requires if failed then done < |cs| else done <= |cs|
  {
    seq(done, i requires 0 <= i < done => Sent(cs[i], true)) + if failed then [Sent(cs[done], false)] else []
  }

  /** What was sent: the listing, then one command after the other up to the
      first that failed. */
  ghost predicate Walked(log0: seq<Sent>, log: seq<Sent>, cs: seq<Command>, done: nat, ret: int) {
    || (ret == -1 && done == 0 && log == log0 + [Sent(ListNetworks, false)])
    || ((if ret == 0 then done == |cs| else ret == -1 && done < |cs|)
        && log == log0 + [Sent(ListNetworks, true)] + Attempts(cs, done, ret != 0))
  }

  /** The first command sent since `log0`, the listing, was carried out. */
  predicate Listed(log0: seq<Sent>, log: seq<Sent>) {
    |log0| < |log| && log[|log0|] == Sent(ListNetworks, true)
  }

  /** The table once the walk has passed `k` rows. */
  function EnabledFirst(ns: seq<Network>, k: nat): seq<Network> {
    seq(|ns|, i requires 0 <= i < |ns| => if i < k then ns[i].(enabled := true) else ns[i])
  }

  lemma EnableNext(ns: seq<Network>, k: nat)
    requires WellFormed(ns) && k < |ns|
    ensures Accepts(EnabledFirst(ns, k), EnableNetwork(ns[k].id))
    ensures Applied(EnabledFirst(ns, k), EnableNetwork(ns[k].id)) == EnabledFirst(ns, k + 1)
  {
    SameIdsSamePlace(ns, EnabledFirst(ns, k), ns[k].id);
  }

  lemma RemoveNext(ns: seq<Network>, k: nat)
    requires k < |ns|
    ensures Accepts(ns[k..], RemoveNetwork(ns[k].id)) && Applied(ns[k..], RemoveNetwork(ns[k].id)) == ns[k + 1..]
  {
    PlaceIs(ns[k..], ns[k].id, 0);
    assert ns[k..][1..] == ns[k + 1..];
  }

  /** A short reply ends inside the header: the rows behind it are untouched. */
  method SendBehind(sup: WpaSupplicant, c: Command, buf: array<byte>, p: nat, ghost end: nat, ghost lines: seq<Text>)
    returns (ret: int)
    requires WellFormed(sup.networks) && (c.EnableNetwork? || c.RemoveNetwork?)
    requires |HEADER| < p && AtLines(buf, p, end, lines)
    modifies sup, buf
    ensures WellFormed(sup.networks) && (ret == 0 || ret == -1) && sup.log == old(sup.log) + [Sent(c, ret == 0)]
    ensures sup.complete == old(sup.complete)
    ensures if ret == 0 then Accepts(old(sup.networks), c) && sup.networks == Applied(old(sup.networks), c)
            else sup.networks == old(sup.networks)
    ensures AtLines(buf, p, end, lines)
  {
    ghost var text, rows;
    ghost var was := buf[..];
    ghost var before := sup.networks;
    ret, text, rows := sup.Command(c, buf);
    ShortReply(before, sup.networks, c, ret == 0, text, sup.current, rows, was, buf[..]);
    assert buf[p..end] == was[p..end];
    assert buf[end] == was[end];
  }

  lemma ShortReply(before: seq<Network>, after: seq<Network>, c: Command, ok: bool, reply: Text, current: Text,
                   shown: nat, was: seq<byte>, now: seq<byte>)
    requires c.EnableNetwork? || c.RemoveNetwork?
    requires |was| == |now| > |HEADER|
    requires Answered(before, after, c, ok, reply, current, shown) && ReplyStored(was, now, reply, ok)
    ensures forall k :: |HEADER| <= k < |now| ==> now[k] == was[k]
    ensures if ok then Accepts(before, c) && after == Applied(before, c) else after == before
  {
    assert |Stripped(Prefix(OK_REPLY, |now| - 1))| <= 3;
  }

  /** One turn of the loop: reads the id, sends the command, moves on. */
  method SendForRow(sup: WpaSupplicant, command: Text -> Command, buf: array<byte>, pn: int, ghost end: nat,
                    ghost rows: seq<Text>, ghost n: Network, ghost current: Text, oldId: Text)
    returns (ret: int, next: int, netId: Text)
    requires WellFormed(sup.networks) && ValidId(n.id)
    requires command(n.id).EnableNetwork? || command(n.id).RemoveNetwork?
    requires rows != [] && rows[0] == RowText(n, current) && BeforeRows(buf, pn, end, rows)
    modifies sup, buf
    ensures WellFormed(sup.networks) && (ret == 0 || ret == -1)
    ensures sup.log == old(sup.log) + [Sent(command(n.id), ret == 0)]
    ensures sup.complete == old(sup.complete)
    ensures if ret == 0
            then Accepts(old(sup.networks), command(n.id)) && sup.networks == Applied(old(sup.networks), command(n.id))
            else sup.networks == old(sup.networks)
    ensures ret == 0 ==> BeforeRows(buf, next, end, rows[1..])
  {
    NextLine(buf, pn, end, rows);
    next := pn + 1;
    netId := ReadId(buf, next, end, rows, n, current, oldId);
    ret := SendBehind(sup, command(netId), buf, next, end, rows);
    if ret == 0 {
      next := EndOfLine(buf, next, end, rows);
    }
  }

  lemma AttemptNext(log0: seq<Sent>, cs: seq<Command>, i: nat, ok: bool)
    requires i < |cs|
    ensures log0 + Attempts(cs, i, false) + [Sent(cs[i], ok)] == log0 + Attempts(cs, if ok then i + 1 else i, !ok)
  {
  }

  /** SAVE_CONFIG, which is swallowed. */
  method SaveConfigAt(sup: WpaSupplicant, buf: array<byte>) returns (ret: int)
    requires WellFormed(sup.networks) && buf.Length == REPLY_BUF_SIZE
    modifies sup, buf
    ensures ret == 0 && unchanged(sup)
  {
    ghost var text, rows;
    ret, text, rows := sup.Command(SaveConfig, buf);
  }

  method EnableRow(sup: WpaSupplicant, buf: array<byte>, pn: int, ghost end: nat, ghost rows: seq<Text>,
                   ghost ns: seq<Network>, ghost current: Text, ghost cs: seq<Command>, ghost i: nat,
                   ghost log0: seq<Sent>, oldId: Text)
    returns (ret: int, next: int, netId: Text)
    requires WellFormed(ns) && WellFormed(sup.networks) && i < |rows| == |cs| <= |ns|
    requires rows[i] == RowText(ns[i], current) && cs[i] == EnableNetwork(ns[i].id)
    requires BeforeRows(buf, pn, end, rows[i..])
    requires sup.networks == EnabledFirst(ns, i) && sup.log == log0 + Attempts(cs, i, false)
    modifies sup, buf
    ensures WellFormed(sup.networks) && (ret == 0 || ret == -1) && sup.complete == old(sup.complete)
    ensures sup.networks == EnabledFirst(ns, if ret == 0 then i + 1 else i)
    ensures sup.log == log0 + Attempts(cs, if ret == 0 then i + 1 else i, ret != 0)
    ensures ret == 0 ==> BeforeRows(buf, next, end, rows[i + 1..])
  {
    EnableNext(ns, i);
    AttemptNext(log0, cs, i, true);
    AttemptNext(log0, cs, i, false);
    RowsFrom(rows, i);
    assert ValidId(ns[i].id) by {
      assert ns[i].ssid == ns[i].ssid;
    }
    ret, next, netId := SendForRow(sup, id => EnableNetwork(id), buf, pn, end, rows[i..], ns[i], current, oldId);
  }

  method EnableAll(sup: WpaSupplicant) returns (ret: int, ghost shown: nat, ghost done: nat)
    requires WellFormed(sup.networks)
    modifies sup
    ensures WellFormed(sup.networks) && (ret == 0 || ret == -1)
    ensures done <= shown <= |old(sup.networks)| && (ret == 0 ==> done == shown)
    ensures sup.networks == EnabledFirst(old(sup.networks), done)
    ensures Walked(old(sup.log), sup.log, ForEach(id => EnableNetwork(id), old(sup.networks)[..shown]), done, ret)
    ensures sup.complete == (old(sup.complete) && (Listed(old(sup.log), sup.log) ==> shown == |sup.networks|))
  {
    var reply := new byte[REPLY_BUF_SIZE];
    var netId, pn := [], -1;
    ghost var end;
    ghost var ns := sup.networks;
    done := 0;
    ret, pn, shown, end := List(sup, reply);
    if ret != 0 {
      return;
    }
    ghost var cur, log0 := sup.current, sup.log;
    ghost var rows := ShownRows(ns, shown, cur);
    ghost var cs := ForEach(id => EnableNetwork(id), ns[..shown]);
    while ret == 0 && pn != -1
      invariant done <= shown && (ret == 0 || ret == -1) && WellFormed(sup.networks)
      invariant sup.networks == EnabledFirst(ns, done)
      invariant sup.complete == (old(sup.complete) && shown == |ns|)
      invariant if ret == 0 then BeforeRows(reply, pn, end, rows[done..]) else done < shown
      invariant sup.log == log0 + Attempts(cs, done, ret != 0)
      decreases if ret == 0 then 1 else 0, shown - done
    {
      ret, pn, netId := EnableRow(sup, reply, pn, end, rows, ns, cur, cs, done, log0, netId);
      done := if ret == 0 then done + 1 else done;
    }
    if ret == 0 {
      ret := SaveConfigAt(sup, reply);
    }
  }

  /** The walk enables the rows it passes and changes nothing else. */
  lemma EnabledFirstMeans(ns: seq<Network>, k: nat)
    requires WellFormed(ns)
    ensures Profiles(EnabledFirst(ns, k)) == Profiles(ns)
    ensures forall i :: 0 <= i < |ns| ==> EnabledFirst(ns, k)[i].enabled == (i < k || ns[i].enabled)
  {
    assert Profiles(EnabledFirst(ns, k)) == Profiles(ns);
  }

  method RemoveRow(sup: WpaSupplicant, buf: array<byte>, pn: int, ghost end: nat, ghost rows: seq<Text>,
                   ghost ns: seq<Network>, ghost current: Text, ghost cs: seq<Command>, ghost i: nat,
                   ghost log0: seq<Sent>, oldId: Text)
    returns (ret: int, next: int, netId: Text)
    requires WellFormed(ns) && WellFormed(sup.networks) && i < |rows| == |cs| <= |ns|
    requires rows[i] == RowText(ns[i], current) && cs[i] == RemoveNetwork(ns[i].id)
    requires BeforeRows(buf, pn, end, rows[i..])
    requires sup.networks == ns[i..] && sup.log == log0 + Attempts(cs, i, false)
    modifies sup, buf
    ensures WellFormed(sup.networks) && (ret == 0 || ret == -1) && sup.complete == old(sup.complete)
    ensures sup.networks == ns[if ret == 0 then i + 1 else i..]
    ensures sup.log == log0 + Attempts(cs, if ret == 0 then i + 1 else i, ret != 0)
    ensures ret == 0 ==> BeforeRows(buf, next, end, rows[i + 1..])
  {
    RemoveNext(ns, i);
    AttemptNext(log0, cs, i, true);
    AttemptNext(log0, cs, i, false);
    RowsFrom(rows, i);
    assert ValidId(ns[i].id) by {
      assert ns[i].ssid == ns[i].ssid;
    }
    ret, next, netId := SendForRow(sup, id => RemoveNetwork(id), buf, pn, end, rows[i..], ns[i], current, oldId);
  }

  method RemoveAll(sup: WpaSupplicant) returns (ret: int, ghost shown: nat, ghost done: nat)
    requires WellFormed(sup.networks)
    modifies sup
    ensures WellFormed(sup.networks) && (ret == 0 || ret == -1)
    ensures done <= shown <= |old(sup.networks)| && (ret == 0 ==> done == shown)
    ensures sup.networks == old(sup.networks)[done..]
    ensures Walked(old(sup.log), sup.log, ForEach(id => RemoveNetwork(id), old(sup.networks)[..shown]), done, ret)
    ensures sup.complete == (old(sup.complete) && (Listed(old(sup.log), sup.log) ==> shown == |old(sup.networks)|))
    ensures ret == 0 && sup.complete ==> sup.networks == []
  {
    var reply := new byte[REPLY_BUF_SIZE];
    var netId, pn := [], -1;
    ghost var end;
    ghost var ns := sup.networks;
    done := 0;
    ret, pn, shown, end := List(sup, reply);
    if ret != 0 {
      return;
    }
    ghost var cur, log0 := sup.current, sup.log;
    ghost var rows := ShownRows(ns, shown, cur);
    ghost var cs := ForEach(id => RemoveNetwork(id), ns[..shown]);
    while ret == 0 && pn != -1
      invariant done <= shown && (ret == 0 || ret == -1) && WellFormed(sup.networks)
      invariant sup.networks == ns[done..]
      invariant sup.complete == (old(sup.complete) && shown == |ns|)
      invariant if ret == 0 then BeforeRows(reply, pn, end, rows[done..]) else done < shown
      invariant sup.log == log0 + Attempts(cs, done, ret != 0)
      decreases if ret == 0 then 1 else 0, shown - done
    {
      ret, pn, netId := RemoveRow(sup, reply, pn, end, rows, ns, cur, cs, done, log0, netId);
      done := if ret == 0 then done + 1 else done;
    }
    if ret == 0 {
      ret := SaveConfigAt(sup, reply);
    }
  }

  // ----- GET_NETWORK priority for every row

  /** `best` is the largest of the first `k` priorities and 0. */
  ghost predicate IsMaxPriority(ns: seq<Network>, k: nat, best: int)
    requires k <= |ns|
  {
    && best >= 0 && (forall i :: 0 <= i < k ==> ns[i].priority <= best)
    && (best == 0 || exists i :: 0 <= i < k && ns[i].priority == best)
  }

  method PriorityRow(sup: WpaSupplicant, buf: array<byte>, pn: int, ghost end: nat, ghost rows: seq<Text>,
                     ghost current: Text, ghost cs: seq<Command>, ghost i: nat, ghost log0: seq<Sent>,
                     oldId: Text, oldMax: int)
    returns (ret: int, next: int, netId: Text, maxVal: int)
    requires WellFormed(sup.networks) && i < |rows| == |cs| <= |sup.networks|
    requires rows[i] == RowText(sup.networks[i], current) && cs[i] == GetPriority(sup.networks[i].id)
    requires BeforeRows(buf, pn, end, rows[i..])
    requires sup.log == log0 + Attempts(cs, i, false) && IsMaxPriority(sup.networks, i, oldMax)
    modifies sup
    ensures sup.networks == old(sup.networks) && (ret == 0 || ret == -1) && sup.complete == old(sup.complete)
    ensures sup.log == log0 + Attempts(cs, if ret == 0 then i + 1 else i, ret != 0)
    ensures ret == 0 ==> BeforeRows(buf, next, end, rows[i + 1..]) && IsMaxPriority(sup.networks, i + 1, maxVal)
  {
    ghost var n := sup.networks[i];
    maxVal := oldMax;
    AttemptNext(log0, cs, i, true);
    AttemptNext(log0, cs, i, false);
    RowsFrom(rows, i);
    assert ValidId(n.id) && PlaceOf(sup.networks, n.id) == i by {
      assert n.ssid == n.ssid;
    }
    NextLine(buf, pn, end, rows[i..]);
    next := pn + 1;
    netId := ReadId(buf, next, end, rows[i..], n, current, oldId);
    var priority;
    ghost var raw, shown;
    ret, priority, raw, shown := sup.Ask(GetPriority(netId));
    if ret == 0 {
      PriorityIsRead(n.priority);
      var val := Atoi(priority);
      if val >= maxVal {
        maxVal := val;
      }
      next := EndOfLine(buf, next, end, rows[i..]);
    }
  }

  lemma PriorityIsRead(priority: int)
    ensures Atoi(Stripped(Print(priority))) == priority
  {
    var t := Print(priority);
    assert t[|t| - 1] != NEWLINE;
    AtoiPrinted(priority, []);
    assert t + [] == t;
  }

  method MaxPriority(sup: WpaSupplicant) returns (maxVal: int, ghost shown: nat, ghost done: nat)
    requires WellFormed(sup.networks)
    modifies sup
    ensures sup.networks == old(sup.networks)
    ensures shown <= |sup.networks| && done <= shown
    ensures maxVal == -1 || IsMaxPriority(sup.networks, shown, maxVal)
    ensures Walked(old(sup.log), sup.log, ForEach(id => GetPriority(id), sup.networks[..shown]), done,
                   if maxVal == -1 then -1 else 0)
    ensures sup.complete == (old(sup.complete) && (Listed(old(sup.log), sup.log) ==> shown == |sup.networks|))
  {
    var reply := new byte[REPLY_BUF_SIZE];
    var netId, pn, ret := [], -1, -1;
    ghost var end;
    done := 0;
    ret, pn, shown, end := List(sup, reply);
    if ret != 0 {
      maxVal := -1;
      return;
    }
    ghost var cur, log0 := sup.current, sup.log;
    ghost var rows := ShownRows(sup.networks, shown, cur);
    ghost var cs := ForEach(id => GetPriority(id), sup.networks[..shown]);
    maxVal := 0;
    while ret == 0 && pn != -1
      invariant done <= shown && (ret == 0 || ret == -1)
      invariant sup.networks == old(sup.networks)
      invariant sup.complete == (old(sup.complete) && shown == |sup.networks|)
      invariant if ret == 0 then BeforeRows(reply, pn, end, rows[done..]) && IsMaxPriority(sup.networks, done, maxVal)
                else done < shown
      invariant sup.log == log0 + Attempts(cs, done, ret != 0)
      decreases if ret == 0 then 1 else 0, shown - done
    {
      ret, pn, netId, maxVal := PriorityRow(sup, reply, pn, end, rows, cur, cs, done, log0, netId, maxVal);
      done := if ret == 0 then done + 1 else done;
    }
    if ret != 0 {
      maxVal := -1;
    }
  }
}
