/** The device's hotspot list: a scan report reorders the new nodes, fires the
    differences and replaces the list; a disconnect or close empties it
    (inetd/wifi.c, inetd/common.c). */
module HotspotReport {
  import opened Bytes
  import opened HotspotList
  import opened HotspotEvents

  predicate Unflagged(c: seq<Ap>) {
    forall i :: 0 <= i < |c| ==> !c[i].flagged
  }

  /** The rows of `c`, flagged where a row of `o` has the same BSSID. */
  function Marked(c: seq<Ap>, o: seq<Ap>): seq<Ap> {
    seq(|c|, i requires 0 <= i < |c| => c[i].(flagged := Place(o, c[i].bssid) >= 0))
  }

  /** The rows of `c`, flagged where they are the connected access point. */
  function WithConnected(c: seq<Ap>, bssid: Text): seq<Ap> {
    seq(|c|, i requires 0 <= i < |c| => c[i].(flagged := bssid != [] && c[i].bssid == bssid))
  }

  ghost predicate Apart(olds: seq<Hotspot>, nodes: seq<Hotspot>) {
    forall i :: 0 <= i < |olds| ==> olds[i] !in nodes
  }

  /** A connected access point that is in the list is its head. */
  predicate ConnectedLeads(c: seq<Ap>, bssid: Text) {
    forall i :: 0 <= i < |c| && bssid != [] && c[i].bssid == bssid ==> c[0].bssid == bssid
  }

  lemma PlaceIgnoresFlags(c: seq<Ap>, d: seq<Ap>, b: Text)
    requires |c| == |d| && forall i :: 0 <= i < |c| ==> c[i].bssid == d[i].bssid
    ensures Place(c, b) == Place(d, b)
  {
  }

  lemma TableIgnoresFlags(c: seq<Ap>, bssid: Text)
    ensures TableOf(WithConnected(c, bssid)) == TableOf(c)
    ensures DistinctBssids(c) ==> DistinctBssids(WithConnected(c, bssid))
  {
    var d := WithConnected(c, bssid);
    forall b ensures Place(d, b) == Place(c, b) {
      PlaceIgnoresFlags(d, c, b);
    }
    if DistinctBssids(c) {
      forall i | Row(d, i) ensures Place(d, d[i].bssid) == i {
        assert Row(c, i);
      }
    }
  }

  /** The first node with the BSSID, or null. */
  method FindNode(hotspots: Hotspot, bssid: Text, ghost nodes: seq<Hotspot>) returns (node: Hotspot?)
    requires Linked(nodes) && nodes != [] && hotspots == nodes[0]
    ensures var k := Place(Contents(nodes), bssid); node == if k < 0 then null else nodes[k]
  {
    ghost var k := 0;
    node := hotspots;
    while node != null && bssid != node.bssid
      invariant 0 <= k <= |nodes| && node == Nth(nodes, k)
      invariant forall m :: 0 <= m < k ==> nodes[m].bssid != bssid
      decreases |nodes| - k
    {
      node := node.next;
      k := k + 1;
    }
  }

  method SetFlag(node: Hotspot, flag: bool, ghost i: nat, ghost nodes: seq<Hotspot>)
    requires Linked(nodes) && i < |nodes| && node == nodes[i]
    modifies node`isConnect
    ensures Linked(nodes)
    ensures Contents(nodes) == old(Contents(nodes))[i := old(Contents(nodes))[i].(flagged := flag)]
  {
    assert Row(nodes, i);
    node.isConnect := flag;
    forall m | 0 <= m < |nodes| && m != i
      ensures nodes[m].Content() == old(nodes[m].Content())
    {
      assert Row(nodes, m);
    }
  }

  /** Compares a stored row with the new row of the same BSSID, attribute by attribute. */
  method CompareNodes(host: Hotspot, node: Hotspot) returns (changed: seq<Change>)
    ensures changed == ChangeOf(host.Content(), node.Content())
  {
    changed := [];
    var changedSignal := host.signal != node.signal;
    var changedSsid := host.ssid != node.ssid;
    var changedCapabilities := host.capabilities != node.capabilities;
    if changedSsid || changedSignal || changedCapabilities {
      changed := [Change(node.bssid,
                         if changedSignal then Some(node.signal) else None,
                         if changedSsid then Some(node.ssid) else None,
                         if changedCapabilities then Some(node.capabilities) else None)];
    }
  }

  /** What one more stored row adds to the three results. */
  lemma DiffOneMore(c: seq<Ap>, o: seq<Ap>, i: nat)
    requires i < |o| && DistinctBssids(c)
    ensures var marked := Marked(c, o[..i]); var k := Place(marked, o[i].bssid);
      && k == Place(c, o[i].bssid)
      && Marked(c, o[..i + 1]) == (if k >= 0 then marked[k := marked[k].(flagged := true)] else marked)
      && MissedIn(o[..i + 1], c) == MissedIn(o[..i], c) + (if k < 0 then [o[i].bssid] else [])
      && ChangedIn(o[..i + 1], c) == ChangedIn(o[..i], c) + (if k >= 0 then ChangeOf(o[i], marked[k]) else [])
  {
    PlaceIgnoresFlags(Marked(c, o[..i]), c, o[i].bssid);
    assert o[..i + 1][..i] == o[..i];
    forall m | 0 <= m < |c| ensures c[m].bssid == o[i].bssid <==> m == Place(c, o[i].bssid) {
      assert Row(c, m);
    }
  }

  /** Looks stored row `i` up in the new list and marks the new node it matches. */
  method CompareHost(host: Hotspot, hotspots: Hotspot, missed: seq<Text>, changed: seq<Change>,
                     ghost c: seq<Ap>, ghost o: seq<Ap>, ghost i: nat, ghost nodes: seq<Hotspot>)
    returns (missed': seq<Text>, changed': seq<Change>)
    requires Linked(nodes) && nodes != [] && hotspots == nodes[0]
    requires DistinctBssids(c) && i < |o| && host.Content() == o[i]
    requires Contents(nodes) == Marked(c, o[..i])
    requires missed == MissedIn(o[..i], c) && changed == ChangedIn(o[..i], c)
    modifies nodes
    ensures Linked(nodes) && Contents(nodes) == Marked(c, o[..i + 1])
    ensures missed' == MissedIn(o[..i + 1], c) && changed' == ChangedIn(o[..i + 1], c)
  {
    DiffOneMore(c, o, i);
    var node := FindNode(hotspots, host.bssid, nodes);
    if node != null {
      var ch := CompareNodes(host, node);
      missed', changed' := missed, changed + ch;
      SetFlag(node, true, Place(Contents(nodes), host.bssid), nodes);
    } else {
      missed', changed' := missed + [host.bssid], changed;
    }
  }

  /** One turn of the walk: compares a stored host and goes on to the next. */
  method NextHost(host: Hotspot, hotspots: Hotspot, missed: seq<Text>, changed: seq<Change>, ghost c: seq<Ap>,
                  ghost o: seq<Ap>, ghost i: nat, ghost k: nat, ghost olds: seq<Hotspot>, ghost nodes: seq<Hotspot>)
    returns (missed': seq<Text>, changed': seq<Change>, next: Hotspot?)
    requires Linked(olds) && i < k == i + 1 <= |olds| && host == olds[i] && Contents(olds) == o && Apart(olds, nodes)
    requires Linked(nodes) && nodes != [] && hotspots == nodes[0]
    requires DistinctBssids(c) && Contents(nodes) == Marked(c, o[..i])
    requires missed == MissedIn(o[..i], c) && changed == ChangedIn(o[..i], c)
    modifies nodes
    ensures Linked(olds) && Contents(olds) == o && next == Nth(olds, k)
    ensures Linked(nodes) && Contents(nodes) == Marked(c, o[..k])
    ensures missed' == MissedIn(o[..k], c) && changed' == ChangedIn(o[..k], c)
  {
    missed', changed' := CompareHost(host, hotspots, missed, changed, c, o, i, nodes);
    assert olds[i].next == Nth(olds, i + 1);
    next := host.next;
  }

  /** Walks the stored list: what is missing and what changed, with the new
      nodes that are not new marked on the way. */
  method DiffHosts(first: Hotspot, hotspots: Hotspot, ghost o: seq<Ap>, ghost c: seq<Ap>,
                   ghost olds: seq<Hotspot>, ghost nodes: seq<Hotspot>)
    returns (missed: seq<Text>, changed: seq<Change>)
    requires Linked(olds) && olds != [] && first == olds[0]
    requires Linked(nodes) && nodes != [] && hotspots == nodes[0]
    requires Apart(olds, nodes)
    requires Contents(olds) == o && Contents(nodes) == c && DistinctBssids(c) && Unflagged(c)
    modifies nodes
    ensures Linked(nodes) && Contents(nodes) == Marked(c, o)
    ensures missed == MissedIn(o, c) && changed == ChangedIn(o, c)
  {
    ghost var i := 0;
    var host: Hotspot? := first;
    missed, changed := [], [];
    while host != null
      invariant 0 <= i <= |olds| && host == Nth(olds, i)
      invariant Linked(nodes) && Linked(olds) && Contents(olds) == o
      invariant Contents(nodes) == Marked(c, o[..i])
      invariant missed == MissedIn(o[..i], c) && changed == ChangedIn(o[..i], c)
      decreases |olds| - i
    {
      ghost var k := i + 1;
      missed, changed, host := NextHost(host, hotspots, missed, changed, c, o, i, k, olds, nodes);
      i := k;
    }
    assert o[..i] == o;
  }

  lemma FoundOneMore(c: seq<Ap>, o: seq<Ap>, i: nat)
    requires i < |c|
    ensures FoundIn(o, c[..i + 1]) ==
      FoundIn(o, c[..i]) + if Place(o, c[i].bssid) < 0 then [Found(c[i].bssid, AttrsOf(c[i]))] else []
  {
    assert c[..i + 1][..i] == c[..i];
  }

  /** The new list while its marks come off: those before `i` are off already. */
  function PartMarked(c: seq<Ap>, o: seq<Ap>, i: nat): seq<Ap> {
    seq(|c|, m requires 0 <= m < |c| => if m < i then c[m] else Marked(c, o)[m])
  }

  /** Collects node `i` if it is new and takes its mark off. */
  method TakeFound(node: Hotspot, found: seq<Found>, ghost c: seq<Ap>, ghost o: seq<Ap>, ghost i: nat,
                   ghost nodes: seq<Hotspot>)
    returns (found': seq<Found>, next: Hotspot?)
    requires Linked(nodes) && i < |nodes| == |c| && node == nodes[i] && Unflagged(c)
    requires Contents(nodes) == PartMarked(c, o, i) && found == FoundIn(o, c[..i])
    modifies nodes
    ensures Linked(nodes) && Contents(nodes) == PartMarked(c, o, i + 1)
    ensures found' == FoundIn(o, c[..i + 1]) && next == Nth(nodes, i + 1)
  {
    FoundOneMore(c, o, i);
    assert node.Content() == Contents(nodes)[i] == Marked(c, o)[i];
    found' := found;
    if !node.isConnect {
      found' := found + [Found(node.bssid, Attrs(node.ssid, node.signal, node.capabilities))];
    }
    SetFlag(node, false, i, nodes);
    next := node.next;
  }

  /** Walks the new list: unmarked nodes are new; all marks are taken off again. */
  method CollectFound(hotspots: Hotspot, ghost nodes: seq<Hotspot>, ghost c: seq<Ap>, ghost o: seq<Ap>)
    returns (found: seq<Found>)
    requires Linked(nodes) && nodes != [] && hotspots == nodes[0]
    requires Contents(nodes) == Marked(c, o) && Unflagged(c)
    modifies nodes
    ensures Linked(nodes) && Contents(nodes) == c && found == FoundIn(o, c)
  {
    ghost var i := 0;
    var node: Hotspot? := hotspots;
    found := [];
    while node != null
      invariant 0 <= i <= |nodes| == |c| && node == Nth(nodes, i)
      invariant Linked(nodes) && found == FoundIn(o, c[..i])
      invariant Contents(nodes) == PartMarked(c, o, i)
      decreases |nodes| - i
    {
      found, node := TakeFound(node, found, c, o, i, nodes);
      i := i + 1;
    }
    assert c[..i] == c;
  }

  /** With no stored list every node is new; the loop counts instead of looking for the end. */
  method AllFound(hotspots: Hotspot, number: int, ghost nodes: seq<Hotspot>) returns (found: seq<Found>)
    requires Linked(nodes) && nodes != [] && hotspots == nodes[0] && number == |nodes|
    ensures found == FoundIn([], Contents(nodes))
  {
    ghost var c := Contents(nodes);
    var node: Hotspot? := hotspots;
    var i := 0;
    found := [];
    while i < number
      invariant 0 <= i <= number && node == Nth(nodes, i) && found == FoundIn([], c[..i])
    {
      FoundOneMore(c, [], i);
      found := found + [Found(node.bssid, Attrs(node.ssid, node.signal, node.capabilities))];
      node := node.next;
      i := i + 1;
    }
    assert c[..i] == c;
  }

  /** The three lists of a report's event; the new nodes end up unmarked. */
  method DiffLists(first: Hotspot?, hotspots: Hotspot, number: int, ghost o: seq<Ap>, ghost c: seq<Ap>,
                   ghost olds: seq<Hotspot>, ghost nodes: seq<Hotspot>)
    returns (event: Notice)
    requires Linked(olds) && first == Nth(olds, 0) && Apart(olds, nodes)
    requires Linked(nodes) && nodes != [] && hotspots == nodes[0] && number == |nodes|
    requires Contents(olds) == o && Contents(nodes) == c && DistinctBssids(c) && Unflagged(c)
    modifies nodes
    ensures Linked(nodes) && Contents(nodes) == c && event == Diff(o, c)
  {
    var found, missed, changed := [], [], [];
    if first == null {
      found := AllFound(hotspots, number, nodes);
      assert o == [];
    } else {
      missed, changed := DiffHosts(first, hotspots, o, c, olds, nodes);
      found := CollectFound(hotspots, nodes, c, o);
    }
    event := HotspotsChanged(found, missed, changed);
  }

  lemma FiresLast(before: seq<Entry>, bssid: Text, o: seq<Ap>, c: seq<Ap>, after: seq<Entry>)
    requires DistinctBssids(o) && DistinctBssids(c) && Client(before) == TableOf(o)
    requires after == before + StrengthFired(bssid, c) + [Fired(Diff(o, c))]
    ensures after == before + Fires(bssid, o, c) && Client(after) == TableOf(c)
  {
    assert after == before + Fires(bssid, o, c);
    ClientFollowsReport(before, bssid, o, c);
  }

  class WifiDevice {
    /** BSSID of the current connection, empty if there is none. */
    var bssid: Text
    var signal: int
    var first: Hotspot?

    ghost var nodes: seq<Hotspot>
    /** What was fired on the bus, and where the list was emptied without an event. */
    ghost var history: seq<Entry>

    /** Over every run of the methods below, a client that replays the history
        holds the server's table. */
    ghost predicate Valid()
      reads this, nodes
    {
      && Linked(nodes) && first == Nth(nodes, 0)
      && DistinctBssids(Contents(nodes))
      && Client(history) == TableOf(Contents(nodes))
    }

    constructor ()
      ensures Valid() && history == [] && nodes == [] && bssid == []
    {
      bssid, signal, first := [], 0, null;
      nodes, history := [], [];
    }

    method FireEvent(notice: Notice)
      modifies this`history
      ensures history == old(history) + [Fired(notice)]
    {
      history := history + [Fired(notice)];
    }

    /** A scan report over freshly parsed nodes; `s` is the list as the sort
        loops leave it.  An empty scan changes nothing. */
    method ReportScan(hotspots: Hotspot?, number: int, ghost incoming: seq<Hotspot>) returns (ghost s: seq<Ap>)
      requires Valid() && Linked(incoming) && hotspots == Nth(incoming, 0) && number == |incoming|
      requires Apart(nodes, incoming)
      requires DistinctBssids(Contents(incoming)) && Unflagged(Contents(incoming))
      modifies this, incoming
      ensures Valid() && bssid == old(bssid)
      ensures hotspots == null ==> nodes == old(nodes) && history == old(history) && signal == old(signal)
      ensures hotspots != null ==>
        && TailSorted(old(Contents(incoming)), s)
        && nodes == incoming && Contents(nodes) == WithConnected(Forwarded(s, bssid), bssid)
        && history == old(history) + Fires(bssid, old(Contents(nodes)), Forwarded(s, bssid))
        && signal == if Leads(Forwarded(s, bssid), bssid) then Forwarded(s, bssid)[0].signal else old(signal)
    {
      s := [];
      if hotspots != null {
        ghost var o := Contents(nodes);
        s := ReorderApart(hotspots, number, incoming, o);
        FireAndStore(hotspots, number, o, Forwarded(s, bssid), incoming);
      }
    }

    /** Reordering the new nodes leaves the stored list alone. */
    method ReorderApart(hotspots: Hotspot, number: int, ghost incoming: seq<Hotspot>, ghost o: seq<Ap>)
      returns (ghost s: seq<Ap>)
      requires Linked(nodes) && Apart(nodes, incoming) && Contents(nodes) == o
      requires Linked(incoming) && incoming != [] && hotspots == incoming[0] && number == |incoming|
      requires DistinctBssids(Contents(incoming)) && Unflagged(Contents(incoming))
      modifies incoming
      ensures unchanged(this) && Linked(nodes) && Contents(nodes) == o
      ensures Linked(incoming) && Contents(incoming) == Forwarded(s, bssid) && TailSorted(old(Contents(incoming)), s)
      ensures DistinctBssids(Contents(incoming)) && Unflagged(Contents(incoming))
      ensures ConnectedLeads(Contents(incoming), bssid)
    {
      s := Reorder(hotspots, number, incoming);
    }

    method FireAndStore(hotspots: Hotspot, number: int, ghost o: seq<Ap>, ghost c: seq<Ap>,
                        ghost incoming: seq<Hotspot>)
      requires Linked(nodes) && first == Nth(nodes, 0) && Apart(nodes, incoming)
      requires Linked(incoming) && incoming != [] && hotspots == incoming[0] && number == |incoming|
      requires Contents(nodes) == o && DistinctBssids(o) && Client(history) == TableOf(o)
      requires Contents(incoming) == c && DistinctBssids(c) && Unflagged(c) && ConnectedLeads(c, bssid)
      modifies this`signal, this`history, this`first, this`nodes, incoming
      ensures bssid == old(bssid)
      ensures Valid() && nodes == incoming && Contents(nodes) == WithConnected(c, bssid)
      ensures history == old(history) + Fires(bssid, o, c)
      ensures signal == if Leads(c, bssid) then c[0].signal else old(signal)
    {
      FireReport(hotspots, number, o, c, incoming);
      StoreReport(hotspots, c, incoming);
    }

    method Reorder(hotspots: Hotspot, number: int, ghost incoming: seq<Hotspot>) returns (ghost s: seq<Ap>)
      requires Linked(incoming) && incoming != [] && hotspots == incoming[0] && number == |incoming|
      requires DistinctBssids(Contents(incoming)) && Unflagged(Contents(incoming))
      modifies incoming
      ensures Linked(incoming) && Contents(incoming) == Forwarded(s, bssid) && TailSorted(old(Contents(incoming)), s)
      ensures DistinctBssids(Contents(incoming)) && Unflagged(Contents(incoming))
      ensures ConnectedLeads(Contents(incoming), bssid)
    {
      ghost var c0 := Contents(incoming);
      SortTail(hotspots, number, incoming);
      s := Contents(incoming);
      BringForward(hotspots, bssid, incoming);
      ghost var c := Contents(incoming);
      SameElements(s, c);
      SameElements(c0, s);
      forall i | 0 <= i < |c| ensures !c[i].flagged {
        assert c[i] in s && c[i] in c0;
      }
    }

    method FireReport(hotspots: Hotspot, number: int, ghost o: seq<Ap>, ghost c: seq<Ap>, ghost incoming: seq<Hotspot>)
      requires Linked(nodes) && first == Nth(nodes, 0) && Apart(nodes, incoming)
      requires Linked(incoming) && incoming != [] && hotspots == incoming[0] && number == |incoming|
      requires Contents(nodes) == o && DistinctBssids(o) && Client(history) == TableOf(o)
      requires Contents(incoming) == c && DistinctBssids(c) && Unflagged(c)
      modifies this`signal, this`history, incoming
      ensures bssid == old(bssid)
      ensures Linked(incoming) && Contents(incoming) == c
      ensures history == old(history) + Fires(bssid, o, c) && Client(history) == TableOf(c)
      ensures signal == if Leads(c, bssid) then c[0].signal else old(signal)
    {
      FireStrength(hotspots, o, c, incoming);
      FireDiff(hotspots, number, o, c, incoming);
      FiresLast(old(history), bssid, o, c, history);
    }

    method FireDiff(hotspots: Hotspot, number: int, ghost o: seq<Ap>, ghost c: seq<Ap>, ghost incoming: seq<Hotspot>)
      requires Linked(nodes) && first == Nth(nodes, 0) && Apart(nodes, incoming) && Contents(nodes) == o
      requires Linked(incoming) && incoming != [] && hotspots == incoming[0] && number == |incoming|
      requires Contents(incoming) == c && DistinctBssids(c) && Unflagged(c)
      modifies this`history, incoming
      ensures Linked(incoming) && Contents(incoming) == c
      ensures history == old(history) + [Fired(Diff(o, c))]
    {
      var event := DiffLists(first, hotspots, number, o, c, nodes, incoming);
      FireEvent(event);
    }

    method FireStrength(hotspots: Hotspot, ghost o: seq<Ap>, ghost c: seq<Ap>, ghost incoming: seq<Hotspot>)
      requires Linked(nodes) && Contents(nodes) == o
      requires Linked(incoming) && incoming != [] && hotspots == incoming[0] && Contents(incoming) == c
      modifies this`signal, this`history
      ensures Linked(nodes) && Contents(nodes) == o && Linked(incoming) && Contents(incoming) == c
      ensures history == old(history) + StrengthFired(bssid, c)
      ensures signal == if Leads(c, bssid) then c[0].signal else old(signal)
    {
      assert hotspots.Content() == c[0];
      if bssid != [] && bssid == hotspots.bssid {
        signal := hotspots.signal;
        FireEvent(SignalStrengthChanged(hotspots.bssid, hotspots.ssid, hotspots.signal));
      }
    }

    /** Flags the connected access point and replaces the stored list, whose nodes are freed. */
    method StoreReport(hotspots: Hotspot, ghost c: seq<Ap>, ghost incoming: seq<Hotspot>)
      requires Linked(incoming) && incoming != [] && hotspots == incoming[0]
      requires Contents(incoming) == c && DistinctBssids(c) && Unflagged(c) && ConnectedLeads(c, bssid)
      requires Client(history) == TableOf(c)
      modifies this`first, this`nodes, hotspots`isConnect
      ensures bssid == old(bssid) && signal == old(signal) && history == old(history)
      ensures Valid() && nodes == incoming && Contents(nodes) == WithConnected(c, bssid)
    {
      FlagConnected(hotspots, c, incoming);
      first := hotspots;
      nodes := incoming;
      TableIgnoresFlags(c, bssid);
    }

    method FlagConnected(hotspots: Hotspot, ghost c: seq<Ap>, ghost incoming: seq<Hotspot>)
      requires Linked(incoming) && incoming != [] && hotspots == incoming[0]
      requires Contents(incoming) == c && DistinctBssids(c) && Unflagged(c) && ConnectedLeads(c, bssid)
      modifies hotspots`isConnect
      ensures Linked(incoming) && Contents(incoming) == WithConnected(c, bssid)
    {
      assert c[0] == hotspots.Content();
      forall i | 1 <= i < |c| && bssid != [] ensures c[i].bssid != bssid {
        assert Row(c, i) && Row(c, 0);
      }
      if bssid != [] && bssid == hotspots.bssid {
        SetFlag(hotspots, true, 0, incoming);
      }
    }

    /** A disconnect forgets the connection and frees the list; no event is fired. */
    method Disconnect()
      requires Valid()
      modifies this
      ensures Valid() && nodes == [] && bssid == [] && signal == 0 && history == old(history) + [Emptied]
    {
      bssid, signal := [], 0;
      EmptyList();
    }

    /** Closing the device frees the list; the connection fields stay. */
    method EmptyList()
      modifies this`first, this`nodes, this`history
      ensures Valid() && nodes == [] && history == old(history) + [Emptied]
    {
      first := null;
      nodes := [];
      history := history + [Emptied];
      ClientStep(old(history), Emptied);
    }

    /** The connection status query stores whatever BSSID the supplicant reports. */
    method SetConnection(newBssid: Text)
      requires Valid()
      modifies this`bssid
      ensures Valid() && bssid == newBssid && nodes == old(nodes) && history == old(history)
    {
      bssid := newBssid;
    }
  }
}
