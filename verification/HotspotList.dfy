/** The linked list of access points and its reordering in place: nodes stay
    where they are, their contents are exchanged (inetd/wifi.c). */
module HotspotList {
  import opened Bytes

  datatype Ap = Ap(bssid: Text, ssid: Text, frequency: Text, capabilities: Text, signal: int, flagged: bool)

  class Hotspot {
    var bssid: Text
    var ssid: Text
    var frequency: Text
    var capabilities: Text
    var signal: int
    var isConnect: bool
    var next: Hotspot?

    /** A zeroed node. */
    constructor ()
      ensures Content() == Ap([], [], [], [], 0, false) && next == null
    {
      bssid, ssid, frequency, capabilities := [], [], [], [];
      signal, isConnect, next := 0, false, null;
    }

    function Content(): Ap
      reads this
    {
      Ap(bssid, ssid, frequency, capabilities, signal, isConnect)
    }

    /** memcpy of a whole node, its link included. */
    method Store(content: Ap, link: Hotspot?)
      modifies this
      ensures Content() == content && next == link
    {
      bssid, ssid, frequency, capabilities := content.bssid, content.ssid, content.frequency, content.capabilities;
      signal, isConnect, next := content.signal, content.flagged, link;
    }
  }

  /** `i` is a position of the list. */
  predicate Row<T>(s: seq<T>, i: int) {
    0 <= i < |s|
  }

  /** `nodes` are, in order, all the nodes of the list that starts at `nodes[0]`. */
  ghost predicate Linked(nodes: seq<Hotspot>)
    reads nodes
  {
    && (forall i, j {:trigger Row(nodes, i), Row(nodes, j)} :: 
         Row(nodes, i) && Row(nodes, j) && i != j ==> nodes[i] != nodes[j])
    && (forall i {:trigger nodes[i].next} :: 0 <= i < |nodes| ==> nodes[i].next == Nth(nodes, i + 1))
  }

  ghost function Nth(nodes: seq<Hotspot>, i: nat): Hotspot? {
    if i < |nodes| then nodes[i] else null
  }

  ghost function Contents(nodes: seq<Hotspot>): (c: seq<Ap>)
    reads nodes
    ensures |c| == |nodes| && forall i :: 0 <= i < |c| ==> c[i] == nodes[i].Content()
  {
    seq(|nodes|, i requires 0 <= i < |nodes| reads nodes => nodes[i].Content())
  }

  function Swapped(c: seq<Ap>, i: nat, j: nat): seq<Ap>
    requires i < |c| && j < |c|
  {
    c[i := c[j]][j := c[i]]
  }

  /** Where `bssid` is in the list, or -1. */
  function Place(c: seq<Ap>, bssid: Text): (k: int)
    ensures k < 0 ==> k == -1 && forall i :: 0 <= i < |c| ==> c[i].bssid != bssid
    ensures k >= 0 ==> k < |c| && c[k].bssid == bssid && forall i :: 0 <= i < k ==> c[i].bssid != bssid
  {
    if c == [] then -1
    else
      var k := Place(c[..|c| - 1], bssid);
      if k >= 0 then k else if c[|c| - 1].bssid == bssid then |c| - 1 else -1
  }

  /** Every row is the first with its BSSID. */
  ghost predicate DistinctBssids(c: seq<Ap>) {
    forall i {:trigger Row(c, i)} :: Row(c, i) ==> Place(c, c[i].bssid) == i
  }

  lemma DistinctPair(c: seq<Ap>, i: nat, j: nat)
    requires DistinctBssids(c) && i < |c| && j < |c| && c[i].bssid == c[j].bssid
    ensures i == j
  {
    assert Row(c, i) && Row(c, j);
  }

  /** The payloads of `c` are those of `c0`, and no BSSID came to appear twice. */
  ghost predicate Rearranged(c0: seq<Ap>, c: seq<Ap>) {
    |c| == |c0| && multiset(c) == multiset(c0) && (DistinctBssids(c0) ==> DistinctBssids(c))
  }

  lemma SwapRearranges(c0: seq<Ap>, c: seq<Ap>, i: nat, j: nat)
    requires Rearranged(c0, c) && i < j < |c|
    ensures Rearranged(c0, Swapped(c, i, j))
  {
    SwapKeepsMultiset(c, i, j);
    if DistinctBssids(c0) {
      SwapKeepsDistinct(c, i, j);
    }
  }

  lemma SwapKeepsDistinct(c: seq<Ap>, i: nat, j: nat)
    requires DistinctBssids(c) && i < j < |c|
    ensures DistinctBssids(Swapped(c, i, j))
  {
    var d := Swapped(c, i, j);
    var from := m => if m == i then j else if m == j then i else m;
    forall m | Row(d, m) ensures Place(d, d[m].bssid) == m {
      var q := Place(d, d[m].bssid);
      DistinctPair(c, from(m), from(q));
    }
  }

  lemma SwapKeepsMultiset(c: seq<Ap>, i: nat, j: nat)
    requires i < j < |c|
    ensures multiset(Swapped(c, i, j)) == multiset(c)
  {
    assert c == c[..i] + [c[i]] + c[i + 1..j] + [c[j]] + c[j + 1..];
    assert Swapped(c, i, j) == c[..i] + [c[j]] + c[i + 1..j] + [c[i]] + c[j + 1..];
  }

  /** Exchanges two nodes: first their links, then their contents with the links
      in them, so that every node keeps its link and only the payloads move. */
  method ExchangeNodes(a: Hotspot, b: Hotspot)
    requires a != b
    modifies a, b
    ensures a.Content() == old(b.Content()) && b.Content() == old(a.Content())
    ensures a.next == old(a.next) && b.next == old(b.next)
  {
    var link := a.next;
    a.next := b.next;
    b.next := link;

    var copy, copyLink := a.Content(), a.next;
    a.Store(b.Content(), b.next);
    b.Store(copy, copyLink);
  }

  method Exchange(ghost nodes: seq<Hotspot>, ghost i: nat, ghost j: nat, a: Hotspot, b: Hotspot)
    requires Linked(nodes) && i < j < |nodes| && nodes[i] == a && nodes[j] == b
    modifies a, b
    ensures Linked(nodes) && Contents(nodes) == Swapped(old(Contents(nodes)), i, j) && b.next == old(b.next)
  {
    assert Row(nodes, i) && Row(nodes, j);
    ExchangeNodes(a, b);
    forall m | 0 <= m < |nodes| && m != i && m != j
      ensures nodes[m].Content() == old(nodes[m].Content()) && nodes[m].next == old(nodes[m].next)
    {
      assert Row(nodes, m);
    }
  }

  /** Non-increasing signal over the positions `lo .. hi-1`. */
  ghost predicate Descending(c: seq<Ap>, lo: nat, hi: nat) {
    && hi <= |c|
    && (forall p, q {:trigger Row(c, p), Row(c, q)} ::
          Row(c, p) && Row(c, q) && lo <= p < q < hi ==> c[p].signal >= c[q].signal)
  }

  /** What holds in the sort when the positions `1 .. i-1` are settled and
      position `i` is at least as strong as those before `j`. */
  ghost predicate Sorting(c0: seq<Ap>, c: seq<Ap>, i: nat, j: nat, number: nat) {
    && Rearranged(c0, c) && 1 <= i <= j <= number <= |c|
    && c[0] == c0[0] && c[number..] == c0[number..]
    && (forall p, q {:trigger Row(c, p), Row(c, q)} ::
          Row(c, p) && Row(c, q) && 1 <= p < i && p < q < number ==> c[p].signal >= c[q].signal)
    && (forall q :: i < q < j ==> c[i].signal >= c[q].signal)
  }

  lemma SortStep(c0: seq<Ap>, c: seq<Ap>, i: nat, j: nat, number: nat)
    requires Sorting(c0, c, i, j, number) && i < j < number
    ensures
      var c' := if c[i].signal < c[j].signal then Swapped(c, i, j) else c;
      Sorting(c0, c', i, j + 1, number)
  {
    SwapRearranges(c0, c, i, j);
    forall p, q | 1 <= p < i && p < q < number
      ensures Swapped(c, i, j)[p].signal >= Swapped(c, i, j)[q].signal
    {
      assert Row(c, p) && Row(c, q) && Row(c, i) && Row(c, j);
    }
  }

  lemma SortRoundDone(c0: seq<Ap>, c: seq<Ap>, i: nat, number: nat)
    requires Sorting(c0, c, i, number, number) && i < number
    ensures Sorting(c0, c, i + 1, i + 1, number)
  {
  }

  /** Orders the nodes after the head; the loops start at index 1. */
  method SortTail(hotspots: Hotspot, number: int, ghost nodes: seq<Hotspot>)
    requires Linked(nodes) && 0 <= number <= |nodes| && nodes != [] && nodes[0] == hotspots
    modifies nodes
    ensures Linked(nodes) && Rearranged(old(Contents(nodes)), Contents(nodes))
    ensures Contents(nodes)[0] == old(Contents(nodes))[0]
    ensures Contents(nodes)[number..] == old(Contents(nodes))[number..]
    ensures Descending(Contents(nodes), 1, number)
  {
    if number > 1 {
      ghost var c0 := Contents(nodes);
      var node: Hotspot? := hotspots;
      var i := 1;
      while i < number - 1
        invariant 1 <= i < number && node == nodes[i - 1]
        invariant Linked(nodes) && Sorting(c0, Contents(nodes), i, i, number)
      {
        node := node.next;
        SelectStrongest(node, i, number, c0, nodes);
        i := i + 1;
      }
    }
  }

  /** One turn of the inner loop. */
  method CompareExchange(a: Hotspot, b: Hotspot, ghost c0: seq<Ap>, ghost i: nat, ghost j: nat, ghost k: nat,
                         ghost number: nat, ghost nodes: seq<Hotspot>)
    returns (next: Hotspot?)
    requires Linked(nodes) && i < j < k == j + 1 <= number <= |nodes| && nodes[i] == a && nodes[j] == b
    requires Sorting(c0, Contents(nodes), i, j, number)
    modifies a, b
    ensures Linked(nodes) && Sorting(c0, Contents(nodes), i, k, number) && next == Nth(nodes, k)
  {
    SortStep(c0, Contents(nodes), i, j, number);
    if a.signal < b.signal {
      Exchange(nodes, i, j, a, b);
    }
    assert nodes[j].next == Nth(nodes, k);
    next := b.next;
  }

  /** The inner loop: brings the strongest of the positions `i .. number-1` to `i`. */
  method SelectStrongest(node: Hotspot, i: nat, number: int, ghost c0: seq<Ap>, ghost nodes: seq<Hotspot>)
    requires Linked(nodes) && 1 <= i < number - 1 && number <= |nodes| && nodes[i] == node
    requires Sorting(c0, Contents(nodes), i, i, number)
    modifies nodes
    ensures Linked(nodes) && Sorting(c0, Contents(nodes), i + 1, i + 1, number)
  {
    var tempnode := node.next;
    var j := i + 1;
    while j < number
      invariant i < j <= number && tempnode == Nth(nodes, j)
      invariant Linked(nodes) && Sorting(c0, Contents(nodes), i, j, number)
    {
      ghost var before := j;
      j := j + 1;
      tempnode := CompareExchange(node, tempnode, c0, i, before, j, number, nodes);
    }
    SortRoundDone(c0, Contents(nodes), i, number);
  }

  /** The first place behind the head that holds the BSSID, or 0. */
  function BehindHead(c: seq<Ap>, bssid: Text): (k: nat)
    ensures k == 0 ==> forall m :: 1 <= m < |c| ==> c[m].bssid != bssid
    ensures k > 0 ==> k < |c| && c[k].bssid == bssid && forall m :: 1 <= m < k ==> c[m].bssid != bssid
  {
    if c == [] then 0 else
      assert forall m :: 1 <= m < |c| ==> c[m] == c[1..][m - 1];
      Place(c[1..], bssid) + 1
  }

  /** The list with the connected access point exchanged with the head. */
  function Forwarded(c: seq<Ap>, bssid: Text): seq<Ap> {
    var k := BehindHead(c, bssid);
    if bssid != [] && k > 0 then Swapped(c, 0, k) else c
  }

  /** Brings the connected access point to the front by exchanging it with the head. */
  method BringForward(hotspots: Hotspot, bssid: Text, ghost nodes: seq<Hotspot>)
    requires Linked(nodes) && nodes != [] && nodes[0] == hotspots
    modifies nodes
    ensures Linked(nodes) && Rearranged(old(Contents(nodes)), Contents(nodes))
    ensures Contents(nodes) == Forwarded(old(Contents(nodes)), bssid)
  {
    if |bssid| != 0 {
      ghost var c := Contents(nodes);
      ghost var k := 0;
      var node: Hotspot? := hotspots;
      while node != null && !(bssid == node.bssid && node != hotspots)
        invariant 0 <= k <= |nodes| && node == Nth(nodes, k)
        invariant forall m :: 1 <= m < k ==> c[m].bssid != bssid
        decreases |nodes| - k
      {
        assert c[k] == node.Content() && nodes[k].next == Nth(nodes, k + 1);
        assert Row(nodes, 0) && Row(nodes, k);
        node := node.next;
        k := k + 1;
      }
      if node != null {
        assert c[k] == node.Content() && BehindHead(c, bssid) == k;
        SwapRearranges(c, c, 0, k);
        Exchange(nodes, 0, k, hotspots, node);
      }
    }
  }

  /** What the sort loops leave: the same payloads, the head in place, the rest by signal. */
  ghost predicate TailSorted(c0: seq<Ap>, s: seq<Ap>) {
    c0 != [] && Rearranged(c0, s) && s[0] == c0[0] && Descending(s, 1, |s|)
  }

  /** After the exchange a connected access point present anywhere is first, and
      only the place it was taken from may break the order of the others. */
  lemma ConnectedFirst(c0: seq<Ap>, s: seq<Ap>, bssid: Text)
    requires TailSorted(c0, s) && bssid != []
    ensures Rearranged(c0, Forwarded(s, bssid))
    ensures (exists i :: 0 <= i < |c0| && c0[i].bssid == bssid) ==> Forwarded(s, bssid)[0].bssid == bssid
    ensures forall p, q :: 1 <= p < q < |s| && p != BehindHead(s, bssid) && q != BehindHead(s, bssid) ==>
      Forwarded(s, bssid)[p].signal >= Forwarded(s, bssid)[q].signal
  {
    forall p, q | 1 <= p < q < |s| && p != BehindHead(s, bssid) && q != BehindHead(s, bssid)
      ensures Forwarded(s, bssid)[p].signal >= Forwarded(s, bssid)[q].signal
    {
      assert Row(s, p) && Row(s, q);
    }
    if BehindHead(s, bssid) > 0 {
      SwapRearranges(c0, s, 0, BehindHead(s, bssid));
    }
    SameElements(c0, s);
    forall i | 0 <= i < |c0| && c0[i].bssid == bssid ensures Forwarded(s, bssid)[0].bssid == bssid {
      assert c0[i] in s;
    }
  }

  lemma SameElements(c0: seq<Ap>, c: seq<Ap>)
    requires Rearranged(c0, c)
    ensures forall ap :: ap in c <==> ap in c0
  {
    forall ap ensures ap in c <==> ap in c0 {
      assert ap in multiset(c) <==> ap in multiset(c0);
    }
  }
}
