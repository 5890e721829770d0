/** get_wifimanager_info: from the text of the scan table to the linked list of
    access points (wifi/wifi.c). */
module ScanParser {
  import opened Bytes
  import opened PrintfCodec
  import opened SsidCodec
  import opened Decimal
  import opened Lines
  import opened LineWalk
  import opened HotspotList
  import opened NodeLayout
  import opened ScanTable

  const CONTENT_SIZE := 64

  /** The node a row becomes. */
  function ApOf(r: ScanRow): Ap {
    Ap(r.bssid, UpToNul(Changed(Encode(r.ssid), 0)), r.frequency, r.flags, 100 + r.level, false)
  }

  function ApsOf(rows: seq<ScanRow>): seq<Ap> {
    seq(|rows|, i requires 0 <= i < |rows| => ApOf(rows[i]))
  }

  const BLANK := Ap([], [], [], [], 0, false)

  /** Unescaped, the SSID and its terminator have room in a field: every SSID has
      but one of 32 octets that all have two-character escapes. */
  predicate FitsSsid(ssid: Text) {
    !(|ssid| == SSID_MAX_LEN && forall i :: 0 <= i < |ssid| ==> ShortEscaped(ssid[i]))
  }

  /** Every column has room in the field of the node it is copied into. */
  predicate FitsNode(r: ScanRow) {
    && |r.bssid| < HOTSPOT_STRING_LENGTH && |r.frequency| < HOTSPOT_STRING_LENGTH
    && |r.flags| < HOTSPOT_STRING_LENGTH && FitsSsid(r.ssid)
  }

  ghost predicate FitNodes(rows: seq<ScanRow>) {
    forall i :: 0 <= i < |rows| ==> FitsNode(rows[i])
  }

  lemma {:induction false} ShownSize(s: Text)
    ensures |Spread(ShownByte, s)| <= 2 * |s|
    ensures |Spread(ShownByte, s)| == 2 * |s| <==> forall i :: 0 <= i < |s| ==> ShortEscaped(s[i])
  {
    if s != [] {
      ShownSize(s[1..]);
      assert s == [s[0]] + s[1..];
      assert |ShownByte(s[0])| == if ShortEscaped(s[0]) then 2 else 1;
    }
  }

  /** The unescaped SSID leaves room for its terminator exactly when it fits. */
  lemma RoomExactly(ssid: Text)
    requires |ssid| <= SSID_MAX_LEN
    ensures |Changed(Encode(ssid), 0)| <= CONTENT_SIZE
    ensures |Changed(Encode(ssid), 0)| < CONTENT_SIZE <==> FitsSsid(ssid)
  {
    ChangedEncode(ssid, 0);
    ShownSize(ssid);
  }

  /** The reader's buffer once an SSID is unescaped into it: the rest is cleared. */
  function Content(d: Text): (t: Text)
    requires |d| <= CONTENT_SIZE
    ensures |t| == CONTENT_SIZE
  {
    d + seq(CONTENT_SIZE - |d|, i => NUL)
  }

  /** What strlen measures and memcpy takes: the text in the buffer, which may go on
      in what lies behind it. */
  function Taken(r: ScanRow, behind: Text): Text
    requires CleanRow(r)
  {
    RoomExactly(r.ssid);
    UpToNul(Content(Changed(Encode(r.ssid), 0)) + behind)
  }

  lemma TakenLength(r: ScanRow, behind: Text)
    requires CleanRow(r)
    ensures if FitsSsid(r.ssid) then Taken(r, behind) == ApOf(r).ssid && |ApOf(r).ssid| < CONTENT_SIZE
            else |Taken(r, behind)| >= CONTENT_SIZE
  {
    RoomExactly(r.ssid);
    var d := Changed(Encode(r.ssid), 0);
    var t := Content(d) + behind;
    assert t[..|d|] == d;
    if FitsSsid(r.ssid) {
      assert t[|d|] == NUL;
      UpToNulWithin(t, d);
    } else {
      ChangedEncode(r.ssid, 0);
      ShownNulFree(r.ssid);
      assert forall j :: 0 <= j < |d| ==> t[j] == t[..|d|][j];
    }
  }

  lemma UpToNulWithin(t: Text, d: Text)
    requires |d| < |t| && t[..|d|] == d && t[|d|] == NUL
    ensures UpToNul(t) == UpToNul(d) && |UpToNul(d)| <= |d|
  {
    assert forall j :: 0 <= j < |d| ==> t[j] == t[..|d|][j] == d[j];
    var k := IndexOf(t, NUL);
    assert t[..k] == d[..k];
    assert d[..|d|] == d;
  }

  /** The node's bytes after the copies, whatever lies behind the reader's buffer. */
  function NodeOf(r: ScanRow, behind: Text): (image: Text)
    requires CleanRow(r)
    ensures |image| == NEXT_AT
  {
    NodeImage(r.bssid, r.frequency, 100 + r.level, r.flags, Taken(r, behind))
  }

  /** The bytes of the node hold the row after the copies. */
  predicate NodeHolds(r: ScanRow, behind: Text)
    requires CleanRow(r)
  {
    var ap := ApOf(r);
    Keeps(NodeOf(r, behind), ap.bssid, ap.frequency, ap.signal, ap.capabilities, ap.ssid)
  }

  lemma NodeKeepsRow(r: ScanRow, behind: Text)
    requires CleanRow(r)
    ensures NodeHolds(r, behind) <==> FitsNode(r)
  {
    var ap := ApOf(r);
    TakenLength(r, behind);
    assert NulFree(ap.bssid) && NulFree(ap.frequency) && NulFree(ap.capabilities) && NulFree(Taken(r, behind));
    KeepsExactly(ap.bssid, ap.frequency, ap.signal, ap.capabilities, Taken(r, behind));
    if !FitsSsid(r.ssid) {
      SsidIsLost(ap.bssid, ap.frequency, ap.signal, ap.capabilities, Taken(r, behind));
    }
  }

  /** 32 quotes: the node's SSID has no terminator in its field. */
  lemma QuotesAreLost(r: ScanRow, behind: Text)
    requires CleanRow(r) && r.ssid == seq(SSID_MAX_LEN, i => QUOTE)
    ensures FieldText(NodeOf(r, behind), SSID_AT) == None
  {
    TakenLength(r, behind);
    SsidIsLost(r.bssid, r.frequency, 100 + r.level, r.flags, Taken(r, behind));
  }

  /** A row keeps its SSID exactly when no octet of it is NUL or has a
      two-character escape. */
  lemma SsidKept(r: ScanRow)
    ensures ApOf(r).ssid == r.ssid <==> NulFree(r.ssid) && forall i :: 0 <= i < |r.ssid| ==> !ShortEscaped(r.ssid[i])
  {
    ChangedEncode(r.ssid, 0);
    ShownLength(r.ssid);
    ChangeStringInvertsEncode(r.ssid, 0);
    assert NulFree(ApOf(r).ssid);
    if NulFree(r.ssid) {
      ShownNulFree(r.ssid);
    }
  }

  lemma {:induction false} ShownNulFree(s: Text)
    requires NulFree(s)
    ensures NulFree(Spread(ShownByte, s))
  {
    if s != [] {
      ShownNulFree(s[1..]);
    }
  }

  /** change_string into a buffer on the stack, then the text in it. */
  method UnescapedSsid(src: Text) returns (ssid: Text)
    requires |Changed(src, 0)| < CONTENT_SIZE
    ensures ssid == UpToNul(Changed(src, 0))
  {
    var content := new byte[CONTENT_SIZE];
    ChangeString(src, content);
    ghost var d := Changed(src, 0);
    ghost var k := if IndexOf(d, NUL) < 0 then |d| else IndexOf(d, NUL);
    assert content[..|d|] == d;
    forall j | 0 <= j <= k ensures j < k ==> content[j] != NUL {
      assert j < k ==> content[j] == d[j];
    }
    assert k < |d| ==> content[k] == d[k];
    var stop := StrEnd(content, 0, k);
    ssid := content[..stop];
    assert ssid == d[..k];
  }

  lemma ColumnLists(r: ScanRow) returns (f0: seq<Text>, f2: seq<Text>)
    requires CleanRow(r)
    ensures f0 == Fields(r) && f2 == f0[2..] && |f0| == 5 && |f2| == 3 && f2[2..] == [Encode(r.ssid)]
    ensures f0[0] == r.bssid && f0[1] == r.frequency && f2[0] == Print(r.level) && f2[1] == r.flags
    ensures Without(f0[0], TAB) && Without(f0[1], TAB) && Without(f2[0], TAB) && Without(f2[1], TAB)
    ensures |RowText(r)| == |r.bssid| + |r.frequency| + |Print(r.level)| + |r.flags| + |Encode(r.ssid)| + 4
  {
    f0 := Fields(r);
    f2 := f0[2..];
    FieldsAreClean(r);
    RowLength(f0);
    assert Clean(f0[0]) && Clean(f0[1]) && Clean(f0[2]) && Clean(f0[3]);
  }

  /** The columns in front of the SSID, and where the SSID starts. */
  method ReadColumns(buf: array<byte>, p: nat, ghost end: nat, ghost r: ScanRow, ghost rest: Text)
    returns (bssid: Text, frequency: Text, level: Text, flags: Text, tempstart: nat)
    requires CString(buf, p, end) && buf[p..end] == RowText(r) + rest && CleanRow(r)
    ensures bssid == r.bssid && frequency == r.frequency && level == Print(r.level) && flags == r.flags
    ensures tempstart == p + |RowText(r)| - |Encode(r.ssid)| && p <= tempstart <= end
    ensures buf[tempstart..end] == Encode(r.ssid) + rest
  {
    ghost var f0, f2 := ColumnLists(r);
    bssid, frequency, tempstart := ReadTwo(buf, p, end, f0, rest);
    level, flags, tempstart := ReadTwo(buf, tempstart, end, f2, rest);
  }

  /** The SSID column up to the end of its line, unescaped. */
  method ReadSsid(buf: array<byte>, tempstart: nat, ghost end: nat, ghost column: Text, ghost rest: Text)
    returns (ssid: Text, tempend: int)
    requires CString(buf, tempstart, end) && buf[tempstart..end] == column + rest && Clean(column)
    requires |Changed(column, 0)| < CONTENT_SIZE && (rest == [] || rest[0] == NEWLINE)
    ensures ssid == UpToNul(Changed(column, 0))
    ensures tempend == if rest == [] then -1 else tempstart + |column|
  {
    SsidColumn(column, rest);
    tempend := StrChr(buf, tempstart, end, NEWLINE);
    var last := StrEnd(buf, tempstart, end);
    if tempend != -1 {
      last := tempend;
    }
    SliceOfSlice(buf, tempstart, end, tempstart, last);
    ssid := UnescapedSsid(buf[tempstart..last]);
  }

  /** Reads one row into a blank node; `rest` is what follows the row. */
  method FillNode(node: Hotspot, buf: array<byte>, p: nat, ghost end: nat, ghost r: ScanRow, ghost rest: Text)
    returns (tempend: int)
    requires CString(buf, p, end) && buf[p..end] == RowText(r) + rest && CleanRow(r)
    requires FitsNode(r) && node.Content() == BLANK
    requires rest == [] || rest[0] == NEWLINE
    modifies node`bssid, node`ssid, node`frequency, node`capabilities, node`signal
    ensures node.Content() == ApOf(r)
    ensures tempend == if rest == [] then -1 else p + |RowText(r)|
  {
    RoomExactly(r.ssid);
    var bssid, frequency, level, flags, tempstart := ReadColumns(buf, p, end, r, rest);
    LevelIsRead(r.level);
    FieldsAreClean(r);
    assert Clean(Fields(r)[4]);
    var ssid;
    ssid, tempend := ReadSsid(buf, tempstart, end, Encode(r.ssid), rest);
    node.bssid, node.frequency, node.signal, node.capabilities := bssid, frequency, 100 + Atoi(level), flags;
    node.ssid := ssid;
  }

  lemma LevelIsRead(level: int)
    ensures Atoi(Print(level)) == level
  {
    AtoiPrinted(level, []);
    assert Print(level) + [] == Print(level);
  }

  lemma RowLength(fields: seq<Text>)
    requires |fields| == 5
    ensures |Joined(TAB, fields)| == |fields[0]| + |fields[1]| + |fields[2]| + |fields[3]| + |fields[4]| + 4
  {
    JoinedLength(fields);
    JoinedLength(fields[1..]);
    JoinedLength(fields[2..]);
    JoinedLength(fields[3..]);
    assert fields[1..][1..] == fields[2..] && fields[2..][1..] == fields[3..] && fields[3..][1..] == [fields[4]];
  }

  lemma JoinedLength(columns: seq<Text>)
    requires |columns| > 1
    ensures |Joined(TAB, columns)| == |columns[0]| + 1 + |Joined(TAB, columns[1..])|
  {
  }

  lemma SsidColumn(column: Text, rest: Text)
    requires Clean(column) && (rest == [] || rest[0] == NEWLINE)
    ensures (column + rest)[..|column|] == column
    ensures IndexOf(column + rest, NEWLINE) == if rest == [] then -1 else |column|
  {
    if rest == [] {
      assert column + rest == column;
    } else {
      assert (column + rest)[|column|] == NEWLINE;
    }
  }

  // ----- the list

  /** A new node behind the last one. */
  method AppendNode(ghost nodes: seq<Hotspot>, last: Hotspot) returns (node: Hotspot)
    requires Linked(nodes) && nodes != [] && nodes[|nodes| - 1] == last
    modifies last`next
    ensures fresh(node) && Linked(nodes + [node]) && node.Content() == BLANK
    ensures Contents(nodes + [node]) == old(Contents(nodes)) + [BLANK]
  {
    node := new Hotspot();
    assert forall i {:trigger nodes[i].next} :: 0 <= i < |nodes| ==> nodes[i].next == Nth(nodes, i + 1);
    assert Row(nodes, |nodes| - 1);
    last.next := node;
    ghost var all := nodes + [node];
    forall i | 0 <= i < |all| ensures all[i].next == Nth(all, i + 1) {
      assert i < |nodes| ==> all[i] == nodes[i] && Row(nodes, i);
    }
    forall i, j | Row(all, i) && Row(all, j) && i != j ensures all[i] != all[j] {
      assert i < |nodes| && j < |nodes| ==> Row(nodes, i) && Row(nodes, j);
    }
  }

  /** The nodes so far: one for each row read, and a blank one for the row at hand. */
  ghost predicate Building(nodes: seq<Hotspot>, rows: seq<ScanRow>, i: nat)
    reads nodes
  {
    i < |rows| && |nodes| == i + 1 && Linked(nodes) && Contents(nodes) == ApsOf(rows[..i]) + [BLANK]
  }

  method FillAt(ghost nodes: seq<Hotspot>, ghost i: nat, node: Hotspot, buf: array<byte>, p: nat, ghost end: nat,
                ghost r: ScanRow, ghost rest: Text)
    returns (tempend: int)
    requires Linked(nodes) && i < |nodes| && node == nodes[i] && Contents(nodes)[i] == BLANK
    requires CString(buf, p, end) && buf[p..end] == RowText(r) + rest && CleanRow(r)
    requires FitsNode(r) && (rest == [] || rest[0] == NEWLINE)
    modifies node`bssid, node`ssid, node`frequency, node`capabilities, node`signal
    ensures Linked(nodes) && Contents(nodes) == old(Contents(nodes))[i := ApOf(r)]
    ensures tempend == if rest == [] then -1 else p + |RowText(r)|
  {
    ghost var was := Contents(nodes);
    tempend := FillNode(node, buf, p, end, r, rest);
    forall j | 0 <= j < |nodes| ensures nodes[j].Content() == was[i := ApOf(r)][j] {
      assert Row(nodes, i) && Row(nodes, j);
    }
  }

  method FillRow(buf: array<byte>, p: nat, ghost end: nat, ghost rows: seq<ScanRow>, ghost i: nat, node: Hotspot,
                 ghost nodes: seq<Hotspot>)
    returns (tempend: int)
    requires CleanRows(rows) && FitNodes(rows) && Building(nodes, rows, i) && node == nodes[i]
    requires AtLines(buf, p, end, RowTexts(rows)[i..])
    modifies node`bssid, node`ssid, node`frequency, node`capabilities, node`signal
    ensures Linked(nodes) && Contents(nodes) == ApsOf(rows[..i + 1])
    ensures if i + 1 == |rows| then tempend == -1
            else 0 <= tempend < end && AtLines(buf, tempend, end, [[]] + RowTexts(rows)[i + 1..])
  {
    ghost var lines := RowTexts(rows)[i..];
    assert lines[0] == RowText(rows[i]) && lines[1..] == RowTexts(rows)[i + 1..];
    assert CleanRow(rows[i]);
    ghost var rest := if |lines| == 1 then [] else [NEWLINE] + Joined(NEWLINE, lines[1..]);
    RowThenRest(lines);
    LineFollows(buf, p, end, lines);
    ApsNext(rows, i);
    tempend := FillAt(nodes, i, node, buf, p, end, rows[i], rest);
  }

  lemma ApsNext(rows: seq<ScanRow>, i: nat)
    requires i < |rows|
    ensures (ApsOf(rows[..i]) + [BLANK])[i] == BLANK
    ensures (ApsOf(rows[..i]) + [BLANK])[i := ApOf(rows[i])] == ApsOf(rows[..i + 1])
  {
  }

  lemma LineFollows(buf: array<byte>, p: nat, end: nat, lines: seq<Text>)
    requires AtLines(buf, p, end, lines)
    ensures |lines| > 1 ==> p + |lines[0]| < end && AtLines(buf, p + |lines[0]|, end, [[]] + lines[1..])
  {
    if |lines| > 1 {
      PartThenRest(NEWLINE, lines);
      var q := p + |lines[0]|;
      assert buf[q..end] == buf[p..end][|lines[0]|..];
      var after := [[]] + lines[1..];
      forall i | 0 <= i < |after| ensures Without(after[i], NEWLINE) {
        assert i > 0 ==> after[i] == lines[i];
      }
    }
  }

  lemma OneNode(node: Hotspot)
    requires node.next == null
    ensures Linked([node]) && Contents([node]) == [node.Content()]
  {
    var nodes := [node];
    assert forall i, j :: Row(nodes, i) && Row(nodes, j) ==> i == j;
  }

  /** `i` rows are read, and `node` is the blank one for the row behind `tempend`. */
  ghost predicate Reading(buf: array<byte>, tempend: int, end: nat, rows: seq<ScanRow>, i: nat, node: Hotspot,
                          nodes: seq<Hotspot>)
    reads buf, nodes
  {
    if tempend == -1 then
      i == |rows| && (rows != [] ==> Linked(nodes) && Contents(nodes) == ApsOf(rows))
    else
      && Building(nodes, rows, i) && node == nodes[i]
      && 0 <= tempend < end && AtLines(buf, tempend, end, [[]] + RowTexts(rows)[i..])
  }

  /** The list handed to report_wifi_scan_info, and how many rows it is said to have. */
  method GetWifimanagerInfo(results: array<byte>, ghost end: nat, ghost rows: seq<ScanRow>)
    returns (firstnode: Hotspot?, number: nat, ghost nodes: seq<Hotspot>)
    requires CString(results, 0, end) && results[..end] == Table(rows)
    requires CleanRows(rows) && FitNodes(rows)
    ensures number == |rows| == |nodes| && firstnode == Nth(nodes, 0)
    ensures Linked(nodes) && Contents(nodes) == ApsOf(rows) && fresh(set n | n in nodes)
  {
    var node := new Hotspot();
    firstnode, number := node, 0;
    nodes := [node];
    OneNode(node);
    var tempend := StrChr(results, 0, end, NEWLINE);
    FirstNewline(results, end, rows);
    assert RowTexts(rows)[0..] == RowTexts(rows) && ApsOf(rows[..0]) == [];
    while tempend != -1
      invariant nodes != [] && firstnode == nodes[0] && fresh(set n | n in nodes)
      invariant Reading(results, tempend, end, rows, number, node, nodes)
      decreases |rows| - number, tempend != -1
    {
      ghost var i := number;
      number := number + 1;
      tempend, node, nodes := NextNode(results, tempend, end, rows, i, number, node, nodes);
    }
    if number == 0 {
      firstnode := null;
      nodes := [];
      assert Contents(nodes) == ApsOf(rows);
    }
  }

  /** One turn of the loop: fills the node at hand and, unless the row was the
      last one, appends the next. */
  method NextNode(buf: array<byte>, p: int, ghost end: nat, ghost rows: seq<ScanRow>, ghost i: nat, ghost k: nat,
                  node: Hotspot, ghost nodes: seq<Hotspot>)
    returns (tempend: int, next: Hotspot, ghost longer: seq<Hotspot>)
    requires CleanRows(rows) && FitNodes(rows)
    requires Reading(buf, p, end, rows, i, node, nodes) && p != -1 && k == i + 1
    modifies node
    ensures nodes <= longer && fresh(set n | n in longer && n !in nodes)
    ensures Reading(buf, tempend, end, rows, k, next, longer)
  {
    NextLine(buf, p, end, RowTexts(rows)[i..]);
    tempend := FillRow(buf, p + 1, end, rows, i, node, nodes);
    next, longer := node, nodes;
    assert rows[..|rows|] == rows;
    if tempend != -1 {
      next := AppendNode(nodes, node);
      longer := nodes + [next];
    }
  }
}
