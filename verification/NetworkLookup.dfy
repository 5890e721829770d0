/** wpa_conf_is_ap_exist: looking an SSID up in the listing by substring search
    (wpa_supplicant_conf.c). */
module NetworkLookup {
  import opened Bytes
  import opened Decimal
  import opened Lines
  import opened LineWalk
  import opened Supplicant
  import opened NetworkListing

  datatype KeyMgmt = NoKey | WpaPsk | Wpa2Psk | Wep | OtherKeyMgmt

  const WPA_PSK: Text := Ascii("WPA-PSK")
  const NONE: Text := Ascii("NONE")
  const CURRENT_WORD: Text := Ascii("CURRENT")

  function KeyType(keyMgmt: KeyMgmt): Text {
    if keyMgmt == WpaPsk || keyMgmt == Wpa2Psk then WPA_PSK else NONE
  }

  /** The SSID's first occurrence in the row is the end of a column. */
  predicate Hit(row: Text, ssid: Text) {
    var k := Find(row, ssid);
    k >= 0 && k + |ssid| < |row| && row[k + |ssid|] == TAB
  }

  /** The SSID's first occurrence in the lines starts in the first of them, or at
      the newline behind it, and a TAB follows. */
  predicate HitLines(lines: seq<Text>, ssid: Text)
    requires lines != []
  {
    var t := Joined(NEWLINE, lines);
    var k := Find(t, ssid);
    0 <= k <= |lines[0]| && k + |ssid| < |t| && t[k + |ssid|] == TAB
  }

  /** Without a newline in the SSID only the first line matters. */
  lemma HitInLine(lines: seq<Text>, ssid: Text)
    requires lines != [] && ssid != [] && Without(ssid, NEWLINE)
    ensures HitLines(lines, ssid) <==> Hit(lines[0], ssid)
  {
    StartsInPart(NEWLINE, lines, ssid);
    HeadAt(NEWLINE, lines);
    var t, n := Joined(NEWLINE, lines), |lines[0]|;
    assert forall m :: 0 <= m < n ==> t[m] == t[..n][m] == lines[0][m];
  }

  predicate Serves(n: Network, keyType: Text) {
    Stripped(n.keyMgmt) == keyType
  }

  /** A lookup: the rows shown, the current network among them, the SSID and the key type wanted. */
  datatype Search = Search(ns: seq<Network>, current: Text, ssid: Text, keyType: Text) {
    function Row(i: nat): Text
      requires i < |ns|
    {
      RowText(ns[i], current)
    }

    /** The rows from `i` on. */
    function Rows(i: nat): seq<Text>
      requires i <= |ns|
    {
      RowTexts(ns[i..], current)
    }

    /** Looked for from row `i` on, the SSID starts in that row or at its end. */
    predicate StartsAt(i: nat)
      requires i < |ns|
    {
      StartsIn(NEWLINE, Rows(i), 0, ssid)
    }

    predicate HitAt(i: nat)
      requires i < |ns|
    {
      HitLines(Rows(i), ssid)
    }
  }

  /** The value returned and the last row whose key type was asked for, or -1. */
  datatype Found = Found(flag: int, hit: int)

  function RowFlag(row: Text): int {
    if Contains(row, CURRENT_WORD) then 2 else 0
  }

  function Lookup(q: Search, i: nat, sofar: Found): Found
    decreases |q.ns| - i
  {
    if i >= |q.ns| then sofar
    else if !q.HitAt(i) then Lookup(q, i + 1, sofar)
    else if Serves(q.ns[i], q.keyType) then Found(RowFlag(q.Row(i)) + 1, i)
    else Lookup(q, i + 1, Found(RowFlag(q.Row(i)), i))
  }

  /** The key type queries of the lookup from row `i` on. */
  function Queries(q: Search, i: nat): seq<Command>
    decreases |q.ns| - i
  {
    if i >= |q.ns| then []
    else if !q.HitAt(i) then Queries(q, i + 1)
    else if Serves(q.ns[i], q.keyType) then [GetKeyMgmt(q.ns[i].id)]
    else [GetKeyMgmt(q.ns[i].id)] + Queries(q, i + 1)
  }

  const NOTHING_FOUND := Found(0, -1)

  /** Rows before `i` are dealt with: `done` queries were answered and `f` is the result so far. */
  ghost predicate Progress(q: Search, i: nat, done: nat, f: Found) {
    && i <= |q.ns| && done <= |Queries(q, 0)| && Queries(q, 0)[done..] == Queries(q, i)
    && Lookup(q, 0, NOTHING_FOUND) == Lookup(q, i, f)
  }

  ghost predicate NotIn(q: Search, i: nat, k: nat) {
    i <= k <= |q.ns| && forall r :: i <= r < k ==> !q.StartsAt(r)
  }

  /** Rows in which the SSID does not start are passed over. */
  lemma {:induction false} RowsSkipped(q: Search, i: nat, k: nat, done: nat, f: Found)
    requires NotIn(q, i, k) && Progress(q, i, done, f)
    ensures Progress(q, k, done, f)
    decreases k - i
  {
    if i < k {
      assert !q.StartsAt(i) && q.Rows(i)[0..] == q.Rows(i);
      RowsSkipped(q, i + 1, k, done, f);
    }
  }

  lemma RowAsked(q: Search, i: nat, k: nat, done: nat, f: Found)
    requires i < k == i + 1 <= |q.ns| && Progress(q, i, done, f) && q.HitAt(i)
    ensures var cs := Queries(q, 0);
      done < |cs| && cs[done] == GetKeyMgmt(q.ns[i].id) &&
      if Serves(q.ns[i], q.keyType)
      then Lookup(q, 0, NOTHING_FOUND) == Found(RowFlag(q.Row(i)) + 1, i) && done + 1 == |cs|
      else Progress(q, k, done + 1, Found(RowFlag(q.Row(i)), i))
  {
    var cs := Queries(q, 0);
    assert cs[done..][0] == cs[done];
    assert cs[done + 1..] == cs[done..][1..];
  }

  // ----- the walk

  /** Line `j` of those at `p` lies between `from` and `to`. */
  ghost predicate LineAt(buf: array<byte>, p: nat, end: nat, lines: seq<Text>, j: nat, from: nat, to: nat)
    reads buf
  {
    && j < |lines| && p <= from <= to <= end < buf.Length && buf[from..to] == lines[j]
    && (if j > 0 then p < from && buf[from - 1] == NEWLINE else from == p)
    && (if j + 1 == |lines| then to == end else to < end && AtLines(buf, to, end, [[]] + lines[j + 1..]))
  }

  lemma LineIsAt(buf: array<byte>, p: nat, end: nat, lines: seq<Text>, j: nat) returns (from: nat, to: nat)
    requires AtLines(buf, p, end, lines) && j < |lines|
    ensures from == p + Offset(lines, 0, j) && LineAt(buf, p, end, lines, j, from, to)
  {
    PartAt(NEWLINE, lines, j);
    from := p + Offset(lines, 0, j);
    to := from + |lines[j]|;
    LineFollows(buf, p, end, lines, j, from, to);
  }

  /** strstr over the remaining lines: it stops in the first line in which the
      SSID starts, or at the newline behind it. */
  method FindLine(buf: array<byte>, p: nat, ghost end: nat, ghost lines: seq<Text>, ssid: Text)
    returns (s: int, ghost j: int, ghost from: nat, ghost to: nat)
    requires AtLines(buf, p, end, lines) && ssid != [] && NulFree(ssid)
    ensures j == FirstStart(NEWLINE, lines, ssid, 0)
    ensures if j < 0 then s == -1
            else LineAt(buf, p, end, lines, j, from, to) && FoundAt(buf, end, lines, j, from, ssid, s)
  {
    s := StrStr(buf, p, end, ssid);
    j, from, to := FirstStart(NEWLINE, lines, ssid, 0), p, p;
    assert lines[0..] == lines;
    FindFirstStart(NEWLINE, lines, ssid, 0);
    if j >= 0 {
      from, to := LineIsAt(buf, p, end, lines, j);
      JoinedTail(NEWLINE, lines, j, lines[j..]);
      TailOfSlice(buf, p, end, from);
    }
  }

  /** Line `j` starts at `from`, and the SSID is first found from there at `s`. */
  ghost predicate FoundAt(buf: array<byte>, end: nat, lines: seq<Text>, j: nat, from: nat, ssid: Text, s: int)
    reads buf
  {
    && j < |lines| && from <= end < buf.Length && buf[from..end] == Joined(NEWLINE, lines[j..])
    && s == from + Find(Joined(NEWLINE, lines[j..]), ssid) && StartsIn(NEWLINE, lines, j, ssid)
  }

  lemma LineFollows(buf: array<byte>, p: nat, end: nat, lines: seq<Text>, j: nat, from: nat, to: nat)
    requires AtLines(buf, p, end, lines) && j < |lines| && p <= from <= to <= end
    requires var s, o, n := buf[p..end], from - p, |lines[j]|;
      && to == from + n && s[o..o + n] == lines[j] && (if j > 0 then o > 0 && s[o - 1] == NEWLINE else o == 0)
      && (if j + 1 == |lines| then o + n == |s|
          else o + n < |s| && s[o + n..] == Joined(NEWLINE, [[]] + lines[j + 1..]))
    ensures LineAt(buf, p, end, lines, j, from, to)
  {
    SliceOfSlice(buf, p, end, from, to);
    if j + 1 < |lines| {
      RestFollows(buf, p, end, lines, to, [[]] + lines[j + 1..]);
    }
  }

  lemma RestFollows(buf: array<byte>, p: nat, end: nat, lines: seq<Text>, to: nat, rest: seq<Text>)
    requires AtLines(buf, p, end, lines) && p <= to <= end
    requires rest != [] && rest[0] == [] && |rest| <= |lines|
    requires forall i :: 0 < i < |rest| ==> rest[i] == lines[|lines| - |rest| + i]
    requires buf[p..end][to - p..] == Joined(NEWLINE, rest)
    ensures AtLines(buf, to, end, rest)
  {
    SliceOfSlice(buf, p, end, to, end);
    assert buf[p..end][to - p..] == buf[p..end][to - p..end - p];
    forall i | 0 <= i < |rest| ensures Lines.Without(rest[i], NEWLINE) {
      assert i > 0 ==> rest[i] == lines[|lines| - |rest| + i];
    }
  }

  /** The byte behind the occurrence is a TAB exactly for a hit. */
  lemma HitIsTab(buf: array<byte>, p: nat, end: nat, lines: seq<Text>, j: nat, from: nat, to: nat, ssid: Text, s: int)
    requires LineAt(buf, p, end, lines, j, from, to) && buf[end] == NUL && FoundAt(buf, end, lines, j, from, ssid, s)
    ensures from <= s <= to && s + |ssid| <= end
    ensures buf[s + |ssid|] == TAB <==> HitLines(lines[j..], ssid)
    ensures forall m :: 0 <= m < |ssid| ==> buf[s + m] == ssid[m]
  {
    var t := Joined(NEWLINE, lines[j..]);
    var k := Find(t, ssid);
    assert OccursAt(t, ssid, k);
    assert forall m :: 0 <= m < |t| ==> t[m] == buf[from..end][m] == buf[from + m];
  }

  /** strchr(pssid_start, '\n'): the end of the row, or NULL in the last one. */
  method RowEnd(buf: array<byte>, p: nat, ghost end: nat, ghost lines: seq<Text>, ghost j: nat, ghost from: nat,
                ghost to: nat, s: nat) returns (pe: int)
    requires AtLines(buf, p, end, lines) && LineAt(buf, p, end, lines, j, from, to) && from <= s <= to
    ensures pe == if j + 1 == |lines| then -1 else to
  {
    pe := StrChr(buf, s, end, NEWLINE);
    assert Without(lines[j], NEWLINE);
    forall k | s <= k < to ensures buf[k] != NEWLINE {
      assert lines[j][k - from] == buf[from..to][k - from];
    }
    if j + 1 < |lines| {
      assert ([[]] + lines[j + 1..])[1..] == lines[j + 1..];
      PartThenRest(NEWLINE, [[]] + lines[j + 1..]);
      assert buf[to..end][0] == NEWLINE;
      assert buf[s..end][to - s] == NEWLINE;
      assert forall k :: 0 <= k < to - s ==> buf[s..end][k] == buf[s + k];
    }
  }

  /** What is read from the row once its end is cut: its mark and its id. */
  method CutRow(buf: array<byte>, ps: nat, ghost to: nat, ghost row: Text, ghost n: Network, ghost current: Text)
    returns (flag: int, netId: Text, ghost cut: nat)
    requires CString(buf, ps, to) && buf[ps..to] == row == RowText(n, current) && ValidId(n.id)
    modifies buf
    ensures flag == RowFlag(row) && netId == n.id
    ensures ps <= cut < to && forall k :: 0 <= k < buf.Length && k != cut ==> buf[k] == old(buf[k])
  {
    flag := 0;
    var mark := StrStr(buf, ps, to, CURRENT_WORD);
    if mark != -1 {
      flag := 2;
    }
    netId, cut := FirstToken(buf, ps, to, row, n, current);
  }

  method FirstToken(buf: array<byte>, from: nat, ghost to: nat, ghost row: Text, ghost n: Network, ghost current: Text)
    returns (netId: Text, ghost cut: nat)
    requires CString(buf, from, to) && buf[from..to] == row == RowText(n, current) && ValidId(n.id)
    modifies buf
    ensures netId == n.id
    ensures from <= cut < to && forall k :: 0 <= k < buf.Length && k != cut ==> buf[k] == old(buf[k])
  {
    IdColumn(n, current, []);
    assert row + [] == row;
    ghost var m := |n.id|;
    forall k | 0 <= k < m ensures buf[from + k] == n.id[k] && IsDigit(buf[from + k]) {
      assert buf[from + k] == row[k] == row[..m][k];
    }
    assert row[m] == TAB && buf[from + m] == TAB;
    var p, stop := StrTok(buf, from, to, TAB);
    cut := stop;
    assert p == from && stop == from + m;
    assert forall k :: 0 <= k < m ==> buf[from..stop][k] == n.id[k];
    netId := Prefix(buf[p..stop], NET_ID_LEN);
  }

  /** Cuts the line off at its end and looks for the newline in front of it with
      strrchr; the first line searched has none. */
  method CutLine(buf: array<byte>, p: nat, ghost end: nat, ghost lines: seq<Text>, ghost j: nat, ghost from: nat,
                 ghost to: nat, s: nat)
    returns (pe: int, ps: int)
    requires AtLines(buf, p, end, lines) && LineAt(buf, p, end, lines, j, from, to) && from <= s <= to
    modifies buf
    ensures pe == if j + 1 == |lines| then -1 else to
    ensures ps == if j == 0 then -1 else from - 1
    ensures CString(buf, from, to) && buf[from..to] == lines[j]
    ensures forall k :: 0 <= k < buf.Length && k != to ==> buf[k] == old(buf[k])
  {
    ghost var was := buf[..];
    pe := RowEnd(buf, p, end, lines, j, from, to, s);
    if pe != -1 {
      buf[pe] := NUL;
    }
    assert buf[from..to] == was[from..to] == lines[j];
    ps := StrRChr(buf, p, to, NEWLINE);
    assert Without(lines[j], NEWLINE);
    forall k | from - p <= k < to - p ensures buf[p..to][k] != NEWLINE {
      assert lines[j][k - (from - p)] == buf[from..to][k - (from - p)] == buf[p..to][k];
    }
    assert j > 0 ==> buf[p..to][from - 1 - p] == NEWLINE;
  }

  /** The bytes `was` held from the newline at `pe` on are these lines. */
  ghost predicate RestIs(was: seq<byte>, pe: nat, end: nat, lines: seq<Text>) {
    && pe < end < |was| && was[pe] == NEWLINE && was[end] == NUL && (forall k :: pe <= k < end ==> was[k] != NUL)
    && lines != [] && AllWithout(lines, NEWLINE) && was[pe..end] == Joined(NEWLINE, lines)
  }

  /** The bytes from the end of the line on, kept as a value. */
  lemma BehindLine(buf: array<byte>, p: nat, end: nat, lines: seq<Text>, j: nat, from: nat, to: nat, was: seq<byte>)
    requires AtLines(buf, p, end, lines) && LineAt(buf, p, end, lines, j, from, to) && was == buf[..]
    ensures j + 1 < |lines| ==> RestIs(was, to, end, [[]] + lines[j + 1..])
  {
    if j + 1 < |lines| {
      var rest := [[]] + lines[j + 1..];
      PartThenRest(NEWLINE, rest);
      assert was[to..end] == buf[to..end];
      assert was[to] == was[to..end][0];
    }
  }

  /** Puts the newline at the end of a row back. */
  method RestoreRow(buf: array<byte>, pe: nat, ghost end: nat, ghost was: seq<byte>, ghost lines: seq<Text>)
    requires RestIs(was, pe, end, lines) && buf.Length == |was| && forall k :: pe < k < buf.Length ==> buf[k] == was[k]
    modifies buf
    ensures AtLines(buf, pe, end, lines)
  {
    buf[pe] := NEWLINE;
    assert buf[pe..end] == was[pe..end];
  }

  /** A row behind whose occurrence of the SSID a TAB follows: its key type is
      asked for, and the row's end is restored unless the search is over. */
  method HitRow(sup: WpaSupplicant, keyType: Text, buf: array<byte>, ps: nat, pe: int, ghost to: nat, ghost end: nat,
                ghost was: seq<byte>, ghost rest: seq<Text>, ghost k: nat, ghost current: Text)
    returns (ret: int, flag: int, netId: Text, found: bool)
    requires WellFormed(sup.networks) && k < |sup.networks| && CString(buf, ps, to)
    requires buf[ps..to] == RowText(sup.networks[k], current) && buf.Length == |was|
    requires pe != -1 ==> pe == to && RestIs(was, to, end, rest) && forall m :: to < m < |was| ==> buf[m] == was[m]
    modifies sup, buf
    ensures sup.networks == old(sup.networks) && sup.complete == old(sup.complete) && (ret == 0 || ret == -1)
    ensures sup.log == old(sup.log) + [Sent(GetKeyMgmt(sup.networks[k].id), ret == 0)]
    ensures netId == sup.networks[k].id && found == (ret == 0 && Serves(sup.networks[k], keyType))
    ensures flag == RowFlag(RowText(sup.networks[k], current)) + if found then 1 else 0
    ensures ret == 0 && !found && pe != -1 ==> AtLines(buf, pe, end, rest)
  {
    ghost var n := sup.networks[k];
    assert ValidId(n.id) && PlaceOf(sup.networks, n.id) == k by {
      assert n.ssid == n.ssid;
    }
    ghost var cut;
    flag, netId, cut := CutRow(buf, ps, to, RowText(n, current), n, current);
    ret, found := AskKeyMgmt(sup, netId, keyType, k);
    if found {
      flag := flag + 1;
    } else if ret == 0 && pe != -1 {
      RestoreRow(buf, pe, end, was, rest);
    }
  }

  /** GET_NETWORK key_mgmt, and the comparison with the key type wanted. */
  method AskKeyMgmt(sup: WpaSupplicant, netId: Text, keyType: Text, ghost k: nat) returns (ret: int, found: bool)
    requires WellFormed(sup.networks) && k < |sup.networks| && sup.networks[k].id == netId
    requires PlaceOf(sup.networks, netId) == k
    modifies sup
    ensures sup.networks == old(sup.networks) && sup.complete == old(sup.complete) && (ret == 0 || ret == -1)
    ensures sup.log == old(sup.log) + [Sent(GetKeyMgmt(netId), ret == 0)]
    ensures found == (ret == 0 && Serves(sup.networks[k], keyType))
  {
    var keyReply;
    ghost var raw, shown;
    ret, keyReply, raw, shown := sup.Ask(GetKeyMgmt(netId));
    found := ret == 0 && keyReply == keyType;
  }

  // ----- from line to line

  /** Where the search stands: it looked from in front of row `i`, or from the
      header, which is then `lead`; the SSID starts in line `j` of what it looked
      at, which lies between `from` and `to`. */
  datatype Spot = Spot(lead: Text, i: nat, j: int, from: nat, to: nat)

  /** The lines the walk has in front of it. */
  function LinesFrom(q: Search, lead: Text, i: nat): seq<Text>
    requires i <= |q.ns|
  {
    [lead] + q.Rows(i)
  }

  /** The SSID starts in line `j` of those in front of the walk. */
  ghost predicate Spotted(q: Search, at: Spot) {
    && q.ssid != [] && at.i <= |q.ns| && 0 <= at.j < |LinesFrom(q, at.lead, at.i)|
    && at.j == FirstStart(NEWLINE, LinesFrom(q, at.lead, at.i), q.ssid, 0)
  }

  predicate IsHit(q: Search, at: Spot)
    requires at.i <= |q.ns| && 0 <= at.j < |LinesFrom(q, at.lead, at.i)|
  {
    HitLines(LinesFrom(q, at.lead, at.i)[at.j..], q.ssid)
  }

  /** The search stands at an occurrence of the SSID: `s`, from the line the spot names. */
  ghost predicate Searching(buf: array<byte>, p: nat, end: nat, q: Search, at: Spot, s: int)
    reads buf
  {
    && Spotted(q, at) &&
    var lines := LinesFrom(q, at.lead, at.i);
    && AtLines(buf, p, end, lines) && LineAt(buf, p, end, lines, at.j, at.from, at.to)
    && FoundAt(buf, end, lines, at.j, at.from, q.ssid, s)
  }

  /** Row `k` comes behind the line the spot names. */
  ghost predicate Behind(q: Search, at: Spot, k: nat) {
    && at.i <= |q.ns| && 0 <= at.j < |LinesFrom(q, at.lead, at.i)| && k <= |q.ns|
    && [[]] + LinesFrom(q, at.lead, at.i)[at.j + 1..] == LinesFrom(q, [], k)
    && (at.j + 1 == |LinesFrom(q, at.lead, at.i)| <==> k == |q.ns|)
  }

  lemma LineFound(q: Search, at: Spot) returns (k: nat)
    requires at.i <= |q.ns| && 0 <= at.j < |LinesFrom(q, at.lead, at.i)|
    ensures k == at.i + at.j && Behind(q, at, k)
  {
    k := at.i + at.j;
    assert q.ns[at.i..][at.j..] == q.ns[k..];
  }

  /** What lies in front of the walk from line `m` on are rows. */
  lemma RowsBehindLead(q: Search, lead: Text, i: nat, m: nat, r: nat)
    requires i <= r < |q.ns| && m == r + 1 - i
    ensures m < |LinesFrom(q, lead, i)| && LinesFrom(q, lead, i)[m..] == q.Rows(r) && q.Rows(r)[0] == q.Row(r)
    ensures StartsIn(NEWLINE, LinesFrom(q, lead, i), m, q.ssid) <==> q.StartsAt(r)
  {
    assert q.ns[i..][r - i..] == q.ns[r..];
    assert LinesFrom(q, lead, i)[m..] == q.Rows(r) == q.Rows(r)[0..];
    assert LinesFrom(q, lead, i)[m] == LinesFrom(q, lead, i)[m..][0];
  }

  /** Behind the lead the line found is a row. */
  lemma RowFound(q: Search, at: Spot, done: nat, f: Found) returns (r: nat)
    requires Progress(q, at.i, done, f) && Spotted(q, at) && at.j > 0
    ensures at.i <= r < |q.ns| && r + 1 == at.i + at.j && Progress(q, r, done, f)
    ensures LinesFrom(q, at.lead, at.i)[at.j..] == q.Rows(r) && LinesFrom(q, at.lead, at.i)[at.j] == q.Row(r)
  {
    r := at.i + at.j - 1;
    RowsBehindLead(q, at.lead, at.i, at.j, r);
    var lines := LinesFrom(q, at.lead, at.i);
    assert lines[at.j] == lines[at.j..][0];
    forall m | at.i <= m < r ensures !q.StartsAt(m) {
      RowsBehindLead(q, at.lead, at.i, m + 1 - at.i, m);
    }
    RowsSkipped(q, at.i, r, done, f);
  }

  lemma NoLineFound(q: Search, lead: Text, i: nat, done: nat, f: Found)
    requires Progress(q, i, done, f) && FirstStart(NEWLINE, LinesFrom(q, lead, i), q.ssid, 0) < 0
    ensures Progress(q, |q.ns|, done, f)
  {
    forall r | i <= r < |q.ns| ensures !q.StartsAt(r) {
      RowsBehindLead(q, lead, i, r + 1 - i, r);
    }
    RowsSkipped(q, i, |q.ns|, done, f);
  }

  /** A line that is not a hit leaves the result as it is. */
  lemma LinePassed(q: Search, at: Spot, done: nat, f: Found) returns (k: nat)
    requires Progress(q, at.i, done, f) && Spotted(q, at) && !IsHit(q, at)
    ensures Progress(q, k, done, f) && Behind(q, at, k)
  {
    k := LineFound(q, at);
    if at.j > 0 {
      var r := RowFound(q, at, done, f);
      RowMissed(q, r, k, done, f);
    }
  }

  /** A hit behind the lead is a row that is a hit. */
  lemma HitIsRow(q: Search, at: Spot, done: nat, f: Found) returns (r: nat, k: nat)
    requires Progress(q, at.i, done, f) && Spotted(q, at) && at.j > 0 && IsHit(q, at)
    ensures at.i <= r < k == r + 1 && r + 1 == at.i + at.j && Behind(q, at, k)
    ensures Progress(q, r, done, f) && q.HitAt(r) && LinesFrom(q, at.lead, at.i)[at.j] == q.Row(r)
  {
    k := LineFound(q, at);
    r := RowFound(q, at, done, f);
  }

  lemma RowMissed(q: Search, r: nat, k: nat, done: nat, f: Found)
    requires r < k == r + 1 <= |q.ns| && Progress(q, r, done, f) && !q.HitAt(r)
    ensures Progress(q, k, done, f)
  {
  }

  ghost predicate Finished(q: Search, done: nat, f: Found) {
    done == |Queries(q, 0)| && f == Lookup(q, 0, NOTHING_FOUND)
  }

  lemma SearchingTab(buf: array<byte>, p: nat, end: nat, q: Search, at: Spot, s: int)
    requires Searching(buf, p, end, q, at, s)
    ensures p <= at.from <= s <= at.to && s + |q.ssid| <= end && (at.j > 0 ==> p < at.from)
    ensures buf[s + |q.ssid|] == TAB <==> IsHit(q, at)
    ensures q.ssid[0] != NEWLINE ==> p < at.to
  {
    var lines := LinesFrom(q, at.lead, at.i);
    HitIsTab(buf, p, end, lines, at.j, at.from, at.to, q.ssid, s);
    assert buf[s + 0] == q.ssid[0];
    if at.j + 1 < |lines| {
      PartThenRest(NEWLINE, [[]] + lines[at.j + 1..]);
      assert buf[at.to] == buf[at.to..end][0];
    }
  }

  // ----- what may become of the search

  /** The search ends; or it takes the start of a row in front of the first
      newline, where strrchr has returned a null pointer; or it goes on for ever. */
  datatype Course = Ends | Wild | Stalled

  /** What becomes of the search in its next turn, if a query sent in it is
      answered.  An SSID that starts with a newline is found again at the row's end
      from which the search would go on. */
  function CourseFrom(q: Search, lead: Text, i: nat): Course
    requires i <= |q.ns| && q.ssid != []
  {
    var lines := LinesFrom(q, lead, i);
    var j := FirstStart(NEWLINE, lines, q.ssid, 0);
    if j < 0 then Ends
    else if !HitLines(lines[j..], q.ssid) then (if q.ssid[0] == NEWLINE then Stalled else Ends)
    else if j == 0 then Wild
    else if q.ssid[0] == NEWLINE && !Serves(q.ns[i + j - 1], q.keyType) then Wild
    else Ends
  }

  /** From a newline on only an SSID that starts with one can be found at once. */
  lemma EndsFromNewline(q: Search, i: nat)
    requires i <= |q.ns| && q.ssid != [] && q.ssid[0] != NEWLINE
    ensures CourseFrom(q, [], i) == Ends && FirstStart(NEWLINE, LinesFrom(q, [], i), q.ssid, 0) != 0
  {
    var lines := LinesFrom(q, [], i);
    var t := Joined(NEWLINE, lines);
    assert lines[0..] == lines;
    HeadAt(NEWLINE, lines);
    assert t == [] || t[0 + 0] == NEWLINE;
    assert !OccursAt(t, q.ssid, 0);
  }

  /** Without a newline in the SSID the search ends: only rows are hits. */
  lemma EndsWithoutNewline(q: Search)
    requires q.ssid != [] && Without(q.ssid, NEWLINE)
    ensures CourseFrom(q, HEADER, 0) == Ends
  {
    var lines := LinesFrom(q, HEADER, 0);
    HitInLine(lines, q.ssid);
    assert lines[0..] == lines && Without(HEADER, TAB);
  }

  // ----- one turn

  /** On to the next line in which the SSID starts, if there is one. */
  method Advance(buf: array<byte>, p: int, ghost end: nat, ssid: Text, ghost q: Search, ghost lead: Text, ghost i: nat,
                 ghost done: nat, ghost f: Found)
    returns (s: int, ghost at: Spot)
    requires q.ssid == ssid && ssid != [] && NulFree(ssid) && Progress(q, i, done, f)
    requires if p == -1 then i == |q.ns| else 0 <= p < end && AtLines(buf, p, end, LinesFrom(q, lead, i))
    ensures s == -1 ==> Finished(q, done, f)
    ensures s == -1 && p != -1 ==> CourseFrom(q, lead, i) == Ends
    ensures s != -1 ==> p >= 0 && at.i == i && at.lead == lead && Searching(buf, p, end, q, at, s)
  {
    s, at := -1, Spot(lead, i, -1, 0, 0);
    if p != -1 {
      ghost var j, from, to;
      s, j, from, to := FindLine(buf, p, end, LinesFrom(q, lead, i), ssid);
      at := Spot(lead, i, j, from, to);
      if s == -1 {
        NoLineFound(q, lead, i, done, f);
      }
    }
  }

  /** The line found is not a hit: its end is the next place to look from. */
  method PassLine(buf: array<byte>, p: nat, s: nat, ghost end: nat, ghost q: Search, ghost at: Spot, ghost done: nat,
                  ghost f: Found)
    returns (next: int, ghost k: nat)
    requires Progress(q, at.i, done, f) && Searching(buf, p, end, q, at, s) && !IsHit(q, at) && s <= at.to
    ensures Progress(q, k, done, f)
    ensures if next == -1 then k == |q.ns| else next == at.to < end && AtLines(buf, next, end, LinesFrom(q, [], k))
  {
    k := LinePassed(q, at, done, f);
    next := RowEnd(buf, p, end, LinesFrom(q, at.lead, at.i), at.j, at.from, at.to, s);
  }

  /** Row `r` is a hit, cut at its end: its key type decides whether the search is over. */
  method AskLine(sup: WpaSupplicant, keyType: Text, buf: array<byte>, ps: nat, pe: int, ghost to: nat, ghost w: Walk,
                 ghost was: seq<byte>, ghost done: nat, ghost f: Found, ghost r: nat, ghost k: nat)
    returns (ret: int, flag: int, netId: Text, found: bool)
    requires Shows(sup.networks, w.q, keyType) && r < k == r + 1 <= |w.q.ns|
    requires Progress(w.q, r, done, f) && w.q.HitAt(r)
    requires CString(buf, ps, to) && buf[ps..to] == w.q.Row(r) && buf.Length == |was|
    requires pe != -1 ==>
      pe == to && RestIs(was, to, w.end, LinesFrom(w.q, [], k)) && forall m :: to < m < |was| ==> buf[m] == was[m]
    requires sup.log == w.log0 + Attempts(Queries(w.q, 0), done, false)
    modifies sup, buf
    ensures sup.networks == old(sup.networks) && sup.complete == old(sup.complete) && (ret == 0 || ret == -1)
    ensures done < |Queries(w.q, 0)| && netId == w.q.ns[r].id
    ensures sup.log == w.log0 + Attempts(Queries(w.q, 0), if ret == 0 then done + 1 else done, ret != 0)
    ensures ret == 0 ==> found == Serves(w.q.ns[r], keyType)
    ensures ret == 0 && found ==> Finished(w.q, done + 1, Found(flag, r))
    ensures ret == 0 && !found ==> Progress(w.q, k, done + 1, Found(flag, r))
    ensures ret == 0 && !found && pe != -1 ==> AtLines(buf, pe, w.end, LinesFrom(w.q, [], k))
  {
    RowAsked(w.q, r, k, done, f);
    AttemptNext(w.log0, Queries(w.q, 0), done, true);
    AttemptNext(w.log0, Queries(w.q, 0), done, false);
    ret, flag, netId, found :=
      HitRow(sup, keyType, buf, ps, pe, to, w.end, was, LinesFrom(w.q, [], k), r, w.q.current);
  }

  /** The search goes through the rows the listing showed. */
  ghost predicate Shows(networks: seq<Network>, q: Search, keyType: Text) {
    WellFormed(networks) && q.keyType == keyType && |q.ns| <= |networks| && q.ns == networks[..|q.ns|]
  }

  /** What net_id holds after a search that did not fail. */
  function NetId(q: Search, hit: int, initial: Text): Text {
    if 0 <= hit < |q.ns| then q.ns[hit].id else initial
  }

  /** What stays the same while the search goes on: what is searched, where the
      reply ends, the log at the start and the initial net_id. */
  datatype Walk = Walk(q: Search, end: nat, log0: seq<Sent>, initial: Text)

  /** How far the search has come: its spot, the answered queries and the last row asked. */
  datatype Stage = Stage(at: Spot, done: nat, hit: int)

  /** What was sent so far: the queries answered and, after a failure, one more. */
  ghost predicate Logged(w: Walk, log: seq<Sent>, done: nat, ret: int) {
    && (if ret == 0 then done <= |Queries(w.q, 0)| else done < |Queries(w.q, 0)|)
    && log == w.log0 + Attempts(Queries(w.q, 0), done, ret != 0)
  }

  /** Where the search has got to: to its end, or to the next occurrence of the SSID. */
  ghost predicate Standing(buf: array<byte>, p: int, w: Walk, g: Stage, s: int, flag: int, netId: Text)
    reads buf
  {
    && netId == NetId(w.q, g.hit, w.initial)
    && if s == -1 then Finished(w.q, g.done, Found(flag, g.hit))
       else p >= 0 && Progress(w.q, g.at.i, g.done, Found(flag, g.hit)) && Searching(buf, p, w.end, w.q, g.at, s)
  }

  /** Goes on from a newline in front of row `k`. */
  method GoOn(buf: array<byte>, next: int, ssid: Text, ghost flag: int, ghost netId: Text, ghost w: Walk, ghost k: nat,
              ghost done: nat, ghost hit: int)
    returns (s': int, ghost g': Stage)
    requires w.q.ssid == ssid && ssid != [] && NulFree(ssid) && Progress(w.q, k, done, Found(flag, hit))
    requires if next == -1 then k == |w.q.ns| else 0 <= next < w.end && AtLines(buf, next, w.end, LinesFrom(w.q, [], k))
    requires netId == NetId(w.q, hit, w.initial)
    ensures g'.done == done && g'.at.lead == [] && Standing(buf, next, w, g', s', flag, netId)
  {
    ghost var at;
    s', at := Advance(buf, next, w.end, ssid, w.q, [], k, done, Found(flag, hit));
    g' := if s' == -1 then Stage(Spot([], k, -1, 0, 0), done, hit) else Stage(at, done, hit);
  }

  /** Asks for the key type of a row that is a hit, and goes on behind it if that is not the one wanted. */
  method AskAndGoOn(sup: WpaSupplicant, ssid: Text, keyType: Text, buf: array<byte>, ps: nat, pe: int,
                    ghost w: Walk, ghost g: Stage, ghost was: seq<byte>, ghost f: Found, ghost r: nat, ghost k: nat)
    returns (course: Course, ret: int, s': int, flag: int, netId: Text, ghost g': Stage)
    requires Shows(sup.networks, w.q, keyType) && w.q.ssid == ssid && ssid != [] && NulFree(ssid)
    requires RowCut(buf, ps, pe, w, g, f, was, r, k) && Logged(w, sup.log, g.done, 0)
    modifies sup, buf
    ensures sup.networks == old(sup.networks) && sup.complete == old(sup.complete) && (ret == 0 || ret == -1)
    ensures course == if ret == 0 then CourseAt(w.q, r) else Ends
    ensures Logged(w, sup.log, g'.done, ret)
    ensures course == Ends && ret == 0 ==> Standing(buf, pe, w, g', s', flag, netId)
    ensures s' != -1 ==> course == Ends && ret == 0 && pe == g.at.to && g'.at.lead == [] && ssid[0] != NEWLINE
  {
    course, s', g' := Ends, -1, g;
    var found;
    ret, flag, netId, found := AskLine(sup, keyType, buf, ps + 1, pe, g.at.to, w, was, g.done, f, r, k);
    if ret == 0 {
      g' := Stage(g.at, g.done + 1, r);
      if !found && ssid[0] == NEWLINE {
        course := Wild;
      } else if !found {
        s', g' := GoOn(buf, pe, ssid, flag, netId, w, k, g.done + 1, r);
      }
    }
  }

  /** Cuts the line found off at its end. */
  method CutFound(buf: array<byte>, p: nat, s: nat, ghost w: Walk, ghost at: Spot)
    returns (pe: int, ps: int, ghost was: seq<byte>)
    requires Searching(buf, p, w.end, w.q, at, s) && s <= at.to
    modifies buf
    ensures ps == if at.j == 0 then -1 else at.from - 1
    ensures LineCut(buf, pe, w.end, LinesFrom(w.q, at.lead, at.i), at, was)
  {
    ghost var lines := LinesFrom(w.q, at.lead, at.i);
    was := buf[..];
    BehindLine(buf, p, w.end, lines, at.j, at.from, at.to, was);
    pe, ps := CutLine(buf, p, w.end, lines, at.j, at.from, at.to, s);
  }

  /** The line the spot names is cut off at `pe`, if it is not the last. */
  ghost predicate LineCut(buf: array<byte>, pe: int, end: nat, lines: seq<Text>, at: Spot, was: seq<byte>)
    reads buf
  {
    && 0 <= at.j < |lines| && CString(buf, at.from, at.to) && buf[at.from..at.to] == lines[at.j] && buf.Length == |was|
    && if pe == -1 then at.j + 1 == |lines|
       else pe == at.to && at.j + 1 < |lines| && RestIs(was, pe, end, [[]] + lines[at.j + 1..]) &&
            forall m :: pe < m < |was| ==> buf[m] == was[m]
  }

  /** A line that is a hit, behind the first one searched, is a row. */
  lemma CutIsRow(buf: array<byte>, ps: int, pe: int, w: Walk, g: Stage, f: Found, was: seq<byte>)
    returns (r: nat, k: nat)
    requires Progress(w.q, g.at.i, g.done, f) && Spotted(w.q, g.at) && IsHit(w.q, g.at) && g.at.j > 0
    requires ps >= 0 && ps + 1 == g.at.from && LineCut(buf, pe, w.end, LinesFrom(w.q, g.at.lead, g.at.i), g.at, was)
    ensures RowCut(buf, ps, pe, w, g, f, was, r, k) && CourseFrom(w.q, g.at.lead, g.at.i) == CourseAt(w.q, r)
  {
    r, k := HitIsRow(w.q, g.at, g.done, f);
    CourseOfRow(w.q, g.at, r);
  }

  /** Row `r`, behind which comes row `k`, is a hit.  It starts behind `ps` and is
      cut at `pe`, if it is not the last. */
  ghost predicate RowCut(buf: array<byte>, ps: int, pe: int, w: Walk, g: Stage, f: Found, was: seq<byte>, r: nat,
                         k: nat)
    reads buf
  {
    && r < k == r + 1 <= |w.q.ns| && Progress(w.q, r, g.done, f) && w.q.HitAt(r)
    && ps >= 0 && CString(buf, ps + 1, g.at.to) && buf[ps + 1..g.at.to] == w.q.Row(r) && buf.Length == |was|
    && if pe == -1 then k == |w.q.ns|
       else pe == g.at.to && RestIs(was, pe, w.end, LinesFrom(w.q, [], k)) &&
            forall m :: pe < m < |was| ==> buf[m] == was[m]
  }

  /** What becomes of the search when row `r` is the first in which the SSID starts, and is a hit. */
  function CourseAt(q: Search, r: nat): Course
    requires r < |q.ns| && q.ssid != []
  {
    if q.ssid[0] == NEWLINE && !Serves(q.ns[r], q.keyType) then Wild else Ends
  }

  lemma CourseOfHeader(q: Search, at: Spot)
    requires Spotted(q, at) && at.j == 0 && IsHit(q, at)
    ensures CourseFrom(q, at.lead, at.i) == Wild
  {
  }

  lemma CourseOfRow(q: Search, at: Spot, r: nat)
    requires Spotted(q, at) && at.j > 0 && IsHit(q, at) && r < |q.ns| && r + 1 == at.i + at.j
    ensures CourseFrom(q, at.lead, at.i) == CourseAt(q, r)
  {
  }

  /** The line found is a hit.  Its start is looked for once it is cut at its end;
      without a newline in front of it the model stops. */
  method TurnHit(sup: WpaSupplicant, ssid: Text, keyType: Text, buf: array<byte>, p: nat, s: nat, oldFlag: int,
                 oldId: Text, ghost w: Walk, ghost g: Stage)
    returns (course: Course, ret: int, next: int, s': int, flag: int, netId: Text, ghost g': Stage)
    requires Shows(sup.networks, w.q, keyType) && w.q.ssid == ssid && ssid != [] && NulFree(ssid)
    requires Standing(buf, p, w, g, s, oldFlag, oldId) && IsHit(w.q, g.at) && s <= g.at.to
    requires Logged(w, sup.log, g.done, 0)
    modifies sup, buf
    ensures sup.networks == old(sup.networks) && sup.complete == old(sup.complete) && (ret == 0 || ret == -1)
    ensures course == if ret == -1 then Ends else CourseFrom(w.q, g.at.lead, g.at.i)
    ensures Logged(w, sup.log, g'.done, ret)
    ensures course == Ends && ret == 0 ==> Standing(buf, next, w, g', s', flag, netId)
    ensures s' != -1 ==> course == Ends && ret == 0 && next == g.at.to && g'.at.lead == [] && ssid[0] != NEWLINE
  {
    ghost var f := Found(oldFlag, g.hit);
    var ps;
    ghost var was, r, k;
    SearchingTab(buf, p, w.end, w.q, g.at, s);
    next, ps, was := CutFound(buf, p, s, w, g.at);
    if ps == -1 {
      CourseOfHeader(w.q, g.at);
      course, ret, s', flag, netId, g' := Wild, 0, -1, oldFlag, oldId, g;
    } else {
      r, k := CutIsRow(buf, ps, next, w, g, f, was);
      course, ret, s', flag, netId, g' :=
        AskAndGoOn(sup, ssid, keyType, buf, ps, next, w, g, was, f, r, k);
    }
  }

  /** The line found is not a hit.  A search for an SSID that starts with a newline
      would go on from where it has just stopped: the model stops. */
  method TurnMiss(buf: array<byte>, p: nat, s: nat, ssid: Text, ghost flag: int, ghost netId: Text, ghost w: Walk,
                  ghost g: Stage)
    returns (course: Course, next: int, s': int, ghost g': Stage)
    requires w.q.ssid == ssid && ssid != [] && NulFree(ssid)
    requires Standing(buf, p, w, g, s, flag, netId) && !IsHit(w.q, g.at) && s <= g.at.to
    ensures course == CourseFrom(w.q, g.at.lead, g.at.i) && g'.done == g.done
    ensures course == Ends ==> Standing(buf, next, w, g', s', flag, netId)
    ensures s' != -1 ==> course == Ends && next == g.at.to && g'.at.lead == [] && ssid[0] != NEWLINE
  {
    course, s', g' := Ends, -1, g;
    ghost var k;
    next, k := PassLine(buf, p, s, w.end, w.q, g.at, g.done, Found(flag, g.hit));
    if ssid[0] == NEWLINE {
      course := Stalled;
    } else {
      s', g' := GoOn(buf, next, ssid, flag, netId, w, k, g.done, g.hit);
    }
  }

  /** One turn of the loop: from one occurrence of the SSID to the next. */
  method Turn(sup: WpaSupplicant, ssid: Text, keyType: Text, buf: array<byte>, p: nat, s: nat, oldFlag: int,
              oldId: Text, ghost w: Walk, ghost g: Stage)
    returns (course: Course, ret: int, next: int, s': int, flag: int, netId: Text, ghost g': Stage)
    requires Shows(sup.networks, w.q, keyType) && w.q.ssid == ssid && ssid != [] && NulFree(ssid)
    requires Standing(buf, p, w, g, s, oldFlag, oldId) && Logged(w, sup.log, g.done, 0)
    modifies sup, buf
    ensures sup.networks == old(sup.networks) && sup.complete == old(sup.complete) && (ret == 0 || ret == -1)
    ensures course == if ret == -1 then Ends else CourseFrom(w.q, g.at.lead, g.at.i)
    ensures Logged(w, sup.log, g'.done, ret)
    ensures course == Ends && ret == 0 ==> Standing(buf, next, w, g', s', flag, netId)
    ensures s' != -1 ==> course == Ends && ret == 0 && next > p && g'.at.lead == [] && ssid[0] != NEWLINE
    ensures s' != -1 ==> next <= w.end && g'.at.i <= |w.q.ns|
  {
    var hit := Followed(buf, p, s, ssid, oldFlag, oldId, w, g);
    if hit {
      course, ret, next, s', flag, netId, g' := TurnHit(sup, ssid, keyType, buf, p, s, oldFlag, oldId, w, g);
    } else {
      ret, flag, netId := 0, oldFlag, oldId;
      course, next, s', g' := TurnMiss(buf, p, s, ssid, flag, netId, w, g);
    }
  }

  /** Is the occurrence followed by a TAB? */
  method Followed(buf: array<byte>, p: nat, s: nat, ssid: Text, ghost flag: int, ghost netId: Text, ghost w: Walk,
                  ghost g: Stage)
    returns (hit: bool)
    requires w.q.ssid == ssid && ssid != [] && Standing(buf, p, w, g, s, flag, netId)
    ensures hit == IsHit(w.q, g.at) && s <= g.at.to && (ssid[0] != NEWLINE ==> p < g.at.to)
  {
    SearchingTab(buf, p, w.end, w.q, g.at, s);
    hit := buf[s + |ssid|] == TAB;
  }

  // ----- the whole search

  /** Looks the SSID up.  Where the search of the original does not end, or leaves
      the reply, the model stops and `course` says so. */
  method IsApExist(sup: WpaSupplicant, ssid: Text, keyMgmt: KeyMgmt, initial: Text)
    returns (ret: int, netId: Text, course: Course, ghost q: Search, ghost done: nat)
    requires WellFormed(sup.networks) && NulFree(ssid)
    modifies sup
    ensures sup.networks == old(sup.networks)
    ensures ssid == [] ==> ret == -1 && course == Ends && unchanged(sup)
    ensures ssid != [] ==>
      && q.ssid == ssid && q.keyType == KeyType(keyMgmt) && |q.ns| <= |sup.networks| && q.ns == sup.networks[..|q.ns|]
      && course == (if ret == -1 then Ends else CourseFrom(q, HEADER, 0))
      && sup.complete == (old(sup.complete) && (Listed(old(sup.log), sup.log) ==> q.ns == sup.networks))
    ensures ssid != [] && course == Ends ==>
      && Walked(old(sup.log), sup.log, Queries(q, 0), done, if ret == -1 then -1 else 0)
      && (ret != -1 ==>
            && ret == Lookup(q, 0, NOTHING_FOUND).flag
            && netId == NetId(q, Lookup(q, 0, NOTHING_FOUND).hit, initial))
    ensures course != Ends ==>
      && done <= |Queries(q, 0)|
      && sup.log == old(sup.log) + [Sent(ListNetworks, true)] + Attempts(Queries(q, 0), done, false)
  {
    var keyType := KeyType(keyMgmt);
    q, done, netId, course := Search([], [], ssid, keyType), 0, initial, Ends;
    if ssid == [] {
      return -1, initial, Ends, q, 0;
    }
    var reply := new byte[REPLY_BUF_SIZE];
    var pn;
    ghost var shown, end;
    ret, pn, shown, end := List(sup, reply);
    q := Search(sup.networks[..shown], sup.current, ssid, keyType);
    if ret != 0 {
      return -1, initial, Ends, Search(sup.networks, [], ssid, keyType), 0;
    }
    assert q.ns[0..] == q.ns;
    course, ret, netId, done := Scan(sup, ssid, keyType, reply, end, q, initial);
  }

  /** At the end of the search its course is that of the first turn; until then it
      is regular, and has to be from the first turn on. */
  ghost predicate OnCourse(q: Search, at: Spot, s: int, status: int, course: Course) {
    q.ssid != [] &&
    if s == -1 then course == if status == -1 then Ends else CourseFrom(q, HEADER, 0)
    else
      && status == 0 && course == Ends
      && (|| (at.lead == HEADER && at.i == 0)
          || (at.lead == [] && at.i <= |q.ns| && q.ssid[0] != NEWLINE && CourseFrom(q, HEADER, 0) == Ends))
  }

  lemma StaysOnCourse(q: Search, at: Spot, at': Spot, s': int, status: int, course: Course)
    requires q.ssid != [] && at.i <= |q.ns| && OnCourse(q, at, 0, 0, Ends)
    requires course == if status == -1 then Ends else CourseFrom(q, at.lead, at.i)
    requires s' != -1 ==>
      course == Ends && status == 0 && at'.lead == [] && at'.i <= |q.ns| && q.ssid[0] != NEWLINE
    ensures OnCourse(q, at', s', status, course)
  {
    if at.lead == [] {
      EndsFromNewline(q, at.i);
    }
  }

  /** The first search, from the start of the reply. */
  method Start(buf: array<byte>, ssid: Text, ghost w: Walk, ghost log: seq<Sent>) returns (s: int, ghost g: Stage)
    requires w.q.ssid == ssid && ssid != [] && NulFree(ssid) && AtLines(buf, 0, w.end, LinesFrom(w.q, HEADER, 0))
    requires log == w.log0
    ensures g.done == 0 && Logged(w, log, 0, 0) && OnCourse(w.q, g.at, s, 0, Ends)
    ensures Standing(buf, 0, w, g, s, NOTHING_FOUND.flag, w.initial)
  {
    assert Attempts(Queries(w.q, 0), 0, false) == [];
    HeadAt(NEWLINE, LinesFrom(w.q, HEADER, 0));
    ghost var at;
    s, at := Advance(buf, 0, w.end, ssid, w.q, HEADER, 0, 0, NOTHING_FOUND);
    g := Stage(at, 0, -1);
  }

  /** The loop over the reply. */
  method Scan(sup: WpaSupplicant, ssid: Text, keyType: Text, buf: array<byte>, ghost end: nat, ghost q: Search,
              initial: Text)
    returns (course: Course, ret: int, netId: Text, ghost done: nat)
    requires Shows(sup.networks, q, keyType) && q.ssid == ssid && ssid != [] && NulFree(ssid)
    requires AtLines(buf, 0, end, LinesFrom(q, HEADER, 0))
    modifies sup, buf
    ensures sup.networks == old(sup.networks) && sup.complete == old(sup.complete)
    ensures course == if ret == -1 then Ends else CourseFrom(q, HEADER, 0)
    ensures course == Ends ==> if ret == -1 then done < |Queries(q, 0)| else done == |Queries(q, 0)|
    ensures course != Ends ==> done <= |Queries(q, 0)|
    ensures sup.log == old(sup.log) + Attempts(Queries(q, 0), done, ret == -1)
    ensures course == Ends && ret != -1 ==>
      && ret == Lookup(q, 0, NOTHING_FOUND).flag && netId == NetId(q, Lookup(q, 0, NOTHING_FOUND).hit, initial)
  {
    var flag, p, status := 0, 0, 0;
    course, netId := Ends, initial;
    ghost var w := Walk(q, end, sup.log, initial);
    var s;
    ghost var g;
    s, g := Start(buf, ssid, w, sup.log);
    while s != -1
      invariant sup.networks == old(sup.networks) && sup.complete == old(sup.complete) && (status == 0 || status == -1)
      invariant Logged(w, sup.log, g.done, status) && OnCourse(q, g.at, s, status, course)
      invariant course == Ends && status == 0 ==> Standing(buf, p, w, g, s, flag, netId)
      decreases s != -1, end - p
    {
      ghost var at := g.at;
      course, status, p, s, flag, netId, g := Turn(sup, ssid, keyType, buf, p, s, flag, netId, w, g);
      StaysOnCourse(q, at, g.at, s, status, course);
    }
    done := g.done;
    LookupFlag(q, 0, NOTHING_FOUND);
    ret := if status != 0 then -1 else if course == Ends then flag else 0;
  }

  lemma {:induction false} LookupFlag(q: Search, i: nat, f: Found)
    requires 0 <= f.flag <= 3
    ensures 0 <= Lookup(q, i, f).flag <= 3
    decreases |q.ns| - i
  {
    if i < |q.ns| {
      LookupFlag(q, i + 1, f);
      LookupFlag(q, i + 1, Found(RowFlag(q.Row(i)), i));
    }
  }
}
