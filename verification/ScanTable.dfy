/** The scan table: its text, the look-up of an SSID's key types in place, and
    the truncated copy handed to callers (network_manager.c). */
module ScanTable {
  import opened Bytes
  import opened PrintfCodec
  import opened SsidCodec
  import opened Decimal
  import opened Lines
  import opened LineWalk

  const SSID_LEN := 512
  const FLAGS_SIZE := 128

  const KEY_NONE_INDEX := 0
  const KEY_WPA_PSK_INDEX := 1
  const KEY_WEP_INDEX := 2

  /** An access point as SCAN_RESULTS lists it. */
  datatype ScanRow = ScanRow(bssid: Text, frequency: Text, level: int, flags: Text, ssid: Text)

  const HEADER: Text := Ascii("bssid / frequency / ") + Ascii("signal level / flags / ssid")

  predicate Clean(t: Text) {
    Without(t, TAB) && Without(t, NEWLINE) && Without(t, NUL)
  }

  /** What the supplicant may print: columns without separators, flags that fit
      the reader's buffer, an SSID of at most 32 octets. */
  predicate CleanRow(r: ScanRow) {
    Clean(r.bssid) && Clean(r.frequency) && Clean(r.flags) && |r.flags| < FLAGS_SIZE && |r.ssid| <= SSID_MAX_LEN
  }

  predicate CleanRows(rows: seq<ScanRow>) {
    forall i :: 0 <= i < |rows| ==> CleanRow(rows[i])
  }

  function Fields(r: ScanRow): seq<Text> {
    [r.bssid, r.frequency, Print(r.level), r.flags, Encode(r.ssid)]
  }

  function RowText(r: ScanRow): Text {
    Joined(TAB, Fields(r))
  }

  function RowTexts(rows: seq<ScanRow>): seq<Text> {
    seq(|rows|, i requires 0 <= i < |rows| => RowText(rows[i]))
  }

  /** The table: a header and one line for each row, none of them empty. */
  function Table(rows: seq<ScanRow>): Text {
    Joined(NEWLINE, [HEADER] + RowTexts(rows))
  }

  lemma FieldsAreClean(r: ScanRow)
    requires CleanRow(r)
    ensures forall i :: 0 <= i < 5 ==> Clean(Fields(r)[i])
    ensures Without(RowText(r), NEWLINE) && Without(RowText(r), NUL)
    ensures |Encode(r.ssid)| <= SSID_LEN
  {
    EncodeIsPrintable(r.ssid);
    EncodeLength(r.ssid);
    forall i | 0 <= i < 5 ensures Clean(Fields(r)[i]) {
      if i == 2 {
        assert forall j :: 0 <= j < |Print(r.level)| ==> IsDigit(Print(r.level)[j]) || Print(r.level)[j] == MINUS;
      }
    }
    JoinedWithout(TAB, Fields(r), NEWLINE);
    JoinedWithout(TAB, Fields(r), NUL);
  }

  lemma LinesAreClean(rows: seq<ScanRow>)
    requires CleanRows(rows)
    ensures AllWithout([HEADER] + RowTexts(rows), NEWLINE) && NulFree(Table(rows))
  {
    var lines := [HEADER] + RowTexts(rows);
    forall i | 0 <= i < |lines| ensures Without(lines[i], NEWLINE) && Without(lines[i], NUL) {
      if i > 0 {
        FieldsAreClean(rows[i - 1]);
      }
    }
    JoinedWithout(NEWLINE, lines, NUL);
  }

  // ----- the key types of an SSID

  const WPA_PSK_FLAG: Text := Ascii("WPA-PSK-")
  const WPA2_PSK_FLAG: Text := Ascii("WPA2-PSK-")
  const WEP_FLAG: Text := Ascii("WEP")
  const ESS: Text := Ascii("[ESS]")
  const WPS_ESS: Text := Ascii("[WPS][ESS]")

  /** The key type a row's flags stand for, or -1. */
  function KeyIndex(flags: Text): (k: int)
    ensures -1 <= k <= 2
  {
    if Contains(flags, WPA_PSK_FLAG) || Contains(flags, WPA2_PSK_FLAG) then KEY_WPA_PSK_INDEX
    else if Contains(flags, WEP_FLAG) then KEY_WEP_INDEX
    else if flags == ESS || flags == WPS_ESS then KEY_NONE_INDEX
    else -1
  }

  /** Row `r` announces the SSID, spelled as the table spells it, with key type `k`. */
  predicate Announces(r: ScanRow, ssid: Text, k: int) {
    Encode(r.ssid) == ssid && KeyIndex(r.flags) == k
  }

  /** Column `i` of the row starts `Offset` bytes into it. */
  lemma LastColumn(r: ScanRow)
    requires CleanRow(r)
    ensures var row, o := RowText(r), Offset(Fields(r), 0, 4);
      && 0 < o <= |row| && LastIndexOf(row, TAB) == o - 1 && row[o..] == Encode(r.ssid)
  {
    var fields := Fields(r);
    FieldsAreClean(r);
    PartAt(TAB, fields, 4);
    var row, o := RowText(r), Offset(fields, 0, 4);
    assert row[o..o + |fields[4]|] == row[o..];
    assert row[o - 1] == TAB;
    forall j | o <= j < |row| ensures row[j] != TAB {
      assert row[o..][j - o] == row[j];
    }
  }

  lemma RowAsColumns(r: ScanRow)
    ensures RowText(r) == Joined(TAB, Fields(r)) + [] && |Fields(r)| == 5
    ensures Fields(r)[1..][1..] == Fields(r)[2..] && Fields(r)[2..][1..] == Fields(r)[3..]
    ensures Fields(r)[1..][0] == r.frequency && Fields(r)[2..][0] == Print(r.level) && Fields(r)[3..][0] == r.flags
  {
  }

  /** The flags of the row at `p`: what lies between its third TAB and its SSID. */
  method FlagsOf(buf: array<byte>, p: nat, ghost end: nat, ghost r: ScanRow, ssidStart: nat) returns (flags: Text)
    requires CString(buf, p, end) && buf[p..end] == RowText(r) && CleanRow(r)
    requires ssidStart == p + Offset(Fields(r), 0, 4)
    ensures flags == r.flags
  {
    FieldsAreClean(r);
    RowAsColumns(r);
    ghost var fields := Fields(r);
    var pflag := SkipThree(buf, p, end, fields);
    FlagsStart(fields);
    ghost var t := EndOfFlags(buf, pflag, end, fields[3..]);
    flags := buf[pflag..ssidStart - 1];
  }

  /** Three times strchr(pflag, '\t'), each from behind the last one. */
  method SkipThree(buf: array<byte>, p: nat, ghost end: nat, ghost fields: seq<Text>) returns (pflag: nat)
    requires CString(buf, p, end) && |fields| == 5 && buf[p..end] == Joined(TAB, fields) + []
    requires Without(fields[0], TAB) && Without(fields[1], TAB) && Without(fields[2], TAB)
    ensures pflag == p + |fields[0]| + |fields[1]| + |fields[2]| + 3 <= end
    ensures buf[pflag..end] == Joined(TAB, fields[3..]) + []
  {
    ghost var f1, f2 := fields[1..], fields[2..];
    assert f1[0] == fields[1] && f1[1..] == f2 && f2[0] == fields[2] && f2[1..] == fields[3..];
    pflag := EndOfColumn(buf, p, end, fields, []);
    pflag := EndOfColumn(buf, pflag + 1, end, f1, []);
    pflag := EndOfColumn(buf, pflag + 1, end, f2, []);
    pflag := pflag + 1;
  }

  lemma FlagsStart(fields: seq<Text>)
    requires |fields| == 5
    ensures Offset(fields, 0, 4) == |fields[0]| + |fields[1]| + |fields[2]| + |fields[3]| + 4
  {
    assert Offset(fields, 0, 4) == |fields[0]| + 1 + Offset(fields, 1, 4);
    assert Offset(fields, 2, 4) == |fields[2]| + 1 + Offset(fields, 3, 4);
  }

  lemma EndOfFlags(buf: array<byte>, p: nat, end: nat, columns: seq<Text>) returns (t: nat)
    requires p <= end <= buf.Length && |columns| > 1 && buf[p..end] == Joined(TAB, columns) + []
    ensures t == p + |columns[0]| < end && buf[p..t] == columns[0]
  {
    t := p + |columns[0]|;
    PartIsFirst(TAB, columns);
    PartThenRest(TAB, columns);
    assert buf[p..end] == Joined(TAB, columns);
    SliceOfSlice(buf, p, end, p, t);
  }

  /** Row by row: does the row name the SSID, and what do its flags say? */
  method MarkRow(buf: array<byte>, p: nat, ghost end: nat, ghost r: ScanRow, ssid: Text, keys: array<int>)
    requires CString(buf, p, end) && buf[p..end] == RowText(r) && CleanRow(r) && keys.Length >= 3
    modifies keys
    ensures forall k :: 0 <= k < 3 ==> keys[k] == if Announces(r, ssid, k) then 1 else old(keys[k])
  {
    FieldsAreClean(r);
    LastColumn(r);
    ghost var o := Offset(Fields(r), 0, 4);
    var ssidStart := StrRChr(buf, p, end, TAB);
    ssidStart := ssidStart + 1;
    var stop := StrEnd(buf, ssidStart, end);
    assert buf[ssidStart..end] == buf[p..end][o..];
    var pssid := Prefix(buf[ssidStart..stop], SSID_LEN);
    if pssid == ssid {
      var flags := FlagsOf(buf, p, end, r, ssidStart);
      if Contains(flags, WPA_PSK_FLAG) || Contains(flags, WPA2_PSK_FLAG) {
        keys[KEY_WPA_PSK_INDEX] := 1;
      } else if Contains(flags, WEP_FLAG) {
        keys[KEY_WEP_INDEX] := 1;
      } else if flags == ESS || flags == WPS_ESS {
        keys[KEY_NONE_INDEX] := 1;
      }
    }
  }

  /** One row of the walk: its end becomes a NUL for as long as the row is read. */
  method CutAndMark(buf: array<byte>, p: nat, ghost end: nat, ghost lines: seq<Text>, ghost r: ScanRow, ssid: Text,
                    keys: array<int>)
    returns (pend: int)
    requires AtLines(buf, p, end, lines) && lines[0] == RowText(r) && CleanRow(r) && keys.Length >= 3
    modifies buf, keys
    ensures buf[..] == old(buf[..])
    ensures forall k :: 0 <= k < 3 ==> keys[k] == if Announces(r, ssid, k) then 1 else old(keys[k])
    ensures if |lines| == 1 then pend == -1 else p <= pend < end && AtLines(buf, pend, end, [[]] + lines[1..])
  {
    ghost var was := buf[..];
    pend := EndOfLine(buf, p, end, lines);
    ghost var stop := if pend == -1 then end else pend;
    FirstPart(NEWLINE, lines);
    SliceOfSlice(buf, p, end, p, stop);
    assert buf[p..stop] == lines[0];
    if pend != -1 {
      PartThenRest(NEWLINE, lines);
      assert buf[pend] == buf[p..end][pend - p] == NEWLINE;
      buf[pend] := NUL;
    }
    assert buf[p..stop] == was[p..stop];
    MarkRow(buf, p, stop, r, ssid, keys);
    if pend != -1 {
      buf[pend] := NEWLINE;
    }
    assert buf[..] == was;
    assert buf[stop..end] == was[stop..end];
  }

  /** Some of the first `n` rows announces the SSID with key type `k`. */
  ghost predicate Announced(rows: seq<ScanRow>, n: nat, ssid: Text, k: int)
    requires n <= |rows|
  {
    exists i :: 0 <= i < n && Announces(rows[i], ssid, k)
  }

  /** The table as stored: printed rows, or nothing before the first scan. */
  ghost predicate Stored(buf: array<byte>, end: nat, rows: seq<ScanRow>)
    reads buf
  {
    CString(buf, 0, end) && CleanRows(rows) && (buf[..end] == Table(rows) || (rows == [] && end == 0))
  }

  method GetKeyMgmt(buf: array<byte>, ghost end: nat, ghost rows: seq<ScanRow>, ssid: Text, keys: array<int>)
    requires Stored(buf, end, rows) && keys.Length >= 3
    modifies buf, keys
    ensures buf[..] == old(buf[..])
    ensures forall k :: 0 <= k < 3 ==> keys[k] == if Announced(rows, |rows|, ssid, k) then 1 else 0
  {
    keys[KEY_NONE_INDEX], keys[KEY_WEP_INDEX], keys[KEY_WPA_PSK_INDEX] := 0, 0, 0;
    ghost var texts := RowTexts(rows);
    var ptr := StrChr(buf, 0, end, NEWLINE);
    FirstNewline(buf, end, rows);
    ghost var i := 0;
    while ptr != -1
      invariant 0 <= i <= |rows| && buf[..] == old(buf[..])
      invariant if ptr == -1 then i == |rows|
                else 0 <= ptr < end && i < |rows| && AtLines(buf, ptr, end, [[]] + texts[i..])
      invariant forall k :: 0 <= k < 3 ==> keys[k] == if Announced(rows, i, ssid, k) then 1 else 0
      decreases |rows| - i + if ptr == -1 then 0 else 1
    {
      NextLine(buf, ptr, end, texts[i..]);
      ptr := ptr + 1;
      AnnouncedNext(rows, i, ssid);
      ptr := CutAndMark(buf, ptr, end, texts[i..], rows[i], ssid, keys);
      assert texts[i..][1..] == texts[i + 1..];
      i := i + 1;
    }
  }

  lemma FirstNewline(buf: array<byte>, end: nat, rows: seq<ScanRow>)
    requires Stored(buf, end, rows)
    ensures var p := IndexOf(buf[0..end], NEWLINE);
      if rows == [] then p == -1 else 0 <= p < end && AtLines(buf, p, end, [[]] + RowTexts(rows))
  {
    assert buf[0..end] == buf[..end];
    if end > 0 || rows != [] {
      var lines := [HEADER] + RowTexts(rows);
      LinesAreClean(rows);
      assert Without(lines[0], NEWLINE);
      FirstPart(NEWLINE, lines);
      if rows != [] {
        PartThenRest(NEWLINE, lines);
        assert lines[1..] == RowTexts(rows);
        assert buf[|HEADER|..end] == buf[0..end][|HEADER|..];
        forall i | 0 <= i < |lines| ensures Without(([[]] + lines[1..])[i], NEWLINE) {
          assert i > 0 ==> ([[]] + lines[1..])[i] == lines[i];
        }
      }
    }
  }

  lemma AnnouncedNext(rows: seq<ScanRow>, n: nat, ssid: Text)
    requires n < |rows|
    ensures forall k :: 0 <= k < 3 ==>
      (Announced(rows, n + 1, ssid, k) <==> Announced(rows, n, ssid, k) || Announces(rows[n], ssid, k))
  {
    forall k | 0 <= k < 3
      ensures Announced(rows, n + 1, ssid, k) <==> Announced(rows, n, ssid, k) || Announces(rows[n], ssid, k)
    {
    }
  }

  /** The look-up by the manager's scan form identifies the raw SSID exactly when
      all its bytes are agreeable. */
  lemma LookUpIdentifies(ssid: Text)
    ensures AllAgreeable(ssid) <==>
      forall r: ScanRow, k: int :: Announces(r, ScanForm(ssid), k) <==> r.ssid == ssid && KeyIndex(r.flags) == k
  {
    ScanFormIdentifies(ssid);
    if !AllAgreeable(ssid) {
      var t: Text :| !(ScanForm(ssid) == Encode(t) <==> ssid == t);
      var r := ScanRow([], [], 0, [], t);
      assert Announces(r, ScanForm(ssid), KeyIndex([])) <==> Encode(t) == ScanForm(ssid);
    }
  }

  // ----- the copy of the table handed out

  /** Cutting a joined text at its last separator keeps whole parts. */
  lemma {:induction false} CutKeepsParts(sep: byte, parts: seq<Text>, n: nat) returns (k: nat)
    requires parts != [] && AllWithout(parts, sep) && |parts[0]| < n < |Joined(sep, parts)|
    ensures 1 <= k < |parts| && |Joined(sep, parts[..k])| < n <= |Joined(sep, parts[..k + 1])|
    ensures var s := Joined(sep, parts)[..n];
      LastIndexOf(s, sep) == |Joined(sep, parts[..k])| && s[..LastIndexOf(s, sep)] == Joined(sep, parts[..k])
  {
    var rest := parts[1..];
    var m := n - |parts[0]| - 1;
    var s, t := Joined(sep, parts)[..n], Joined(sep, rest)[..m];
    assert s == parts[0] + [sep] + t;
    assert parts[..1] == [parts[0]];
    if m <= |rest[0]| {
      k := 1;
      assert parts[..2] == [parts[0], rest[0]];
      assert forall j :: 0 <= j < |t| ==> t[j] == rest[0][j];
      CutAfterFirst(parts[0], sep, t);
    } else {
      var q := CutKeepsParts(sep, rest, m);
      k := q + 1;
      JoinedCons(sep, parts, q);
      JoinedCons(sep, parts, q + 1);
      CutAfterMore(parts[0], sep, t);
    }
  }

  lemma JoinedCons(sep: byte, parts: seq<Text>, q: nat)
    requires 1 <= q && q + 1 <= |parts|
    ensures Joined(sep, parts[..q + 1]) == parts[0] + [sep] + Joined(sep, parts[1..][..q])
  {
    assert parts[..q + 1][1..] == parts[1..][..q];
  }

  lemma CutAfterFirst(part: Text, sep: byte, t: Text)
    requires Without(t, sep)
    ensures LastIndexOf(part + [sep] + t, sep) == |part| && (part + [sep] + t)[..|part|] == part
  {
    var s := part + [sep] + t;
    forall j | |part| < j < |s| ensures s[j] != sep {
      BehindSeparator(part, sep, t, j);
    }
    LastIs(s, sep, |part|);
  }

  lemma BehindSeparator(part: Text, sep: byte, t: Text, j: nat)
    requires |part| < j <= |part| + |t|
    ensures (part + [sep] + t)[j] == t[j - |part| - 1]
  {
  }

  lemma LastIs(s: Text, c: byte, k: nat)
    requires k < |s| && s[k] == c && forall j :: k < j < |s| ==> s[j] != c
    ensures LastIndexOf(s, c) == k
  {
  }

  lemma CutAfterMore(part: Text, sep: byte, t: Text)
    requires LastIndexOf(t, sep) >= 0
    ensures LastIndexOf(part + [sep] + t, sep) == |part| + 1 + LastIndexOf(t, sep)
    ensures (part + [sep] + t)[..|part| + 1 + LastIndexOf(t, sep)] == part + [sep] + t[..LastIndexOf(t, sep)]
  {
    var s, i := part + [sep] + t, LastIndexOf(t, sep);
    assert s[|part| + 1 + i] == sep;
    forall j | |part| + 1 + i < j < |s| ensures s[j] != sep {
      BehindSeparator(part, sep, t, j);
    }
    LastIs(s, sep, |part| + 1 + i);
  }

  /** A buffer of `len` bytes, too short for the table but longer than its header
      line, gets the table of as many leading rows as fit with their newline. */
  lemma TruncationKeepsRows(rows: seq<ScanRow>, len: nat) returns (k: nat)
    requires CleanRows(rows) && |HEADER| + 1 < len <= |Table(rows)|
    ensures k < |rows| && |Table(rows[..k])| < len - 1 <= |Table(rows[..k + 1])|
    ensures var s := Table(rows)[..len - 1];
      LastIndexOf(s, NEWLINE) == |Table(rows[..k])| && s[..LastIndexOf(s, NEWLINE)] == Table(rows[..k])
  {
    var lines := [HEADER] + RowTexts(rows);
    LinesAreClean(rows);
    var q := CutKeepsParts(NEWLINE, lines, len - 1);
    k := q - 1;
    assert lines[..q] == [HEADER] + RowTexts(rows[..k]);
    assert lines[..q + 1] == [HEADER] + RowTexts(rows[..k + 1]);
  }

  /** get_scan_results_inner: the whole table, or a table of its first rows. */
  method GetScanResultsInner(scanResults: array<byte>, scanResultsLen: nat, scanError: int, result: array<byte>,
                             len: nat, ghost rows: seq<ScanRow>)
    returns (ret: int, ghost k: nat)
    requires Stored(scanResults, scanResultsLen, rows) && 0 < len <= result.Length && result != scanResults
    modifies result
    ensures ret == if scanError != 0 then -1 else 0
    ensures len > scanResultsLen ==>
      k == |rows| && CString(result, 0, scanResultsLen) && result[..scanResultsLen] == scanResults[..scanResultsLen]
    ensures |HEADER| + 1 < len <= scanResultsLen ==>
      && k < |rows| && |Table(rows[..k])| < len - 1 <= |Table(rows[..k + 1])|
      && CString(result, 0, |Table(rows[..k])|) && result[..|Table(rows[..k])|] == Table(rows[..k])
    ensures len <= scanResultsLen && len <= |HEADER| + 1 ==>
      CString(result, 0, len - 1) && result[..len - 1] == HEADER[..len - 1]
  {
    ret, k := 0, |rows|;
    if scanError != 0 {
      ret := -1;
    }
    if len <= scanResultsLen {
      CopyFront(scanResults, scanResultsLen, result, len - 1, Table(rows));
      k := CutLastLine(result, len, rows);
    } else {
      CopyFront(scanResults, scanResultsLen, result, scanResultsLen, scanResults[..scanResultsLen]);
    }
  }

  /** strncpy of `n` bytes of a longer text, and a terminator. */
  method CopyFront(src: array<byte>, ghost end: nat, dest: array<byte>, n: nat, ghost text: Text)
    requires CString(src, 0, end) && src[..end] == text && n <= end && n < dest.Length && src != dest
    modifies dest
    ensures CString(dest, 0, n) && dest[..n] == text[..n]
  {
    forall i | 0 <= i < n {
      dest[i] := src[i];
    }
    dest[n] := NUL;
    assert dest[..n] == src[..end][..n];
  }

  /** Cuts a truncated copy at its last newline, if it has one. */
  method CutLastLine(result: array<byte>, len: nat, ghost rows: seq<ScanRow>) returns (ghost k: nat)
    requires CleanRows(rows) && 0 < len <= |Table(rows)| && len <= result.Length
    requires CString(result, 0, len - 1) && result[..len - 1] == Table(rows)[..len - 1]
    modifies result
    ensures |HEADER| + 1 < len ==>
      && k < |rows| && |Table(rows[..k])| < len - 1 <= |Table(rows[..k + 1])|
      && CString(result, 0, |Table(rows[..k])|) && result[..|Table(rows[..k])|] == Table(rows[..k])
    ensures len <= |HEADER| + 1 ==> CString(result, 0, len - 1) && result[..len - 1] == HEADER[..len - 1]
  {
    k := |rows|;
    var ptr := StrRChr(result, 0, len - 1, NEWLINE);
    assert result[0..len - 1] == result[..len - 1];
    if |HEADER| + 1 < len {
      k := TruncationKeepsRows(rows, len);
      assert result[..ptr] == result[..len - 1][..ptr];
    } else {
      HeaderFront(rows, len - 1);
    }
    if ptr != -1 {
      result[ptr] := NUL;
    }
  }

  lemma HeaderFront(rows: seq<ScanRow>, n: nat)
    requires n <= |HEADER|
    ensures n <= |Table(rows)| && Table(rows)[..n] == HEADER[..n] && LastIndexOf(HEADER[..n], NEWLINE) == -1
  {
    var lines := [HEADER] + RowTexts(rows);
    if rows != [] {
      PartIsFirst(NEWLINE, lines);
    }
    assert Table(rows)[..n] == Table(rows)[..|HEADER|][..n];
  }
}
