/** What the substring search of wpa_conf_is_ap_exist finds, in terms of the
    networks themselves: when it is the lookup by SSID it stands for, and when
    it is not. */
module NetworkMatching {
  import opened Bytes
  import opened PrintfCodec
  import opened SsidCodec
  import opened Lines
  import opened Supplicant
  import opened NetworkLookup

  // ----- the first match decides

  ghost predicate Matches(q: Search, i: nat)
    requires i < |q.ns|
  {
    q.HitAt(i) && Serves(q.ns[i], q.keyType)
  }

  /** `m` is the first row at or after `i` that matches, or the number of rows. */
  ghost predicate FirstMatch(q: Search, i: nat, m: nat) {
    && i <= m <= |q.ns| && (forall k :: i <= k < m ==> !Matches(q, k)) && (m < |q.ns| ==> Matches(q, m))
  }

  ghost predicate NoHitFrom(q: Search, i: nat) {
    forall k :: i <= k < |q.ns| ==> !q.HitAt(k)
  }

  /** The result is the mark of the last hit from row `i` on, or what it was before. */
  ghost predicate LastMark(q: Search, i: nat, f: Found, r: Found) {
    || (r == f && NoHitFrom(q, i))
    || exists k :: i <= k < |q.ns| && q.HitAt(k) && r == Found(RowFlag(q.Row(k)), k) && NoHitFrom(q, k + 1)
  }

  lemma LastMarkBefore(q: Search, i: nat, k: nat, f: Found, r: Found)
    requires i < k == i + 1 <= |q.ns|
    requires LastMark(q, k, if q.HitAt(i) then Found(RowFlag(q.Row(i)), i) else f, r)
    ensures LastMark(q, i, f, r)
  {
  }

  /** 1 or 3 are returned exactly when some row matches; 3 exactly when the first
      such row is marked as current.  Without a match the result is never the
      documented -1 but the mark, 0 or 2, of the last row that was a hit. */
  lemma {:induction false} LookupIsFirstMatch(q: Search, i: nat, f: Found, m: nat)
    requires FirstMatch(q, i, m)
    ensures var r := Lookup(q, i, f);
      if m < |q.ns| then r == Found(RowFlag(q.Row(m)) + 1, m) else LastMark(q, i, f, r)
    decreases |q.ns| - i
  {
    if i < m {
      assert !Matches(q, i);
      var k := i + 1;
      var f' := if q.HitAt(i) then Found(RowFlag(q.Row(i)), i) else f;
      LookupIsFirstMatch(q, k, f', m);
      if m == |q.ns| {
        LastMarkBefore(q, i, k, f, Lookup(q, k, f'));
      }
    } else if i < |q.ns| {
      assert Matches(q, m);
    }
  }

  // ----- a hit in terms of columns

  /** Without a newline in the SSID a hit is one within its row. */
  lemma HitInRow(q: Search, i: nat)
    requires i < |q.ns| && q.ssid != [] && Without(q.ssid, NEWLINE)
    ensures q.HitAt(i) <==> Hit(q.Row(i), q.ssid)
  {
    HitInLine(q.Rows(i), q.ssid);
  }

  /** The first occurrence of the SSID in the column is at its end. */
  predicate EndsColumn(column: Text, ssid: Text) {
    Find(column, ssid) >= 0 && Find(column, ssid) + |ssid| == |column|
  }

  /** The first column of the row that holds the SSID ends with that occurrence,
      be it the id, the SSID or the constant BSSID column. */
  predicate ColumnHit(n: Network, ssid: Text) {
    if Contains(n.id, ssid) then EndsColumn(n.id, ssid)
    else if Contains(Encode(n.ssid), ssid) then EndsColumn(Encode(n.ssid), ssid)
    else EndsColumn(ANY_BSSID, ssid)
  }

  lemma HitInColumns(n: Network, current: Text, ssid: Text)
    requires ValidId(n.id) && ssid != [] && Without(ssid, TAB)
    ensures Hit(RowText(n, current), ssid) <==> ColumnHit(n, ssid)
  {
    var fields := Fields(n, current);
    var row := RowText(n, current);
    FieldsAreClean(n, current);
    assert fields[0..] == fields;
    FindInJoined(TAB, fields, ssid, 0);
    var j := FirstWith(fields, ssid, 0);
    if j >= 0 {
      PartAt(TAB, fields, j);
      ColumnEnds(row, fields, j, ssid);
    }
    FirstOfColumns(n, current, ssid, j);
  }

  lemma FirstOfColumns(n: Network, current: Text, ssid: Text, j: int)
    requires j == FirstWith(Fields(n, current), ssid, 0)
    ensures ColumnHit(n, ssid) <==> 0 <= j < 3 && EndsColumn(Fields(n, current)[j], ssid)
  {
    var fields := Fields(n, current);
    assert fields[0] == n.id && fields[1] == Encode(n.ssid) && fields[2] == ANY_BSSID;
  }

  lemma ColumnEnds(row: Text, fields: seq<Text>, j: nat, ssid: Text)
    requires j < |fields| && Find(fields[j], ssid) >= 0 && Without(fields[j], TAB)
    requires var o := Offset(fields, 0, j);
      && o + |fields[j]| <= |row| && row[o..o + |fields[j]|] == fields[j]
      && (if j + 1 == |fields| then o + |fields[j]| == |row|
          else o + |fields[j]| < |row| && row[o + |fields[j]|] == TAB)
    ensures var k := Offset(fields, 0, j) + Find(fields[j], ssid) + |ssid|;
      (k < |row| && row[k] == TAB) <==> (j + 1 < |fields| && EndsColumn(fields[j], ssid))
  {
    var o, f := Offset(fields, 0, j), fields[j];
    var k := Find(f, ssid) + |ssid|;
    assert k <= |f|;
    if k < |f| {
      assert row[o + k] == row[o..o + |f|][k] == f[k] != TAB;
    }
  }

  /** The mark: the network is current, or its SSID spells CURRENT. */
  lemma MarkInColumns(n: Network, current: Text)
    requires ValidId(n.id)
    ensures Contains(RowText(n, current), CURRENT_WORD) <==> n.id == current || Contains(Encode(n.ssid), CURRENT_WORD)
  {
    var fields := Fields(n, current);
    assert fields[0..] == fields;
    FindInJoined(TAB, fields, CURRENT_WORD, 0);
    assert CURRENT_WORD[0] == 67;
    Absent(n.id, CURRENT_WORD, 0);
    FlagsHoldMark(n, current);
    assert |ANY_BSSID| < |CURRENT_WORD|;
    assert fields[0] == n.id && fields[1] == Encode(n.ssid) && fields[2] == ANY_BSSID && fields[3] == Flags(n, current);
  }

  /** A text without one of the pattern's bytes does not hold the pattern. */
  lemma Absent(s: Text, pat: Text, i: nat)
    requires i < |pat| && Without(s, pat[i])
    ensures !Contains(s, pat)
  {
    forall k ensures !OccursAt(s, pat, k) {
      if 0 <= k <= |s| - |pat| {
        assert s[k + i] != pat[i];
      }
    }
  }

  lemma FlagsHoldMark(n: Network, current: Text)
    ensures Contains(Flags(n, current), CURRENT_WORD) <==> n.id == current
  {
    var flags := Flags(n, current);
    if n.id == current {
      assert OccursAt(flags, CURRENT_WORD, 1);
    } else {
      assert CURRENT_WORD[0] == 67;
      assert forall i :: 0 <= i < |DISABLED| ==> DISABLED[i] != 67;
      Absent(flags, CURRENT_WORD, 0);
    }
  }

  // ----- when the search is the lookup by SSID

  /** Row `i` is a saved network of the SSID asked for, with the key type wanted. */
  ghost predicate Saved(q: Search, asked: Text, i: nat)
    requires i < |q.ns|
  {
    q.ns[i].ssid == asked && Serves(q.ns[i], q.keyType)
  }

  /** The first saved network of that SSID and key type, or the number of rows. */
  ghost predicate FirstSaved(q: Search, asked: Text, m: nat) {
    && m <= |q.ns| && (forall k :: 0 <= k < m ==> !Saved(q, asked, k)) && (m < |q.ns| ==> Saved(q, asked, m))
  }

  /** The first row of the key type that is a hit or has the SSID, or the number of rows. */
  ghost predicate FirstCandidate(q: Search, asked: Text, c: nat) {
    && c <= |q.ns| && (forall k :: 0 <= k < c ==> !Matches(q, k) && !Saved(q, asked, k))
    && (c < |q.ns| ==> Matches(q, c) || Saved(q, asked, c))
  }

  /** The search answers as a lookup by SSID and key type would: 1 or 3 for the
      first saved network, whose place it finds, and neither if there is none. */
  predicate FindsSaved(q: Search, m: nat) {
    var r := Lookup(q, 0, NOTHING_FOUND);
    ((r.flag == 1 || r.flag == 3) <==> m < |q.ns|) && (m < |q.ns| ==> r.hit == m)
  }

  /** The search is the lookup by SSID exactly when the first candidate, if there
      is one, both is a hit and has the SSID. */
  lemma LookupIsBySsid(q: Search, asked: Text, m: nat, c: nat)
    requires FirstSaved(q, asked, m) && FirstCandidate(q, asked, c)
    ensures FindsSaved(q, m) <==> c == |q.ns| || (q.HitAt(c) && q.ns[c].ssid == asked)
  {
    var f := SomeFirstMatch(q, 0);
    LookupIsFirstMatch(q, 0, NOTHING_FOUND, f);
    assert c <= f && c <= m;
    assert c < |q.ns| ==> (f == c <==> Matches(q, c)) && (m == c <==> Saved(q, asked, c));
  }

  lemma {:induction false} SomeFirstMatch(q: Search, i: nat) returns (m: nat)
    requires i <= |q.ns|
    ensures FirstMatch(q, i, m)
    decreases |q.ns| - i
  {
    if i == |q.ns| || Matches(q, i) {
      m := i;
    } else {
      m := SomeFirstMatch(q, i + 1);
    }
  }

  /** A saved network that was found is reported as connected exactly when it is
      the current one or its SSID spells CURRENT. */
  lemma FoundIsMarked(q: Search, asked: Text, m: nat)
    requires WellFormed(q.ns) && FirstSaved(q, asked, m) && m < |q.ns| && FindsSaved(q, m)
    ensures Lookup(q, 0, NOTHING_FOUND).flag == 3 <==>
      q.ns[m].id == q.current || Contains(Encode(asked), CURRENT_WORD)
  {
    var f := SomeFirstMatch(q, 0);
    LookupIsFirstMatch(q, 0, NOTHING_FOUND, f);
    assert ValidId(q.ns[m].id) by {
      assert q.ns[m].ssid == q.ns[m].ssid;
    }
    MarkInColumns(q.ns[m], q.current);
  }

  /** The SSID occurs in the listing as a whole SSID column only. */
  ghost predicate OnlyWholeColumns(q: Search) {
    forall i :: 0 <= i < |q.ns| ==>
      && !Contains(q.ns[i].id, q.ssid) && !Contains(ANY_BSSID, q.ssid)
      && (Contains(Encode(q.ns[i].ssid), q.ssid) ==> Encode(q.ns[i].ssid) == q.ssid)
  }

  /** In such a listing the search is the lookup by SSID. */
  lemma WholeColumnsFindSaved(q: Search, asked: Text, m: nat)
    requires WellFormed(q.ns) && q.ssid == Encode(asked) && q.ssid != [] && OnlyWholeColumns(q)
    requires FirstSaved(q, asked, m)
    ensures FindsSaved(q, m)
  {
    forall i | 0 <= i < |q.ns| ensures q.HitAt(i) <==> q.ns[i].ssid == asked {
      WholeColumnHit(q, asked, i);
    }
    assert forall i :: 0 <= i < |q.ns| ==> (Matches(q, i) <==> Saved(q, asked, i));
    LookupIsBySsid(q, asked, m, m);
  }

  lemma WholeColumnHit(q: Search, asked: Text, i: nat)
    requires WellFormed(q.ns) && q.ssid == Encode(asked) && q.ssid != [] && OnlyWholeColumns(q) && i < |q.ns|
    ensures q.HitAt(i) <==> q.ns[i].ssid == asked
  {
    var n := q.ns[i];
    assert ValidId(n.id) by {
      assert n.ssid == n.ssid;
    }
    EncodeIsPrintable(asked);
    HitInRow(q, i);
    HitInColumns(n, q.current, q.ssid);
    EncodeInjectiveAt(n.ssid, asked);
    if n.ssid == asked {
      FindIs(q.ssid, q.ssid, 0);
    }
  }

  lemma EncodeInjectiveAt(a: Text, b: Text)
    ensures Encode(a) == Encode(b) <==> a == b
  {
    if Encode(a) == Encode(b) {
      EncodeInjective(a, b);
    }
  }

  // ----- which SSIDs are found under their own name

  /** The spelling of an SSID the connect code looks up. */
  function LookupForm(ssid: Text): Text {
    if IsAscii(ssid) then ssid else ConfForm(ssid)
  }

  predicate Plain(ssid: Text) {
    forall i :: 0 <= i < |ssid| ==> 32 <= ssid[i] <= 126 && ssid[i] != QUOTE && ssid[i] != BACKSLASH
  }

  /** The row of a network with this id and SSID is a hit for its own SSID: the
      id, or else the printed SSID, ends where the looked-up form first occurs. */
  predicate OwnName(id: Text, ssid: Text) {
    var form := LookupForm(ssid);
    if Contains(id, form) then EndsColumn(id, form) else EndsColumn(Encode(ssid), form)
  }

  lemma OwnNameIsHit(n: Network, current: Text)
    requires ValidId(n.id) && n.ssid != [] && Without(n.ssid, TAB)
    ensures Hit(RowText(n, current), LookupForm(n.ssid)) <==> OwnName(n.id, n.ssid)
  {
    var form := LookupForm(n.ssid);
    FormBytes(n.ssid);
    HitInColumns(n, current, form);
    if !Contains(Encode(n.ssid), form) {
      NotInBssid(n.ssid);
    }
  }

  lemma FormBytes(ssid: Text)
    requires ssid != []
    ensures LookupForm(ssid) != [] && (Without(ssid, TAB) ==> Without(LookupForm(ssid), TAB))
    ensures Without(ssid, NEWLINE) ==> Without(LookupForm(ssid), NEWLINE)
    ensures !IsAscii(ssid) ==> forall i :: 0 <= i < |LookupForm(ssid)| ==> Hex2Num(LookupForm(ssid)[i]) >= 0
  {
    HexRoundTrip(ssid);
    var t := ConfForm(ssid);
    forall i | 0 <= i < |t| ensures t[i] != TAB && t[i] != NEWLINE {
      assert Hex2Num(t[i]) >= 0;
    }
  }

  /** The BSSID column ends with the form of no SSID that its own column does not hold. */
  lemma NotInBssid(ssid: Text)
    requires ssid != [] && !Contains(Encode(ssid), LookupForm(ssid))
    ensures !EndsColumn(ANY_BSSID, LookupForm(ssid))
  {
    FormBytes(ssid);
    if EndsColumn(ANY_BSSID, LookupForm(ssid)) {
      EndOfBssid(LookupForm(ssid));
      if IsAscii(ssid) {
        PlainIsFound(ssid);
      }
    }
  }

  lemma EndOfBssid(form: Text)
    requires form != [] && EndsColumn(ANY_BSSID, form)
    ensures Plain(form) && Hex2Num(form[|form| - 1]) < 0
  {
    var k := Find(ANY_BSSID, form);
    assert forall m :: 0 <= m < |form| ==> ANY_BSSID[k + m] == form[m];
    assert ANY_BSSID[2] == 121 && forall m :: 0 <= m < |ANY_BSSID| ==> 97 <= ANY_BSSID[m] <= 122;
    assert form[|form| - 1] == ANY_BSSID[k + (|form| - 1)];
  }

  /** Plain text is found. */
  lemma PlainIsFound(ssid: Text)
    requires ssid != [] && Plain(ssid)
    ensures EndsColumn(Encode(ssid), LookupForm(ssid))
  {
    EncodePlain(ssid);
    FindIs(ssid, ssid, 0);
  }

  /** So is plain text behind one leading quote, although it is printed otherwise. */
  lemma LeadingQuoteIsFound(rest: Text)
    requires Plain(rest)
    ensures var ssid := [QUOTE] + rest;
      EndsColumn(Encode(ssid), LookupForm(ssid)) && Encode(ssid) != LookupForm(ssid)
  {
    var ssid := [QUOTE] + rest;
    EncodePlain(rest);
    assert ssid[1..] == rest;
    assert Encode(ssid) == [BACKSLASH, QUOTE] + rest;
    assert Encode(ssid)[0] != ssid[0];
    assert !OccursAt(Encode(ssid), ssid, 0) by {
      assert Encode(ssid)[0 + 0] != ssid[0];
    }
    FindIs(Encode(ssid), ssid, 1);
  }

  /** So is a single octet above 127. */
  lemma OneHighOctetIsFound(b: byte)
    requires b > 127
    ensures EndsColumn(Encode([b]), LookupForm([b]))
  {
    var form, printed := LookupForm([b]), Encode([b]);
    assert [b][1..] == [] && [b][0] > 127;
    assert form == HexByte(b) + Spread(HexByte, []) && printed == EncodeByte(b) + Spread(EncodeByte, []);
    assert form == HexByte(b) && printed == [BACKSLASH, LOWER_X] + HexByte(b);
    forall j | j < 2 ensures !OccursAt(printed, form, j) {
      if j >= 0 {
        assert printed[j + 0] != form[0];
      }
    }
    FindIs(printed, form, 2);
  }

  predicate IsHex(c: byte) {
    Hex2Num(c) >= 0
  }

  /** Hexadecimal digits in a row in the printed form: at most one for each byte,
      and one more at its start. */
  lemma {:induction false} HexRun(ssid: Text, k: nat, n: nat)
    requires k + n <= |Encode(ssid)| && forall m :: k <= m < k + n ==> IsHex(Encode(ssid)[m])
    ensures n <= |ssid| + 1 && (k == 0 ==> n <= |ssid|)
  {
    if ssid != [] {
      var e, rest := EncodeByte(ssid[0]), Encode(ssid[1..]);
      assert Encode(ssid) == e + rest;
      var i := if k < |e| then 0 else k - |e|;
      var used := if k + n <= |e| then n else if k < |e| then |e| - k else 0;
      forall m | i <= m < i + n - used ensures IsHex(rest[m]) {
        assert (e + rest)[|e| + m] == rest[m];
      }
      HexRun(ssid[1..], i, n - used);
      EscapeHasHexEnd(ssid[0]);
      assert forall m :: 0 <= m < |e| ==> (e + rest)[m] == e[m];
    }
  }

  /** Only the last digit or two of an escape are hexadecimal digits. */
  lemma EscapeHasHexEnd(b: byte)
    ensures var e := EncodeByte(b); |e| == 1 || (!IsHex(e[0]) && (|e| == 2 || (|e| == 4 && !IsHex(e[1]))))
  {
  }

  /** An SSID of two or more octets that is not all ASCII is never found: its form
      is a longer row of hexadecimal digits than its printed form has. */
  lemma NonAsciiIsNotFound(ssid: Text)
    requires |ssid| >= 2 && !IsAscii(ssid)
    ensures !Contains(Encode(ssid), LookupForm(ssid))
  {
    var form, printed := LookupForm(ssid), Encode(ssid);
    FormBytes(ssid);
    HexRoundTrip(ssid);
    forall k ensures !OccursAt(printed, form, k) {
      if OccursAt(printed, form, k) {
        forall m | k <= m < k + |form| ensures IsHex(printed[m]) {
          assert printed[k + (m - k)] == form[m - k];
        }
        HexRun(ssid, k, |form|);
      }
    }
  }

  /** An SSID that is not all ASCII is found in its printed form exactly when it is
      a single octet. */
  lemma NonAsciiExactly(ssid: Text)
    requires !IsAscii(ssid)
    ensures EndsColumn(Encode(ssid), LookupForm(ssid)) <==> |ssid| == 1
  {
    if |ssid| == 1 {
      assert ssid == [ssid[0]];
      OneHighOctetIsFound(ssid[0]);
    } else {
      NonAsciiIsNotFound(ssid);
    }
  }

  /** Backslashes in front, then perhaps a quote, then plain text. */
  predicate Fronted(s: Text) {
    s != [] ==>
      if s[0] == BACKSLASH then Fronted(s[1..]) else Plain(if s[0] == QUOTE then s[1..] else s)
  }

  function LeadingBackslashes(s: Text): (n: nat)
    ensures n <= |s| && (n < |s| ==> s[n] != BACKSLASH) && forall i :: 0 <= i < n ==> s[i] == BACKSLASH
  {
    if s == [] || s[0] != BACKSLASH then 0 else 1 + LeadingBackslashes(s[1..])
  }

  predicate Backslashes(t: Text, n: nat) {
    n <= |t| && forall m :: 0 <= m < n ==> t[m] == BACKSLASH
  }

  /** The printed form of such an SSID ends with it, and what is in front are backslashes. */
  lemma {:induction false} FrontedEnds(s: Text)
    requires Fronted(s)
    ensures var e := Encode(s);
      && |s| <= |e| && e[|e| - |s|..] == s && Backslashes(e, |e| - |s| + LeadingBackslashes(s))
  {
    if s != [] && s[0] == BACKSLASH {
      FrontedEnds(s[1..]);
      PrefixBackslash(s, [BACKSLASH, BACKSLASH], Encode(s[1..]), |Encode(s[1..])| - |s[1..]|);
    } else if s != [] && s[0] == QUOTE {
      EncodePlain(s[1..]);
      assert Encode(s) == [BACKSLASH, QUOTE] + s[1..];
      assert Encode(s)[1..] == s;
    } else {
      EncodePlain(s);
    }
  }

  lemma PrefixBackslash(s: Text, e: Text, rest: Text, d: nat)
    requires s != [] && s[0] == BACKSLASH && e == [BACKSLASH, BACKSLASH] && |rest| == d + |s| - 1
    requires rest[d..] == s[1..] && Backslashes(rest, d + LeadingBackslashes(s[1..]))
    ensures (e + rest)[d + 1..] == s && Backslashes(e + rest, d + 1 + LeadingBackslashes(s))
  {
    var t := e + rest;
    assert forall m :: 2 <= m < |t| ==> t[m] == rest[m - 2];
    assert t[d + 1] == BACKSLASH;
    assert forall i :: 0 < i < |s| ==> s[i] == s[1..][i - 1] == rest[d..][i - 1] == t[d + 1 + i];
  }

  /** Only the printed form of such an SSID ends with it. */
  lemma {:induction false} EndsOnlyFronted(s: Text)
    requires |s| <= |Encode(s)| && Encode(s)[|Encode(s)| - |s|..] == s
    ensures Fronted(s) && Backslashes(Encode(s), |Encode(s)| - |s|)
  {
    if s != [] {
      var e, rest := EncodeByte(s[0]), Encode(s[1..]);
      EncodeLonger(s[1..]);
      var d := |rest| - |s[1..]|;
      EndsOneLater(s, e, rest, d);
      EndsOnlyFronted(s[1..]);
      FirstOfFronted(s, e, rest, d);
    }
  }

  lemma EndsOneLater(s: Text, e: Text, rest: Text, d: nat)
    requires s != [] && |e| >= 1 && |rest| == d + |s| - 1
    requires (e + rest)[d + |e| - 1..] == s
    ensures rest[d..] == s[1..] && s[0] == if d > 0 then rest[d - 1] else e[|e| - 1]
  {
    var t := e + rest;
    assert t[d + |e| - 1] == t[d + |e| - 1..][0];
    forall i | 0 <= i < |s| - 1 ensures rest[d..][i] == s[1..][i] {
      assert t[d + |e| - 1..][i + 1] == s[i + 1];
    }
  }

  lemma FirstOfFronted(s: Text, e: Text, rest: Text, d: nat)
    requires s != [] && e == EncodeByte(s[0]) && |rest| == d + |s| - 1
    requires s[0] == if d > 0 then rest[d - 1] else e[|e| - 1]
    requires Fronted(s[1..]) && Backslashes(rest, d) && (d == 0 ==> Plain(s[1..]))
    ensures Fronted(s) && Backslashes(e + rest, d + |e| - 1)
  {
    if d > 0 {
      assert s[0] == BACKSLASH;
    }
    assert forall m :: |e| <= m < |e + rest| ==> (e + rest)[m] == rest[m - |e|];
    assert s == [s[0]] + s[1..];
  }

  lemma EndsFronted(ssid: Text)
    requires EndsColumn(Encode(ssid), ssid)
    ensures Fronted(ssid)
  {
    var e, k := Encode(ssid), Find(Encode(ssid), ssid);
    assert forall m :: 0 <= m < |ssid| ==> e[k..][m] == e[k + m] == ssid[m];
    assert e[k..] == ssid;
    EndsOnlyFronted(ssid);
  }

  /** Exactly which SSIDs are found in their printed form: of the ASCII ones those
      with nothing but backslashes and then at most one quote in front of plain
      text, unless they are backslashes only; of the others those of one octet. */
  lemma OwnColumnExactly(ssid: Text)
    requires ssid != []
    ensures EndsColumn(Encode(ssid), LookupForm(ssid)) <==>
      if IsAscii(ssid) then Fronted(ssid) && LeadingBackslashes(ssid) < |ssid| else |ssid| == 1
  {
    if !IsAscii(ssid) {
      NonAsciiExactly(ssid);
    } else if Fronted(ssid) {
      FrontedExactly(ssid);
    } else if EndsColumn(Encode(ssid), ssid) {
      EndsFronted(ssid);
    }
  }

  lemma FrontedExactly(ssid: Text)
    requires ssid != [] && Fronted(ssid)
    ensures EndsColumn(Encode(ssid), ssid) <==> LeadingBackslashes(ssid) < |ssid|
  {
    FrontedEnds(ssid);
    var e, b := Encode(ssid), LeadingBackslashes(ssid);
    var d := |e| - |ssid|;
    assert forall m :: 0 <= m < |ssid| ==> e[d + m] == e[d..][m] == ssid[m];
    if b < |ssid| {
      forall j | 0 <= j < d ensures !OccursAt(e, ssid, j) {
        assert e[j + b] == BACKSLASH != ssid[b];
      }
      FindIs(e, ssid, d);
    } else {
      EncodeLonger(ssid);
      assert ssid[0] == BACKSLASH;
      FindIs(e, ssid, 0);
    }
  }

  /** The listing spells an SSID as the lookup does exactly when it is plain text. */
  lemma FormIsPrinted(ssid: Text)
    requires ssid != []
    ensures LookupForm(ssid) == Encode(ssid) <==> Plain(ssid)
  {
    if Plain(ssid) {
      EncodePlain(ssid);
    } else if IsAscii(ssid) {
      EncodeLonger(ssid);
    } else {
      ConfFormIsPrintedOnlyByItself(ssid, ssid);
    }
  }

  lemma {:induction false} EncodeLonger(s: Text)
    ensures |Encode(s)| >= |s| && (!Plain(s) ==> |Encode(s)| > |s|)
  {
    if s != [] {
      EncodeLonger(s[1..]);
      assert s == [s[0]] + s[1..];
    }
  }

  // ----- what else is found

  /** Any network's id is taken for an SSID. */
  lemma IdIsTakenForSsid(n: Network, current: Text)
    requires ValidId(n.id)
    ensures Hit(RowText(n, current), n.id)
  {
    FieldsAreClean(n, current);
    assert Without(Fields(n, current)[0], TAB);
    FindIs(n.id, n.id, 0);
    HitInColumns(n, current, n.id);
  }

  /** So is the end of a longer SSID. */
  lemma SuffixIsTakenForSsid(n: Network, current: Text, ssid: Text)
    requires ValidId(n.id) && ssid != [] && Without(ssid, TAB)
    requires !Contains(n.id, ssid) && EndsColumn(Encode(n.ssid), ssid)
    ensures Hit(RowText(n, current), ssid)
  {
    HitInColumns(n, current, ssid);
  }

  /** A table without any network of the SSID asked for, for which the lookup
      still answers 1 and hands out the id of another network. */
  lemma LookupFindsAnother() returns (q: Search)
    ensures WellFormed(q.ns) && q.ssid != [] && Plain(q.ssid)
    ensures forall i :: 0 <= i < |q.ns| ==> q.ns[i].ssid != q.ssid
    ensures Lookup(q, 0, NOTHING_FOUND) == Found(1, 0)
  {
    var n := Network([49], Ascii("home"), NONE, 0, map[], true);
    q := Search([n], [], n.id, NONE);
    PlaceIs(q.ns, n.id, 0);
    HomeIsUnmarked(n);
    IdIsTakenForSsid(n, []);
    assert Without(n.id, NEWLINE);
    HitInRow(q, 0);
    assert Stripped(NONE) == NONE;
    LookupIsFirstMatch(q, 0, NOTHING_FOUND, 0);
  }

  lemma HomeIsUnmarked(n: Network)
    requires n.id == [49] && n.ssid == Ascii("home")
    ensures ValidId(n.id) && n.ssid != n.id && !Contains(RowText(n, []), CURRENT_WORD)
  {
    EncodePlain(n.ssid);
    MarkInColumns(n, []);
    assert |n.ssid| == 4 < |CURRENT_WORD|;
  }
}
