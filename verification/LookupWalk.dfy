/** Whether the loop of wpa_conf_is_ap_exist ends (wpa_supplicant_conf.c): its
    turns as a function of the text of the listing. */
module LookupWalk {
  import opened Bytes
  import opened Lines
  import opened Supplicant
  import opened NetworkListing
  import opened NetworkLookup

  /** A TAB stands behind what was found at `s`. */
  predicate TabBehind(t: Text, ssid: Text, s: nat) {
    s + |ssid| < |t| && t[s + |ssid|] == TAB
  }

  /** The first newline at or after `s`, or the end of the text. */
  function EndOfRow(t: Text, s: nat): (e: nat)
    requires s <= |t|
    ensures s <= e <= |t| && (e < |t| ==> t[e] == NEWLINE) && forall m :: s <= m < e ==> t[m] != NEWLINE
  {
    var k := IndexOf(t[s..], NEWLINE);
    assert forall m :: s <= m < |t| ==> t[m] == t[s..][m - s];
    if k < 0 then |t| else s + k
  }

  /** Where one turn that looks from `p` on leaves the search, if a key type asked
      for is not the one wanted.  None when the turn is the last: the SSID is not
      found, the row is the last one, or a hit has no newline in front of it. */
  function Next(t: Text, ssid: Text, p: nat): (r: Option<nat>)
    requires p <= |t|
    ensures r.Some? ==> p <= r.value < |t|
  {
    var k := Find(t[p..], ssid);
    if k < 0 then None
    else
      var e := EndOfRow(t, p + k);
      if e == |t| || (TabBehind(t, ssid, p + k) && LastIndexOf(t[p..e], NEWLINE) < 0) then None else Some(e)
  }

  /** Where the search is after `n` turns. */
  function After(t: Text, ssid: Text, n: nat): (r: Option<nat>)
    ensures r.Some? ==> r.value <= |t|
  {
    if n == 0 then Some(0)
    else
      var r := After(t, ssid, n - 1);
      if r.None? then None else Next(t, ssid, r.value)
  }

  ghost predicate NeverEnds(t: Text, ssid: Text) {
    forall n: nat :: After(t, ssid, n).Some?
  }

  /** Unless the SSID starts with a newline, every turn moves on. */
  lemma TurnMovesOn(t: Text, ssid: Text, p: nat)
    requires p <= |t| && ssid != [] && ssid[0] != NEWLINE && Next(t, ssid, p).Some?
    ensures p < Next(t, ssid, p).value
  {
    var k := Find(t[p..], ssid);
    assert t[p..][k + 0] == ssid[0];
  }

  lemma {:induction false} MovedFar(t: Text, ssid: Text, n: nat)
    requires ssid != [] && ssid[0] != NEWLINE && After(t, ssid, n).Some?
    ensures n <= After(t, ssid, n).value
  {
    if n > 0 {
      var m := n - 1;
      MovedFar(t, ssid, m);
      FurtherOn(t, ssid, After(t, ssid, m), After(t, ssid, n));
    }
  }

  lemma FurtherOn(t: Text, ssid: Text, r: Option<nat>, r': Option<nat>)
    requires ssid != [] && ssid[0] != NEWLINE && r.Some? && r.value <= |t| && r' == Next(t, ssid, r.value) && r'.Some?
    ensures r.value < r'.value
  {
    TurnMovesOn(t, ssid, r.value);
  }

  /** An SSID that starts with a newline is found again where the turn has left
      the search: the next turn stays there, or finds no newline in front of a hit. */
  lemma TurnRepeats(t: Text, ssid: Text, p: nat)
    requires p <= |t| && ssid != [] && ssid[0] == NEWLINE && Next(t, ssid, p).Some?
    ensures var q := Next(t, ssid, p).value;
      && q == p + Find(t[p..], ssid) && OccursAt(t, ssid, q)
      && Next(t, ssid, q) == if TabBehind(t, ssid, q) then None else Some(q)
  {
    var k := Find(t[p..], ssid);
    var q := p + k;
    forall m | 0 <= m < |ssid| ensures t[q + m] == ssid[m] && t[q..][0 + m] == ssid[m] {
      assert t[p..][k + m] == ssid[m];
    }
    assert t[q + 0] == NEWLINE && EndOfRow(t, q) == q;
    FindIs(t[q..], ssid, 0);
    assert t[q..q] == [];
  }

  lemma {:induction false} StaysFrom(t: Text, ssid: Text, q: nat, n: nat)
    requires q <= |t| && Next(t, ssid, q) == Some(q) && After(t, ssid, 1) == Some(q)
    ensures n >= 1 ==> After(t, ssid, n) == Some(q)
  {
    if n > 1 {
      StaysFrom(t, ssid, q, n - 1);
    }
  }

  /** The search goes on for ever exactly when the SSID starts with a newline, the
      text holds it, and no TAB stands behind its first occurrence. */
  lemma NeverEndsExactly(t: Text, ssid: Text)
    requires ssid != []
    ensures NeverEnds(t, ssid) <==>
      ssid[0] == NEWLINE && Contains(t, ssid) && !TabBehind(t, ssid, Find(t, ssid))
  {
    assert t[0..] == t;
    assert After(t, ssid, 0) == Some(0) && After(t, ssid, 1) == Next(t, ssid, 0);
    if ssid[0] != NEWLINE {
      if After(t, ssid, |t| + 1).Some? {
        MovedFar(t, ssid, |t| + 1);
      }
    } else if !Contains(t, ssid) {
      assert After(t, ssid, 1).None?;
    } else {
      FromNewline(t, ssid);
    }
  }

  lemma FromNewline(t: Text, ssid: Text)
    requires ssid != [] && ssid[0] == NEWLINE && Contains(t, ssid)
    ensures NeverEnds(t, ssid) <==> !TabBehind(t, ssid, Find(t, ssid))
  {
    var q := Find(t, ssid);
    assert t[0..] == t && t[q + 0] == NEWLINE && EndOfRow(t, q) == q;
    assert After(t, ssid, 0) == Some(0) && After(t, ssid, 1) == Next(t, ssid, 0);
    if After(t, ssid, 1).Some? {
      TurnRepeats(t, ssid, 0);
      assert After(t, ssid, 2) == Next(t, ssid, q);
      if !TabBehind(t, ssid, q) {
        forall n: nat ensures After(t, ssid, n).Some? {
          StaysFrom(t, ssid, q, n);
        }
      }
    }
  }

  /** The text of the lines a search has in front of it at the start. */
  function Shown(q: Search): Text {
    Joined(NEWLINE, LinesFrom(q, HEADER, 0))
  }

  /** A lookup stalls exactly when the loop over the listing never ends. */
  lemma StallsExactly(q: Search)
    requires q.ssid != []
    ensures CourseFrom(q, HEADER, 0) == Stalled <==> NeverEnds(Shown(q), q.ssid)
  {
    StallsAtFirst(q);
    NeverEndsExactly(Shown(q), q.ssid);
  }

  lemma StallsAtFirst(q: Search)
    requires q.ssid != []
    ensures var t := Shown(q);
      CourseFrom(q, HEADER, 0) == Stalled <==>
        q.ssid[0] == NEWLINE && Contains(t, q.ssid) && !TabBehind(t, q.ssid, Find(t, q.ssid))
  {
    var lines := LinesFrom(q, HEADER, 0);
    assert lines[0..] == lines;
    FindFirstStart(NEWLINE, lines, q.ssid, 0);
    var j := FirstStart(NEWLINE, lines, q.ssid, 0);
    if j < 0 {
      assert !Contains(Shown(q), q.ssid);
    } else {
      TabBehindHit(lines, j, lines[j..], q.ssid);
      assert Contains(Shown(q), q.ssid);
    }
  }

  lemma TabBehindHit(lines: seq<Text>, j: nat, tail: seq<Text>, ssid: Text)
    requires j < |lines| && tail == lines[j..] && StartsIn(NEWLINE, lines, j, ssid)
    ensures var k := Find(Joined(NEWLINE, tail), ssid);
      k >= 0 && (TabBehind(Joined(NEWLINE, lines), ssid, Offset(lines, 0, j) + k) <==> HitLines(tail, ssid))
  {
    JoinedTail(NEWLINE, lines, j, tail);
    var k := Find(Joined(NEWLINE, tail), ssid);
    assert tail[0] == lines[j];
    TabInTail(Joined(NEWLINE, lines), Offset(lines, 0, j), Joined(NEWLINE, tail), k, ssid);
  }

  lemma TabInTail(t: Text, o: nat, tail: Text, k: nat, ssid: Text)
    requires o <= |t| && t[o..] == tail
    ensures TabBehind(t, ssid, o + k) <==> TabBehind(tail, ssid, k)
  {
    if k + |ssid| < |tail| {
      assert tail[k + |ssid|] == t[o + k + |ssid|];
    }
  }

  /** The lookup of the SSID that is a newline never ends, as soon as there is a row. */
  lemma NewlineStalls(q: Search)
    requires WellFormed(q.ns) && q.ssid == [NEWLINE]
    ensures NeverEnds(Shown(q), q.ssid) <==> q.ns != []
  {
    var lines, t := LinesFrom(q, HEADER, 0), Shown(q);
    assert Without(HEADER, NEWLINE);
    HeadAt(NEWLINE, lines);
    NeverEndsExactly(t, q.ssid);
    if q.ns == [] {
      forall j ensures !OccursAt(t, q.ssid, j) {
        assert 0 <= j < |t| ==> t[j + 0] != NEWLINE;
      }
    } else {
      NewlineBehindHeader(q);
    }
  }

  lemma NewlineBehindHeader(q: Search)
    requires WellFormed(q.ns) && q.ns != [] && q.ssid == [NEWLINE]
    ensures Find(Shown(q), q.ssid) == |HEADER| && !TabBehind(Shown(q), q.ssid, |HEADER|)
  {
    var t := Shown(q);
    FirstRow(q);
    forall j | 0 <= j < |HEADER| ensures !OccursAt(t, q.ssid, j) {
      assert t[j + 0] == t[..|HEADER|][j] == HEADER[j] != NEWLINE;
    }
    FindIs(t, q.ssid, |HEADER|);
    assert t[|HEADER| + 1 + 0] == q.ns[0].id[0];
  }

  /** The first row starts with its id, which a TAB follows. */
  lemma FirstRow(q: Search)
    requires WellFormed(q.ns) && q.ns != []
    ensures var t, id := Shown(q), q.ns[0].id;
      && |HEADER| + 1 + |id| < |t| && t[..|HEADER|] == HEADER && t[|HEADER|] == NEWLINE && ValidId(id)
      && (forall m :: 0 <= m < |id| ==> t[|HEADER| + 1 + m] == id[m]) && t[|HEADER| + 1 + |id|] == TAB
  {
    var lines, t, n := LinesFrom(q, HEADER, 0), Shown(q), q.ns[0];
    assert ValidId(n.id) by {
      assert n.ssid == n.ssid;
    }
    var o := |HEADER| + 1;
    HeadAt(NEWLINE, lines);
    FirstRowAt(q);
    IdColumn(n, q.current, []);
    var row := q.Row(0);
    assert row + [] == row;
    forall m | 0 <= m < |row| ensures t[o + m] == row[m] {
      assert t[o..o + |row|][m] == row[m];
    }
    assert forall m :: 0 <= m < |n.id| ==> row[m] == row[..|n.id|][m];
  }

  lemma FirstRowAt(q: Search)
    requires WellFormed(q.ns) && q.ns != []
    ensures var t, o := Shown(q), |HEADER| + 1; o + |q.Row(0)| <= |t| && t[o..o + |q.Row(0)|] == q.Row(0)
  {
    var lines := LinesFrom(q, HEADER, 0);
    FieldsAreClean(q.ns[0], q.current) by {
      assert q.ns[0].ssid == q.ns[0].ssid;
    }
    assert lines[1] == q.Row(0);
    assert Offset(lines, 0, 1) == |HEADER| + 1;
    PartAt(NEWLINE, lines, 1);
  }

  /** An SSID that runs from the end of the header over the first id is taken for
      a column of the header: the search leaves the reply. */
  lemma HeaderIsTaken(q: Search)
    requires WellFormed(q.ns) && q.ns != [] && q.ssid == [HEADER[|HEADER| - 1], NEWLINE] + q.ns[0].id
    ensures CourseFrom(q, HEADER, 0) == Wild
  {
    var lines, t, k := LinesFrom(q, HEADER, 0), Shown(q), |HEADER| - 1;
    FirstRow(q);
    forall m | 0 <= m < |q.ssid| ensures t[k + m] == q.ssid[m] {
      assert m == 0 ==> t[..|HEADER|][k] == t[k];
    }
    forall j | 0 <= j < k ensures !OccursAt(t, q.ssid, j) {
      assert t[j + 1] == t[..|HEADER|][j + 1] == HEADER[j + 1] != NEWLINE == q.ssid[1];
    }
    FindIs(t, q.ssid, k);
    assert lines[0..] == lines;
  }
}
