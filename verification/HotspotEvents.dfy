/** The change events of the hotspot list and a client that replays them.

    A client holds a table from BSSID to attributes; it applies every change
    event it receives and empties its table when it learns that the list was
    cleared.  The theorems say that such a client always holds the table of the
    server. */
module HotspotEvents {
  import opened Bytes
  import opened HotspotList

  datatype Attrs = Attrs(ssid: Text, signal: int, capabilities: Text)

  type Table = map<Text, Attrs>

  datatype Found = Found(bssid: Text, attrs: Attrs)

  /** Only the attributes that differ are sent. */
  datatype Change = Change(bssid: Text, signal: Option<int>, ssid: Option<Text>, capabilities: Option<Text>)

  datatype Notice =
    | SignalStrengthChanged(bssid: Text, ssid: Text, signal: int)
    | HotspotsChanged(found: seq<Found>, missed: seq<Text>, changed: seq<Change>)

  /** What a client learns: a fired event, or that the list was emptied. */
  datatype Entry = Fired(notice: Notice) | Emptied

  function AttrsOf(ap: Ap): Attrs {
    Attrs(ap.ssid, ap.signal, ap.capabilities)
  }

  function TableOf(c: seq<Ap>): (t: Table)
    ensures forall b :: b in t <==> Place(c, b) >= 0
    ensures forall b :: b in t ==> t[b] == AttrsOf(c[Place(c, b)])
  {
    map b | b in set i | 0 <= i < |c| :: c[i].bssid :: AttrsOf(c[Place(c, b)])
  }

  // ----- the event for a pair of lists

  function FoundIn(was: seq<Ap>, now: seq<Ap>): seq<Found> {
    if now == [] then [] else
      var n := now[|now| - 1];
      FoundIn(was, now[..|now| - 1]) + if Place(was, n.bssid) < 0 then [Found(n.bssid, AttrsOf(n))] else []
  }

  function MissedIn(was: seq<Ap>, now: seq<Ap>): seq<Text> {
    if was == [] then [] else
      var o := was[|was| - 1];
      MissedIn(was[..|was| - 1], now) + if Place(now, o.bssid) < 0 then [o.bssid] else []
  }

  function Differing<T(==)>(a: T, b: T): Option<T> {
    if a != b then Some(b) else None
  }

  function ChangeOf(o: Ap, n: Ap): seq<Change> {
    if AttrsOf(o) == AttrsOf(n) then []
    else [Change(n.bssid, Differing(o.signal, n.signal), Differing(o.ssid, n.ssid),
                 Differing(o.capabilities, n.capabilities))]
  }

  function ChangedIn(was: seq<Ap>, now: seq<Ap>): seq<Change> {
    if was == [] then [] else
      var o := was[|was| - 1];
      var k := Place(now, o.bssid);
      ChangedIn(was[..|was| - 1], now) + if k >= 0 then ChangeOf(o, now[k]) else []
  }

  function Diff(was: seq<Ap>, now: seq<Ap>): Notice {
    HotspotsChanged(FoundIn(was, now), MissedIn(was, now), ChangedIn(was, now))
  }

  /** The head of the list is the connected access point. */
  predicate Leads(c: seq<Ap>, bssid: Text) {
    bssid != [] && c != [] && c[0].bssid == bssid
  }

  /** The strength event of the connected access point, if it leads the list. */
  function StrengthFired(bssid: Text, c: seq<Ap>): seq<Entry> {
    if Leads(c, bssid) then [Fired(SignalStrengthChanged(bssid, c[0].ssid, c[0].signal))] else []
  }

  /** What one report fires: the strength of the connected access point, then the differences. */
  function Fires(bssid: Text, was: seq<Ap>, now: seq<Ap>): seq<Entry> {
    StrengthFired(bssid, now) + [Fired(Diff(was, now))]
  }

  // ----- the client

  function WithFound(t: Table, found: seq<Found>): Table {
    if found == [] then t else
      var f := found[|found| - 1];
      WithFound(t, found[..|found| - 1])[f.bssid := f.attrs]
  }

  function Updated(a: Attrs, c: Change): Attrs {
    Attrs(if c.ssid.Some? then c.ssid.value else a.ssid,
          if c.signal.Some? then c.signal.value else a.signal,
          if c.capabilities.Some? then c.capabilities.value else a.capabilities)
  }

  function WithChanged(t: Table, changed: seq<Change>): (r: Table)
    ensures r.Keys == t.Keys
  {
    if changed == [] then t else
      var c, r := changed[|changed| - 1], WithChanged(t, changed[..|changed| - 1]);
      if c.bssid in r then r[c.bssid := Updated(r[c.bssid], c)] else r
  }

  function Learn(t: Table, e: Entry): Table {
    match e
    case Emptied => map[]
    case Fired(SignalStrengthChanged(_, _, _)) => t
    case Fired(HotspotsChanged(found, missed, changed)) =>
      WithFound(WithChanged(t - (set b | b in missed), changed), found)
  }

  function Client(history: seq<Entry>): Table {
    if history == [] then map[]
    else Learn(Client(history[..|history| - 1]), history[|history| - 1])
  }

  // ----- the event is exact

  lemma {:induction false} MissedIsDifference(was: seq<Ap>, now: seq<Ap>)
    ensures forall b :: b in MissedIn(was, now) <==> b in TableOf(was) && b !in TableOf(now)
  {
    if was != [] {
      MissedIsDifference(was[..|was| - 1], now);
    }
  }

  lemma LastIsNew(c: seq<Ap>)
    requires c != [] && DistinctBssids(c)
    ensures DistinctBssids(c[..|c| - 1]) && Place(c[..|c| - 1], c[|c| - 1].bssid) < 0
  {
    var init := c[..|c| - 1];
    assert Row(c, |c| - 1);
    forall i | Row(init, i) ensures Place(init, init[i].bssid) == i {
      assert Row(c, i);
    }
  }

  lemma {:induction false} FoundIsDifference(was: seq<Ap>, now: seq<Ap>)
    requires DistinctBssids(now)
    ensures forall b, a :: Found(b, a) in FoundIn(was, now) <==>
      b !in TableOf(was) && b in TableOf(now) && TableOf(now)[b] == a
  {
    if now != [] {
      LastIsNew(now);
      FoundIsDifference(was, now[..|now| - 1]);
    }
  }

  /** The change the event must carry for a BSSID that both tables hold. */
  function Expected(b: Text, o: Attrs, n: Attrs): Change {
    Change(b, Differing(o.signal, n.signal), Differing(o.ssid, n.ssid), Differing(o.capabilities, n.capabilities))
  }

  lemma {:induction false} ChangedIsExact(was: seq<Ap>, now: seq<Ap>)
    requires DistinctBssids(was)
    ensures forall c :: c in ChangedIn(was, now) <==>
      && c.bssid in TableOf(was) && c.bssid in TableOf(now)
      && TableOf(was)[c.bssid] != TableOf(now)[c.bssid]
      && c == Expected(c.bssid, TableOf(was)[c.bssid], TableOf(now)[c.bssid])
  {
    if was != [] {
      LastIsNew(was);
      ChangedIsExact(was[..|was| - 1], now);
    }
  }

  // ----- replaying one event

  lemma WithChangedNext(t: Table, changed: seq<Change>, c: Change)
    ensures var r := WithChanged(t, changed);
      WithChanged(t, changed + [c]) == if c.bssid in r then r[c.bssid := Updated(r[c.bssid], c)] else r
  {
    assert (changed + [c])[..|changed|] == changed;
  }

  lemma WithFoundNext(t: Table, found: seq<Found>, f: Found)
    ensures WithFound(t, found + [f]) == WithFound(t, found)[f.bssid := f.attrs]
  {
    assert (found + [f])[..|found|] == found;
  }

  lemma {:induction false} ReplayChanged(t: Table, was: seq<Ap>, now: seq<Ap>, b: Text)
    requires DistinctBssids(was) && b in t
    requires Place(was, b) >= 0 && Place(now, b) >= 0 ==> t[b] == AttrsOf(was[Place(was, b)])
    ensures WithChanged(t, ChangedIn(was, now))[b] ==
      if Place(was, b) >= 0 && Place(now, b) >= 0 then AttrsOf(now[Place(now, b)]) else t[b]
  {
    if was != [] {
      var init, o := was[..|was| - 1], was[|was| - 1];
      LastIsNew(was);
      ReplayChanged(t, init, now, b);
      var k := Place(now, o.bssid);
      var before := ChangedIn(init, now);
      if k >= 0 && AttrsOf(o) != AttrsOf(now[k]) {
        var c := ChangeOf(o, now[k])[0];
        WithChangedNext(t, before, c);
        assert ChangedIn(was, now) == before + [c];
      } else {
        assert ChangedIn(was, now) == before;
      }
    }
  }

  lemma {:induction false} ReplayFound(t: Table, was: seq<Ap>, now: seq<Ap>, b: Text)
    requires DistinctBssids(now)
    ensures
      var r, isNew := WithFound(t, FoundIn(was, now)), Place(was, b) < 0 && Place(now, b) >= 0;
      && (b in r <==> b in t || isNew)
      && (b in r ==> r[b] == if isNew then AttrsOf(now[Place(now, b)]) else t[b])
  {
    if now != [] {
      var init, n := now[..|now| - 1], now[|now| - 1];
      LastIsNew(now);
      ReplayFound(t, was, init, b);
      var before := FoundIn(was, init);
      if Place(was, n.bssid) < 0 {
        WithFoundNext(t, before, Found(n.bssid, AttrsOf(n)));
        assert FoundIn(was, now) == before + [Found(n.bssid, AttrsOf(n))];
      } else {
        assert FoundIn(was, now) == before;
      }
    }
  }

  /** A client that holds the old table and applies the event holds the new one. */
  lemma ReplayIsExact(was: seq<Ap>, now: seq<Ap>)
    requires DistinctBssids(was) && DistinctBssids(now)
    ensures Learn(TableOf(was), Fired(Diff(was, now))) == TableOf(now)
  {
    var r := Learn(TableOf(was), Fired(Diff(was, now)));
    forall b ensures b in r <==> b in TableOf(now)
      ensures b in r ==> r[b] == TableOf(now)[b]
    {
      ReplayAt(TableOf(was), was, now, b);
    }
  }

  /** The same for a table that holds more than the old one: what neither list
      has stays. */
  lemma ReplayAt(t: Table, was: seq<Ap>, now: seq<Ap>, b: Text)
    requires DistinctBssids(was) && DistinctBssids(now)
    requires b in TableOf(was) ==> b in t && t[b] == TableOf(was)[b]
    ensures
      var r := Learn(t, Fired(Diff(was, now)));
      && (b in r <==> b in TableOf(now) || (b in t && b !in TableOf(was)))
      && (b in TableOf(now) ==> r[b] == TableOf(now)[b])
  {
    var kept := t - (set x | x in MissedIn(was, now));
    assert b in kept <==> b in t && (Place(was, b) < 0 || Place(now, b) >= 0) by {
      MissedIsDifference(was, now);
    }
    if b in kept {
      ReplayChanged(kept, was, now, b);
    }
    ReplayFound(WithChanged(kept, ChangedIn(was, now)), was, now, b);
  }

  /** Moving the rows of a list around leaves its table alone. */
  lemma RearrangedTable(c0: seq<Ap>, c: seq<Ap>)
    requires DistinctBssids(c0) && Rearranged(c0, c)
    ensures TableOf(c) == TableOf(c0)
  {
    SameElements(c0, c);
    forall b ensures b in TableOf(c) <==> b in TableOf(c0)
      ensures b in TableOf(c) ==> TableOf(c)[b] == TableOf(c0)[b]
    {
      var k, k0 := Place(c, b), Place(c0, b);
      if k >= 0 {
        assert c[k] in c0;
        var m :| 0 <= m < |c0| && c0[m] == c[k];
        assert Row(c0, m);
      }
      if k0 >= 0 {
        assert c0[k0] in c;
      }
    }
  }

  // ----- whole runs

  /** A report with the connected BSSID and the list it stores, a report of an
      empty scan, or a clear. */
  datatype Step = Report(bssid: Text, stored: seq<Ap>) | EmptyReport | Clear

  function Stored(run: seq<Step>): seq<Ap> {
    if run == [] then []
    else
      match run[|run| - 1]
      case Report(_, stored) => stored
      case EmptyReport => Stored(run[..|run| - 1])
      case Clear => []
  }

  function History(run: seq<Step>): seq<Entry> {
    if run == [] then []
    else
      var before := run[..|run| - 1];
      History(before) +
      match run[|run| - 1]
      case Report(bssid, stored) => Fires(bssid, Stored(before), stored)
      case EmptyReport => []
      case Clear => [Emptied]
  }

  ghost predicate WellFormedRun(run: seq<Step>) {
    forall i :: 0 <= i < |run| && run[i].Report? ==> DistinctBssids(run[i].stored)
  }

  lemma ClientStep(history: seq<Entry>, e: Entry)
    ensures Client(history + [e]) == Learn(Client(history), e)
  {
    assert (history + [e])[..|history|] == history;
  }

  /** A client in step with the server stays in step over a report. */
  lemma ClientFollowsReport(history: seq<Entry>, bssid: Text, was: seq<Ap>, now: seq<Ap>)
    requires DistinctBssids(was) && DistinctBssids(now) && Client(history) == TableOf(was)
    ensures Client(history + Fires(bssid, was, now)) == TableOf(now)
  {
    ReplayIsExact(was, now);
    var fires := Fires(bssid, was, now);
    if |fires| == 1 {
      ClientStep(history, fires[0]);
    } else {
      ClientStep(history, fires[0]);
      ClientStep(history + [fires[0]], fires[1]);
      assert history + [fires[0]] + [fires[1]] == history + fires;
    }
  }

  /** After every run the client that only replays holds the server's table. */
  lemma {:induction false} ClientFollowsServer(run: seq<Step>)
    requires WellFormedRun(run)
    ensures DistinctBssids(Stored(run)) && Client(History(run)) == TableOf(Stored(run))
  {
    if run != [] {
      var before := run[..|run| - 1];
      ClientFollowsServer(before);
      match run[|run| - 1]
      case Report(bssid, stored) =>
        ClientFollowsReport(History(before), bssid, Stored(before), stored);
      case EmptyReport =>
        assert History(run) == History(before);
      case Clear =>
        ClientStep(History(before), Emptied);
    }
  }

  // ----- a client that hears the events alone

  /** The table of a client that is not told when the list is emptied. */
  function Listener(history: seq<Entry>): Table {
    if history == [] then map[]
    else
      var before, e := Listener(history[..|history| - 1]), history[|history| - 1];
      if e == Emptied then before else Learn(before, e)
  }

  lemma ListenerStep(history: seq<Entry>, e: Entry)
    ensures Listener(history + [e]) == if e == Emptied then Listener(history) else Learn(Listener(history), e)
  {
    assert (history + [e])[..|history|] == history;
  }

  lemma ListenerHears(history: seq<Entry>, bssid: Text, was: seq<Ap>, now: seq<Ap>)
    ensures Listener(history + Fires(bssid, was, now)) == Learn(Listener(history), Fired(Diff(was, now)))
  {
    var strength, diff := StrengthFired(bssid, now), Fired(Diff(was, now));
    assert history + (strength + [diff]) == history + strength + [diff];
    ListenerStep(history + strength, diff);
    if strength == [] {
      assert history + strength == history;
    } else {
      ListenerStep(history, strength[0]);
    }
  }

  /** Step `k` emptied a list with this BSSID, and no report has shown it since. */
  ghost predicate ForgottenAt(run: seq<Step>, k: nat, b: Text) {
    && k < |run| && run[k].Clear? && b in TableOf(Stored(run[..k]))
    && forall j :: k < j < |run| && run[j].Report? ==> b !in TableOf(run[j].stored)
  }

  ghost predicate Forgotten(run: seq<Step>, b: Text) {
    exists k :: 0 <= k < |run| && ForgottenAt(run, k, b)
  }

  lemma ForgottenStays(before: seq<Step>, s: Step, k: nat, b: Text)
    requires k < |before|
    ensures ForgottenAt(before + [s], k, b) <==> ForgottenAt(before, k, b) && !(s.Report? && b in TableOf(s.stored))
  {
    var run := before + [s];
    assert run[..k] == before[..k];
    assert run[|before|] == s && forall j :: 0 <= j < |before| ==> run[j] == before[j];
  }

  lemma ForgottenNext(run: seq<Step>, b: Text)
    requires run != []
    ensures var before, s := run[..|run| - 1], run[|run| - 1];
      Forgotten(run, b) <==>
        || (Forgotten(before, b) && !(s.Report? && b in TableOf(s.stored)))
        || (s.Clear? && b in TableOf(Stored(before)))
  {
    var last := |run| - 1;
    var before := run[..last];
    forall k | 0 <= k < last
      ensures ForgottenAt(run, k, b) <==>
        ForgottenAt(before, k, b) && !(run[last].Report? && b in TableOf(run[last].stored))
    {
      ForgottenStays(before, run[last], k, b);
      assert before + [run[last]] == run;
    }
    assert ForgottenAt(run, last, b) <==> run[last].Clear? && b in TableOf(Stored(before));
  }

  /** Such a client holds the server's table and, besides, exactly the access
      points that were listed when the list was emptied and that no report has
      shown since. */
  lemma {:induction false} ListenerHoldsMore(run: seq<Step>, b: Text)
    requires WellFormedRun(run)
    ensures var t, s := Listener(History(run)), TableOf(Stored(run));
      && (b in s ==> b in t && t[b] == s[b]) && (b in t <==> b in s || Forgotten(run, b))
      && !(b in s && Forgotten(run, b))
  {
    if run != [] {
      var before := run[..|run| - 1];
      ListenerHoldsMore(before, b);
      ForgottenNext(run, b);
      match run[|run| - 1]
      case Report(bssid, stored) =>
        ClientFollowsServer(before);
        ListenerHears(History(before), bssid, Stored(before), stored);
        ReplayAt(Listener(History(before)), Stored(before), stored, b);
      case EmptyReport =>
        assert History(run) == History(before);
      case Clear =>
        ListenerStep(History(before), Emptied);
    }
  }

  /** It holds the server's table exactly when nothing is forgotten. */
  lemma ListenerFollowsExactly(run: seq<Step>)
    requires WellFormedRun(run)
    ensures Listener(History(run)) == TableOf(Stored(run)) <==> forall b :: !Forgotten(run, b)
  {
    var t, s := Listener(History(run)), TableOf(Stored(run));
    forall b ensures (b in s ==> b in t && t[b] == s[b]) && (b in t <==> b in s || Forgotten(run, b)) &&
                     !(b in s && Forgotten(run, b))
    {
      ListenerHoldsMore(run, b);
    }
    if forall b :: !Forgotten(run, b) {
      assert t == s;
    }
  }
}
