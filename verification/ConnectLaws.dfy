/** What a successful connect attempt means for the saved networks. */
module ConnectLaws {
  import opened Bytes
  import Lines
  import opened Supplicant
  import opened NetworkTable
  import opened NetworkLookup
  import opened NetworkMatching
  import opened Connect

  predicate SameNet(a: Network, b: Network) {
    a.ssid == b.ssid && Stripped(a.keyMgmt) == Stripped(b.keyMgmt)
  }

  /** No two saved networks have the same SSID and key type. */
  ghost predicate AtMostOne(ns: seq<Network>) {
    forall i, j :: 0 <= i < j < |ns| ==> !SameNet(ns[i], ns[j])
  }

  /** The lookup was answered, over a listing of the whole table. */
  ghost predicate LookupAnswered(base: seq<Network>, q: Search, form: Text, keyMgmt: KeyMgmt, isExist: int,
                                 oldId: Text) {
    WellFormed(base) && LookedUp(base, q, form, keyMgmt, isExist, oldId, true) && isExist != -1
  }

  /** Which network an answered lookup found, by its place in the table: the first match. */
  lemma LookupPlace(base: seq<Network>, q: Search, form: Text, keyMgmt: KeyMgmt, isExist: int, oldId: Text)
    returns (m: nat)
    requires LookupAnswered(base, q, form, keyMgmt, isExist, oldId)
    ensures q.ns == base && FirstMatch(q, 0, m)
    ensures (isExist == 1 || isExist == 3) <==> m < |base|
    ensures m < |base| ==> PlaceOf(base, oldId) == m
  {
    m := SomeFirstMatch(q, 0);
    LookupIsFirstMatch(q, 0, NOTHING_FOUND, m);
    if m < |base| {
      assert PlaceOf(base, base[m].id) == m;
    }
  }

  lemma OneAfterAppend(ms: seq<Network>, n: Network)
    requires AtMostOne(ms) && forall i :: 0 <= i < |ms| ==> !SameNet(ms[i], n)
    ensures AtMostOne(ms + [n])
  {
  }

  lemma OneAfterDrop(ms: seq<Network>, m: nat)
    requires AtMostOne(ms) && m < |ms|
    ensures AtMostOne(Dropped(ms, m))
    ensures forall i :: 0 <= i < |ms| - 1 ==> !SameNet(Dropped(ms, m)[i], ms[m])
  {
    forall i | 0 <= i < |ms| - 1 ensures !SameNet(Dropped(ms, m)[i], ms[m]) {
      var k := if i < m then i else i + 1;
      assert !SameNet(ms[if k < m then k else m], ms[if k < m then m else k]);
    }
    forall i, j | 0 <= i < j < |ms| - 1 ensures !SameNet(Dropped(ms, m)[i], Dropped(ms, m)[j]) {
      var k, l := if i < m then i else i + 1, if j < m then j else j + 1;
      assert !SameNet(ms[k], ms[l]);
    }
  }

  lemma OneByProfiles(ms: seq<Network>, ns: seq<Network>)
    requires Profiles(ms) == Profiles(ns)
    ensures AtMostOne(ms) <==> AtMostOne(ns)
  {
    assert |Profiles(ms)| == |ms| && |Profiles(ns)| == |ns|;
    forall i | 0 <= i < |ms| ensures Profile(ms[i]) == Profile(ns[i]) {
      ProfileAt(ms, i);
      ProfileAt(ns, i);
    }
  }

  lemma ProfilesAppended(ms: seq<Network>, n: Network)
    ensures Profiles(ms + [n]) == Profiles(ms) + [Profile(n)]
  {
  }

  /** A successful attempt replaces the network of the same SSID and key type,
      instead of adding a second one, exactly when that network is the first match
      of the lookup. */
  lemma KeepsAtMostOne(base: seq<Network>, ns: seq<Network>, n: Network, q: Search, form: Text, keyMgmt: KeyMgmt,
                       isExist: int, oldId: Text, log: seq<Sent>, from: nat)
    requires LookupAnswered(base, q, form, keyMgmt, isExist, oldId) && AtMostOne(base)
    requires Kept(ns, base, n, isExist, oldId, log, from) && RemovesDone(log, from)
    ensures AtMostOne(ns) <==> forall k :: 0 <= k < |base| && SameNet(base[k], n) ==> FirstMatch(q, 0, k)
  {
    var m := LookupPlace(base, q, form, keyMgmt, isExist, oldId);
    var rest := Rest(base, m);
    ProfilesAppended(rest, n);
    OneByProfiles(rest + [n], ns);
    OneAfterReplace(base, m, n);
    forall k | 0 <= k < |base| ensures FirstMatch(q, 0, k) <==> k == m {
      OneFirstMatch(q, k, m);
    }
  }

  lemma OneFirstMatch(q: Search, k: nat, m: nat)
    requires FirstMatch(q, 0, m) && k < |q.ns|
    ensures FirstMatch(q, 0, k) <==> k == m
  {
    if FirstMatch(q, 0, k) {
      assert !(k < m) && !(m < k);
    }
  }

  /** The table without row `m`, if there is one. */
  function Rest(base: seq<Network>, m: nat): seq<Network> {
    if m < |base| then Dropped(base, m) else base
  }

  lemma OneAfterReplace(base: seq<Network>, m: nat, n: Network)
    requires AtMostOne(base) && m <= |base|
    ensures AtMostOne(Rest(base, m) + [n]) <==> forall k :: 0 <= k < |base| && SameNet(base[k], n) ==> k == m
  {
    var rest := Rest(base, m);
    if k: nat :| k < |base| && SameNet(base[k], n) && k != m {
      var i := if k < m then k else k - 1;
      assert rest[i] == base[k];
      assert SameNet((rest + [n])[i], (rest + [n])[|rest|]);
    } else {
      if m < |base| {
        OneAfterDrop(base, m);
      }
      forall i | 0 <= i < |rest| ensures !SameNet(rest[i], n) {
        assert rest[i] == base[if i < m then i else i + 1];
      }
      OneAfterAppend(rest, n);
    }
  }

  /** Connecting again to a network that is already saved: it stays saved once
      exactly when its own row is a hit and no earlier row matches; otherwise it is
      saved a second time.  Unless the SSID holds a TAB or a newline, which the search
      may find across columns or rows, its row is a hit exactly when it is found under its own name. */
  lemma SavedAgain(base: seq<Network>, ns: seq<Network>, n: Network, q: Search, keyMgmt: KeyMgmt,
                   isExist: int, oldId: Text, log: seq<Sent>, from: nat, k: nat)
    requires n.ssid != [] && Stripped(n.keyMgmt) == KeyType(keyMgmt)
    requires LookupAnswered(base, q, LookupForm(n.ssid), keyMgmt, isExist, oldId) && AtMostOne(base)
    requires Kept(ns, base, n, isExist, oldId, log, from) && RemovesDone(log, from)
    requires k < |base| && SameNet(base[k], n)
    ensures q.ns == base && (AtMostOne(ns) <==> q.HitAt(k) && forall i :: 0 <= i < k ==> !Matches(q, i))
    ensures Lines.Without(n.ssid, TAB) && Lines.Without(n.ssid, NEWLINE) ==>
      (q.HitAt(k) <==> OwnName(base[k].id, n.ssid))
  {
    KeepsAtMostOne(base, ns, n, q, LookupForm(n.ssid), keyMgmt, isExist, oldId, log, from);
    OnlyOneSame(base, n, k);
    assert ValidId(base[k].id) by {
      assert base[k].ssid == base[k].ssid;
    }
    if Lines.Without(n.ssid, TAB) && Lines.Without(n.ssid, NEWLINE) {
      OwnNameIsHit(base[k], q.current);
      FormBytes(n.ssid);
      HitInRow(q, k);
    }
    assert FirstMatch(q, 0, k) <==> Matches(q, k) && forall i :: 0 <= i < k ==> !Matches(q, i);
  }

  lemma OnlyOneSame(base: seq<Network>, n: Network, k: nat)
    requires AtMostOne(base) && k < |base| && SameNet(base[k], n)
    ensures forall i :: 0 <= i < |base| && SameNet(base[i], n) ==> i == k
  {
    forall i | 0 <= i < |base| && i != k ensures !SameNet(base[i], n) {
      assert !SameNet(base[if i < k then i else k], base[if i < k then k else i]);
    }
  }
}
