/** The supplicant's network table while a connect attempt works on it: the
    table at entry plus one network, whatever is enabled. */
module NetworkTable {
  import opened Bytes
  import opened Supplicant

  /** The table is that of `base` with `n` behind it; only enabled flags may differ. */
  ghost predicate HasNew(ns: seq<Network>, base: seq<Network>, n: Network) {
    WellFormed(ns) && Profiles(ns) == Profiles(base) + [Profile(n)]
  }

  lemma ProfileAt(ns: seq<Network>, i: nat)
    requires i < |ns|
    ensures Profiles(ns)[i] == Profile(ns[i])
  {
  }

  /** The new network comes last. */
  lemma NewIsLast(ns: seq<Network>, base: seq<Network>, n: Network)
    requires HasNew(ns, base, n)
    ensures |ns| == |base| + 1 && Profile(ns[|base|]) == Profile(n) && PlaceOf(ns, n.id) == |base|
    ensures forall i :: 0 <= i < |base| ==> Profile(ns[i]) == Profile(base[i])
  {
    assert |Profiles(ns)| == |ns|;
    ProfileAt(ns, |base|);
    assert PlaceOf(ns, ns[|base|].id) == |base|;
    forall i | 0 <= i < |base| ensures Profile(ns[i]) == Profile(base[i]) {
      ProfileAt(ns, i);
      ProfileAt(base, i);
    }
  }

  lemma AddedNew(base: seq<Network>, ns: seq<Network>, id: Text)
    requires WellFormed(ns) && ns == base + [Fresh(id)]
    ensures HasNew(ns, base, Fresh(id))
  {
    assert Profiles(ns) == Profiles(base) + [Profile(Fresh(id))];
  }

  lemma SetNew(ns: seq<Network>, base: seq<Network>, n: Network, s: Setting)
    requires HasNew(ns, base, n) && AcceptsSetting(s)
    ensures Accepts(ns, SetNetwork(n.id, s)) && HasNew(Applied(ns, SetNetwork(n.id, s)), base, With(n, s))
  {
    NewIsLast(ns, base, n);
    AppliedIsWellFormed(ns, SetNetwork(n.id, s));
    var ms := Applied(ns, SetNetwork(n.id, s));
    assert Profiles(ms) == Profiles(base) + [Profile(With(n, s))];
  }

  predicate OnlyEnables(c: Command) {
    c.SelectNetwork? || c.EnableNetwork? || c.DisableNetwork?
  }

  lemma EnablesKeepProfiles(ns: seq<Network>, c: Command)
    requires OnlyEnables(c) && Accepts(ns, c)
    ensures Profiles(Applied(ns, c)) == Profiles(ns)
  {
    assert Profiles(Applied(ns, c)) == Profiles(ns);
  }

  lemma RemovedNew(ns: seq<Network>, base: seq<Network>, n: Network)
    requires HasNew(ns, base, n)
    ensures Accepts(ns, RemoveNetwork(n.id)) && Profiles(Applied(ns, RemoveNetwork(n.id))) == Profiles(base)
  {
    NewIsLast(ns, base, n);
    assert Profiles(Applied(ns, RemoveNetwork(n.id))) == Profiles(base);
  }

  function Dropped<T>(s: seq<T>, k: nat): seq<T>
    requires k < |s|
  {
    s[..k] + s[k + 1..]
  }

  lemma DroppedProfiles(ns: seq<Network>, k: nat)
    requires k < |ns|
    ensures Profiles(Dropped(ns, k)) == Dropped(Profiles(ns), k)
  {
  }

  lemma DroppedBefore<T>(s: seq<T>, t: seq<T>, k: nat)
    requires k < |s|
    ensures Dropped(s + t, k) == Dropped(s, k) + t
  {
  }

  lemma RemovedOld(ns: seq<Network>, base: seq<Network>, n: Network, k: nat)
    requires HasNew(ns, base, n) && k < |base|
    ensures Accepts(ns, RemoveNetwork(base[k].id))
    ensures HasNew(Applied(ns, RemoveNetwork(base[k].id)), Dropped(base, k), n)
  {
    NewIsLast(ns, base, n);
    assert Profile(ns[k]) == Profile(base[k]);
    assert PlaceOf(ns, ns[k].id) == k;
    AppliedIsWellFormed(ns, RemoveNetwork(base[k].id));
    assert Applied(ns, RemoveNetwork(base[k].id)) == Dropped(ns, k);
    DroppedProfiles(ns, k);
    DroppedProfiles(base, k);
    DroppedBefore(Profiles(base), [Profile(n)], k);
  }
}
