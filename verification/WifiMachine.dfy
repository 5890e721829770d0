/** The link events: the event thread, the DHCP threads it starts and everybody
    else, as interleaved steps over the shared machine state (wifi_event.c,
    udhcpc_thread.c, wifi_state_machine.c).  One read or write of a shared
    variable is one step. */
module WifiMachine {
  import opened Bytes
  import opened Runs
  import opened Connect

  const MAX_RETRIES_ON_AUTHENTICATION_FAILURE := 2
  const MAX_DHCP_POLLS := 400

  /** Why a link-up was let through: no connect attempt had stored an id yet, or
      the id of the current network was the stored one. */
  datatype Admission = Unasked | Matched(id: Text)

  /** Where the event thread is. */
  datatype EventPc =
    | Ready
    | LinkLost | LinkLostSet
    | Asking | Comparing(id: Text)
    | Admitted(why: Admission) | LinkUp(why: Admission) | LinkUpSet(why: Admission)
    | Refused | RefusedSet

  datatype DhcpPc = Polling | Probing | Found | FoundSet | Missed | MissedSet | Done(connected: bool)

  datatype Dhcp = Dhcp(pc: DhcpPc, polls: nat, address: bool, why: Admission)

  datatype Machine = Machine(
    state: MachineState, event: InnerEvent, netidConnecting: Text, disconnecting: bool,
    authFails: nat, assocRejects: nat, pc: EventPc, dhcps: seq<Dhcp>)

  datatype Label =
    // messages the event thread takes up when it is ready, and its further steps
    | MsgDisconnected | MsgConnected | MsgBadKey | MsgAssocReject | MsgIgnored
    | SetLinkLost | SetApDisconnected
    | AskCurrent(id: Text) | CompareIds
    | ResetRejects | SetL2Connected | StartDhcp
    | SetRefused | SetPasswordIncorrect
    // DHCP thread `t`
    | CheckDisconnecting(t: nat) | Probe(t: nat, address: bool)
    | SetConnected(t: nat) | SetApConnected(t: nat) | SetNoAddress(t: nat) | SetIpTimeout(t: nat)
    // API calls and timeout threads
    | OtherState(state: MachineState) | OtherTimeout | StoreNetid(id: Text) | StoreDisconnecting(flag: bool)
    | OtherReset

  function Start(): Machine {
    Machine(Disconnected, ApDisconnected, [], false, 0, 0, Ready, [])
  }

  predicate DhcpAt(m: Machine, t: nat, pc: DhcpPc) {
    t < |m.dhcps| && m.dhcps[t].pc == pc
  }

  function Moved(m: Machine, t: nat, d: Dhcp): Machine
    requires t < |m.dhcps|
  {
    m.(dhcps := m.dhcps[t := d])
  }

  /** The event thread: a message, or its next step. */
  function EventStep(m: Machine, l: Label): Option<Machine> {
    match l
    case MsgDisconnected =>
      if m.pc != Ready then None
      else if m.state == Disconnecting || m.state == L2Connected || m.state == Connected then Some(m.(pc := LinkLost))
      else Some(m)
    case SetLinkLost => if m.pc == LinkLost then Some(m.(state := Disconnected, pc := LinkLostSet)) else None
    case SetApDisconnected => if m.pc == LinkLostSet then Some(m.(event := ApDisconnected, pc := Ready)) else None
    case MsgConnected =>
      if m.pc != Ready then None
      else Some(m.(pc := if m.netidConnecting != [] then Asking else Admitted(Unasked)))
    case AskCurrent(id) => if m.pc == Asking then Some(m.(pc := Comparing(id))) else None
    case CompareIds =>
      if !m.pc.Comparing? then None
      else Some(m.(pc := if m.pc.id == m.netidConnecting then Admitted(Matched(m.pc.id)) else Ready))
    case ResetRejects => if m.pc.Admitted? then Some(m.(assocRejects := 0, pc := LinkUp(m.pc.why))) else None
    case SetL2Connected => if m.pc.LinkUp? then Some(m.(state := L2Connected, pc := LinkUpSet(m.pc.why))) else None
    case StartDhcp =>
      if m.pc.LinkUpSet? then Some(m.(dhcps := m.dhcps + [Dhcp(Polling, 0, false, m.pc.why)], pc := Ready)) else None
    case MsgBadKey =>
      if m.pc != Ready then None
      else
        var fails := m.authFails + 1;
        Some(m.(authFails := fails, pc := if fails >= MAX_RETRIES_ON_AUTHENTICATION_FAILURE then Refused else Ready))
    case SetRefused => if m.pc == Refused then Some(m.(state := Disconnected, pc := RefusedSet)) else None
    case SetPasswordIncorrect => if m.pc == RefusedSet then Some(m.(event := PasswordIncorrect, pc := Ready)) else None
    case MsgAssocReject => if m.pc == Ready then Some(m.(assocRejects := m.assocRejects + 1)) else None
    case MsgIgnored => if m.pc == Ready then Some(m) else None
    case _ => None
  }

  /** A DHCP thread: it looks for an address until it has one, the call to
      disconnect is seen, or 400 polls are over. */
  function DhcpStep(m: Machine, l: Label): Option<Machine> {
    match l
    case CheckDisconnecting(t) =>
      if DhcpAt(m, t, Polling)
      then Some(Moved(m, t, m.dhcps[t].(pc := if m.disconnecting then Missed else Probing))) else None
    case Probe(t, address) =>
      if !DhcpAt(m, t, Probing) then None
      else
        var d := m.dhcps[t];
        var pc := if address then Found else if d.polls + 1 < MAX_DHCP_POLLS then Polling else Missed;
        Some(Moved(m, t, d.(pc := pc, polls := d.polls + 1, address := address)))
    case SetConnected(t) =>
      if DhcpAt(m, t, Found) then Some(Moved(m, t, m.dhcps[t].(pc := FoundSet)).(state := Connected)) else None
    case SetApConnected(t) =>
      if DhcpAt(m, t, FoundSet) then Some(Moved(m, t, m.dhcps[t].(pc := Done(true))).(event := ApConnected)) else None
    case SetNoAddress(t) =>
      if DhcpAt(m, t, Missed) then Some(Moved(m, t, m.dhcps[t].(pc := MissedSet)).(state := Disconnected)) else None
    case SetIpTimeout(t) =>
      if DhcpAt(m, t, MissedSet)
      then Some(Moved(m, t, m.dhcps[t].(pc := Done(false))).(event := ObtainingIpTimeout)) else None
    case _ => None
  }

  /** API calls and timeout threads write what no link event and no DHCP thread does. */
  function OtherStep(m: Machine, l: Label): Option<Machine> {
    match l
    case OtherState(state) => if state != L2Connected && state != Connected then Some(m.(state := state)) else None
    case OtherTimeout => Some(m.(event := ConnectApTimeout))
    case StoreNetid(id) => Some(m.(netidConnecting := id))
    case StoreDisconnecting(flag) => Some(m.(disconnecting := flag))
    case OtherReset => Some(m.(assocRejects := 0))
    case _ => None
  }

  function Next(m: Machine, l: Label): Option<Machine> {
    match EventStep(m, l)
    case Some(s) => Some(s)
    case None =>
      match DhcpStep(m, l)
      case Some(s) => Some(s)
      case None => OtherStep(m, l)
  }

  function After(run: seq<Label>): Option<Machine> {
    Reached(Start(), Next, run)
  }

  predicate IsRun(run: seq<Label>) {
    After(run).Some?
  }

  // ----- counting

  datatype Kind = LinkUps | ApConnects | IpTimeouts | BadKeys

  predicate IsOf(l: Label, k: Kind) {
    match k
    case LinkUps => l == SetL2Connected
    case ApConnects => l.SetApConnected?
    case IpTimeouts => l.SetIpTimeout?
    case BadKeys => l == MsgBadKey
  }

  function One(b: bool): nat {
    if b then 1 else 0
  }

  function Count(run: seq<Label>, k: Kind): nat {
    if run == [] then 0 else Count(run[..|run| - 1], k) + One(IsOf(run[|run| - 1], k))
  }

  datatype Phase = Active | EndedConnected | EndedMissed

  function PhaseOf(d: Dhcp): Phase {
    if !d.pc.Done? then Active else if d.pc.connected then EndedConnected else EndedMissed
  }

  function InPhase(ds: seq<Dhcp>, p: Phase): nat {
    if ds == [] then 0 else InPhase(ds[..|ds| - 1], p) + if PhaseOf(ds[|ds| - 1]) == p then 1 else 0
  }

  lemma {:induction false} PhaseChange(ds: seq<Dhcp>, t: nat, d: Dhcp, p: Phase)
    requires t < |ds|
    ensures InPhase(ds[t := d], p) ==
      InPhase(ds, p) - (if PhaseOf(ds[t]) == p then 1 else 0) + if PhaseOf(d) == p then 1 else 0
  {
    var last := |ds| - 1;
    if t == last {
      assert ds[t := d][..last] == ds[..last];
    } else {
      assert ds[t := d][..last] == ds[..last][t := d];
      PhaseChange(ds[..last], t, d, p);
    }
  }

  lemma PhaseGrowth(ds: seq<Dhcp>, d: Dhcp, p: Phase)
    ensures InPhase(ds + [d], p) == InPhase(ds, p) + if PhaseOf(d) == p then 1 else 0
  {
    assert (ds + [d])[..|ds|] == ds;
  }

  function Starting(m: Machine): nat {
    if m.pc.LinkUpSet? then 1 else 0
  }

  /** The accounts of the machine against what happened so far. */
  ghost predicate Balanced(m: Machine, linkUps: nat, connects: nat, timeouts: nat) {
    && linkUps == Starting(m) + InPhase(m.dhcps, Active) + connects + timeouts
    && InPhase(m.dhcps, EndedConnected) == connects && InPhase(m.dhcps, EndedMissed) == timeouts
  }

  lemma DhcpBalanced(m: Machine, l: Label, linkUps: nat, connects: nat, timeouts: nat)
    requires DhcpStep(m, l).Some? && Balanced(m, linkUps, connects, timeouts)
    ensures Balanced(DhcpStep(m, l).value, linkUps, connects + One(IsOf(l, ApConnects)),
                     timeouts + One(IsOf(l, IpTimeouts)))
  {
    var t := l.t;
    var d := DhcpStep(m, l).value.dhcps[t];
    PhaseChange(m.dhcps, t, d, Active);
    PhaseChange(m.dhcps, t, d, EndedConnected);
    PhaseChange(m.dhcps, t, d, EndedMissed);
  }

  lemma EventBalanced(m: Machine, l: Label, linkUps: nat, connects: nat, timeouts: nat)
    requires EventStep(m, l).Some? && Balanced(m, linkUps, connects, timeouts)
    ensures Balanced(EventStep(m, l).value, linkUps + One(IsOf(l, LinkUps)), connects, timeouts)
  {
    if l == StartDhcp {
      var d := Dhcp(Polling, 0, false, m.pc.why);
      PhaseGrowth(m.dhcps, d, Active);
      PhaseGrowth(m.dhcps, d, EndedConnected);
      PhaseGrowth(m.dhcps, d, EndedMissed);
    }
  }

  lemma BalancedStep(m: Machine, l: Label, linkUps: nat, connects: nat, timeouts: nat)
    requires Next(m, l).Some? && Balanced(m, linkUps, connects, timeouts)
    ensures Balanced(Next(m, l).value, linkUps + One(IsOf(l, LinkUps)), connects + One(IsOf(l, ApConnects)),
                     timeouts + One(IsOf(l, IpTimeouts)))
  {
    if EventStep(m, l).Some? {
      EventBalanced(m, l, linkUps, connects, timeouts);
    } else if DhcpStep(m, l).Some? {
      DhcpBalanced(m, l, linkUps, connects, timeouts);
    }
  }

  /** Conservation: in every interleaving, each link-up is accounted for by a DHCP
      thread about to start or running, a report of AP_CONNECTED, or a report of
      OBTAINING_IP_TIMEOUT. */
  lemma {:induction false} LinkUpsAreConserved(run: seq<Label>)
    requires IsRun(run)
    ensures var m := After(run).value;
      Count(run, LinkUps) == Starting(m) + InPhase(m.dhcps, Active) + Count(run, ApConnects) + Count(run, IpTimeouts)
    ensures Balanced(After(run).value, Count(run, LinkUps), Count(run, ApConnects), Count(run, IpTimeouts))
  {
    if run != [] {
      var before := run[..|run| - 1];
      LinkUpsAreConserved(before);
      BalancedStep(After(before).value, run[|run| - 1],
                   Count(before, LinkUps), Count(before, ApConnects), Count(before, IpTimeouts));
    }
  }

  // ----- wrong passwords

  ghost predicate KeysCounted(m: Machine, badKeys: nat) {
    && m.authFails == badKeys
    && (m.pc == Refused || m.pc == RefusedSet || m.event == PasswordIncorrect ==>
          badKeys >= MAX_RETRIES_ON_AUTHENTICATION_FAILURE)
  }

  lemma {:induction false} BadKeysAreCounted(run: seq<Label>)
    requires IsRun(run)
    ensures KeysCounted(After(run).value, Count(run, BadKeys))
  {
    if run != [] {
      BadKeysAreCounted(run[..|run| - 1]);
    }
  }

  /** PASSWORD_INCORRECT is never reported before the second bad-key message; and
      as the counter is never reset, every later one is reported at once. */
  lemma PasswordIncorrectMeans(run: seq<Label>, k: nat)
    requires IsRun(run) && k < |run|
    ensures IsRun(run[..k]) && IsRun(run[..k + 1])
    ensures run[k] == SetPasswordIncorrect ==> Count(run[..k], BadKeys) >= 2
    ensures run[k] == MsgBadKey ==> (After(run[..k + 1]).value.pc == Refused <==> Count(run[..k], BadKeys) >= 1)
  {
    PrefixReached(Start(), Next, run, k);
    BadKeysAreCounted(run[..k]);
  }

  // ----- where a connection comes from

  /** At step `i` a link-up was let through, for this reason. */
  ghost predicate LetThroughAt(run: seq<Label>, i: nat, why: Admission) {
    i < |run| && IsRun(run[..i]) &&
    var m := After(run[..i]).value;
    match why
    case Unasked => run[i] == MsgConnected && m.netidConnecting == []
    case Matched(id) => run[i] == CompareIds && m.pc == Comparing(id) && m.netidConnecting == id
  }

  /** Step `j` is the link-up that DHCP thread `t` belongs to. */
  ghost predicate LinkUpAt(run: seq<Label>, j: nat, t: nat) {
    j < |run| && run[j] == SetL2Connected && Count(run[..j], LinkUps) == t
  }

  /** The last admission of the run was for this reason and has not yet led to a link-up. */
  ghost predicate LetThrough(run: seq<Label>, why: Admission) {
    exists i :: 0 <= i < |run| && LetThroughAt(run, i, why) && forall j :: i <= j < |run| ==> run[j] != SetL2Connected
  }

  ghost predicate Linked(run: seq<Label>, t: nat, why: Admission) {
    exists j :: 0 <= j < |run| && LinkUpAt(run, j, t) && LetThrough(run[..j], why)
  }

  lemma LetThroughStays(run: seq<Label>, k: nat, why: Admission)
    requires k <= |run| && LetThrough(run[..k], why)
    requires forall j :: k <= j < |run| ==> run[j] != SetL2Connected
    ensures LetThrough(run, why)
  {
    var i :| 0 <= i < k && LetThroughAt(run[..k], i, why) && forall j :: i <= j < k ==> run[..k][j] != SetL2Connected;
    assert run[..k][..i] == run[..i] && LetThroughAt(run, i, why);
    forall j | i <= j < |run| ensures run[j] != SetL2Connected {
      if j < k {
        assert run[..k][j] == run[j];
      }
    }
  }

  lemma LinkedStays(run: seq<Label>, k: nat, t: nat, why: Admission)
    requires k <= |run| && Linked(run[..k], t, why)
    ensures Linked(run, t, why)
  {
    var j :| 0 <= j < k && LinkUpAt(run[..k], j, t) && LetThrough(run[..k][..j], why);
    assert run[..k][..j] == run[..j];
    assert LinkUpAt(run, j, t);
  }

  /** Everything the machine knows about link-ups happened. */
  ghost predicate Grounded(run: seq<Label>, m: Machine) {
    && Count(run, LinkUps) == |m.dhcps| + Starting(m)
    && (m.pc.Admitted? || m.pc.LinkUp? ==> LetThrough(run, m.pc.why))
    && (m.pc.LinkUpSet? ==> Linked(run, |m.dhcps|, m.pc.why))
    && (forall t :: 0 <= t < |m.dhcps| ==> Linked(run, t, m.dhcps[t].why))
  }

  lemma AdmissionStep(before: seq<Label>, l: Label, m: Machine, s: Machine)
    requires After(before) == Some(m) && Next(m, l) == Some(s) && (s.pc.Admitted? || s.pc.LinkUp?)
    requires m.pc.Admitted? || m.pc.LinkUp? ==> LetThrough(before, m.pc.why)
    ensures LetThrough(before + [l], s.pc.why)
  {
    var run := before + [l];
    var k := |before|;
    assert run[..k] == before && run[k] == l;
    if l == MsgConnected || l == CompareIds {
      assert LetThroughAt(run, k, s.pc.why);
    } else {
      LetThroughStays(run, k, s.pc.why);
    }
  }

  lemma LinkUpStep(before: seq<Label>, l: Label, m: Machine, s: Machine)
    requires After(before) == Some(m) && Next(m, l) == Some(s) && Grounded(before, m) && s.pc.LinkUpSet?
    ensures Linked(before + [l], |s.dhcps|, s.pc.why)
  {
    var run := before + [l];
    var k := |before|;
    assert run[..k] == before && run[k] == l;
    if l == SetL2Connected {
      assert LinkUpAt(run, k, |m.dhcps|) && LetThrough(run[..k], s.pc.why);
    } else {
      LinkedStays(run, k, |m.dhcps|, s.pc.why);
    }
  }

  /** A DHCP thread keeps the reason of its link-up. */
  lemma WhyKept(m: Machine, l: Label, s: Machine, t: nat)
    requires Next(m, l) == Some(s) && t < |s.dhcps|
    ensures if t < |m.dhcps| then s.dhcps[t].why == m.dhcps[t].why
            else t == |m.dhcps| && m.pc.LinkUpSet? && s.dhcps[t].why == m.pc.why
  {
  }

  lemma GroundedStep(before: seq<Label>, l: Label, m: Machine, s: Machine)
    requires After(before) == Some(m) && Grounded(before, m) && Next(m, l) == Some(s)
    ensures Grounded(before + [l], s)
  {
    var run := before + [l];
    var k := |before|;
    assert run[..k] == before;
    if s.pc.Admitted? || s.pc.LinkUp? {
      AdmissionStep(before, l, m, s);
    }
    if s.pc.LinkUpSet? {
      LinkUpStep(before, l, m, s);
    }
    forall t | 0 <= t < |s.dhcps| ensures Linked(run, t, s.dhcps[t].why) {
      WhyKept(m, l, s, t);
      LinkedStays(run, k, t, s.dhcps[t].why);
    }
  }

  lemma {:induction false} RunIsGrounded(run: seq<Label>)
    requires IsRun(run)
    ensures Grounded(run, After(run).value)
  {
    if run != [] {
      var before := run[..|run| - 1];
      RunIsGrounded(before);
      GroundedStep(before, run[|run| - 1], After(before).value, After(run).value);
      assert before + [run[|run| - 1]] == run;
    }
  }

  /** No other step makes the machine CONNECTED. */
  lemma OnlyDhcpConnects(m: Machine, l: Label)
    requires Next(m, l).Some? && m.state != Connected && Next(m, l).value.state == Connected
    ensures l.SetConnected?
  {
  }

  /** Thread `t` has made the machine CONNECTED already. */
  predicate Spent(m: Machine, t: nat) {
    DhcpAt(m, t, FoundSet) || DhcpAt(m, t, Done(true))
  }

  lemma {:induction false} StaysSpent(run: seq<Label>, k: nat, t: nat)
    requires IsRun(run) && k < |run| && run[k] == SetConnected(t)
    ensures Spent(After(run).value, t)
  {
    var before := run[..|run| - 1];
    if k < |before| {
      StaysSpent(before, k, t);
    }
  }

  /** Each entry into CONNECTED has its own earlier link-up, whose network was the
      one a connect attempt had stored, unless none was stored. */
  lemma EachConnectionHasItsLinkUp(run: seq<Label>, k: nat, t: nat)
    requires IsRun(run) && k < |run| && run[k] == SetConnected(t)
    ensures IsRun(run[..k]) && DhcpAt(After(run[..k]).value, t, Found)
    ensures Linked(run[..k], t, After(run[..k]).value.dhcps[t].why)
    ensures forall j :: 0 <= j < |run| && run[j] == SetConnected(t) ==> j == k
  {
    PrefixReached(Start(), Next, run, k);
    RunIsGrounded(run[..k]);
    forall j | 0 <= j < |run| && j != k ensures run[j] != SetConnected(t) {
      OneOfTwo(run, if j < k then j else k, if j < k then k else j, t);
    }
  }

  lemma OneOfTwo(run: seq<Label>, j: nat, k: nat, t: nat)
    requires IsRun(run) && j < k < |run|
    ensures !(run[j] == SetConnected(t) && run[k] == SetConnected(t))
  {
    if run[j] == SetConnected(t) {
      PrefixReached(Start(), Next, run, k);
      StaysSpent(run[..k], j, t);
    }
  }

  // ----- whose connection it is

  /** A DHCP thread that can still declare CONNECTED. */
  predicate CanConnect(d: Dhcp) {
    d.pc == Polling || d.pc == Probing || d.pc == Found
  }

  /** The event thread is on the way from an admission to a new DHCP thread. */
  predicate BringsUp(pc: EventPc) {
    pc.Admitted? || pc.LinkUp? || pc.LinkUpSet?
  }

  /** Something under way that may declare CONNECTED was not let through for this id. */
  ghost predicate OtherUnderWay(m: Machine, id: Text) {
    || (BringsUp(m.pc) && m.pc.why != Matched(id))
    || exists t :: 0 <= t < |m.dhcps| && CanConnect(m.dhcps[t]) && m.dhcps[t].why != Matched(id)
  }

  /** An attempt has stored its id, and whatever can declare CONNECTED belongs to it. */
  ghost predicate Settled(m: Machine, id: Text) {
    m.netidConnecting == id && !OtherUnderWay(m, id)
  }

  lemma SettledStep(m: Machine, l: Label, id: Text)
    requires id != [] && Settled(m, id) && Next(m, l).Some? && !l.StoreNetid?
    ensures Settled(Next(m, l).value, id)
    ensures l.SetConnected? ==> m.dhcps[l.t].why == Matched(id)
  {
    var s := Next(m, l).value;
    forall t | 0 <= t < |s.dhcps| && CanConnect(s.dhcps[t]) ensures s.dhcps[t].why == Matched(id) {
      if t < |m.dhcps| {
        CanConnectBefore(m, l, t);
      }
    }
    assert l.SetConnected? ==> CanConnect(m.dhcps[l.t]);
  }

  /** A thread that has stopped polling does not start again. */
  lemma CanConnectBefore(m: Machine, l: Label, t: nat)
    requires Next(m, l).Some? && t < |m.dhcps| && CanConnect(Next(m, l).value.dhcps[t])
    ensures CanConnect(m.dhcps[t]) && Next(m, l).value.dhcps[t].why == m.dhcps[t].why
  {
  }

  /** `longer` continues `run`, and nobody stores an id in the continuation. */
  ghost predicate Continues(run: seq<Label>, longer: seq<Label>) {
    run <= longer && forall k :: |run| <= k < |longer| ==> !longer[k].StoreNetid?
  }

  lemma {:induction false} SettledStays(run: seq<Label>, longer: seq<Label>, id: Text)
    requires id != [] && IsRun(run) && Settled(After(run).value, id) && IsRun(longer) && Continues(run, longer)
    ensures Settled(After(longer).value, id)
    decreases |longer|
  {
    if |longer| == |run| {
      assert longer == run;
    } else {
      var before := longer[..|longer| - 1];
      SettledStays(run, before, id);
      SettledStep(After(before).value, longer[|longer| - 1], id);
    }
  }

  /** The run ends with CONNECTED declared by a thread that was not let through for this id. */
  ghost predicate Stale(run: seq<Label>, id: Text) {
    && IsRun(run) && run != [] && run[|run| - 1].SetConnected?
    && run[|run| - 1].t < |After(run).value.dhcps| && After(run).value.dhcps[run[|run| - 1].t].why != Matched(id)
  }

  lemma SettledIsNotStale(run: seq<Label>, longer: seq<Label>, id: Text)
    requires id != [] && IsRun(run) && Settled(After(run).value, id)
    requires IsRun(longer) && Continues(run, longer) && |run| < |longer|
    ensures !Stale(longer, id)
  {
    var before, l := longer[..|longer| - 1], longer[|longer| - 1];
    SettledStays(run, before, id);
    SettledStep(After(before).value, l, id);
  }

  /** Storing an id can be followed by a CONNECTED that belongs to something else
      exactly when something else that may declare it is under way: a caller that
      stores the id when nothing is gets only its own connections. */
  lemma StaleExactly(run: seq<Label>, id: Text)
    requires IsRun(run) && id != []
    ensures OtherUnderWay(After(run).value, id) <==>
      exists longer :: Continues(run + [StoreNetid(id)], longer) && Stale(longer, id)
  {
    var m := After(run).value;
    var stored := Then(run, StoreNetid(id));
    if OtherUnderWay(m, id) {
      var longer := StaleFollows(stored, id);
    } else {
      forall longer | Continues(stored, longer) ensures !Stale(longer, id) {
        if IsRun(longer) && |stored| < |longer| {
          SettledIsNotStale(stored, longer, id);
        } else if |stored| == |longer| {
          assert longer == stored;
        }
      }
    }
  }

  lemma StaleFollows(run: seq<Label>, id: Text) returns (longer: seq<Label>)
    requires IsRun(run) && OtherUnderWay(After(run).value, id)
    ensures Continues(run, longer) && Stale(longer, id) && NoOwnLink(longer, |run|, id)
    ensures After(longer).value.state == Connected
  {
    var m := After(run).value;
    var t;
    if BringsUp(m.pc) && m.pc.why != Matched(id) {
      longer, t := BroughtUp(run, |run|, id);
      longer := Connects(longer, t, |run|, id);
    } else {
      t :| 0 <= t < |m.dhcps| && CanConnect(m.dhcps[t]) && m.dhcps[t].why != Matched(id);
      longer := Connects(run, t, |run|, id);
    }
  }

  /** The event thread goes on to start the DHCP thread of its link-up. */
  lemma BroughtUp(run: seq<Label>, from: nat, id: Text) returns (longer: seq<Label>, t: nat)
    requires IsRun(run) && BringsUp(After(run).value.pc) && After(run).value.pc.why != Matched(id)
    requires NoOwnLink(run, from, id)
    ensures IsRun(longer) && Continues(run, longer) && DhcpAt(After(longer).value, t, Polling)
    ensures After(longer).value.dhcps[t].why == After(run).value.pc.why && NoOwnLink(longer, from, id)
    decreases match After(run).value.pc case Admitted(_) => 2 case LinkUp(_) => 1 case _ => 0
  {
    match After(run).value.pc
    case Admitted(_) =>
      longer := ThenOther(run, ResetRejects, from, id);
      longer, t := BroughtUp(longer, from, id);
    case LinkUp(_) =>
      longer := ThenOther(run, SetL2Connected, from, id);
      longer, t := BroughtUp(longer, from, id);
    case LinkUpSet(_) =>
      t := |After(run).value.dhcps|;
      longer := ThenOther(run, StartDhcp, from, id);
  }

  lemma PollsOn(run: seq<Label>, t: nat, from: nat, id: Text) returns (longer: seq<Label>)
    requires IsRun(run) && DhcpAt(After(run).value, t, Polling) && NoOwnLink(run, from, id)
    ensures IsRun(longer) && Continues(run, longer) && |run| < |longer| && DhcpAt(After(longer).value, t, Probing)
    ensures After(longer).value.dhcps[t].why == After(run).value.dhcps[t].why && NoOwnLink(longer, from, id)
  {
    longer := ThenOther(run, StoreDisconnecting(false), from, id);
    longer := ThenOther(longer, CheckDisconnecting(t), from, id);
  }

  lemma ProbesOn(run: seq<Label>, t: nat, from: nat, id: Text) returns (longer: seq<Label>)
    requires IsRun(run) && DhcpAt(After(run).value, t, Probing) && NoOwnLink(run, from, id)
    ensures IsRun(longer) && Continues(run, longer) && |run| < |longer| && DhcpAt(After(longer).value, t, Found)
    ensures After(longer).value.dhcps[t].why == After(run).value.dhcps[t].why && NoOwnLink(longer, from, id)
  {
    longer := ThenOther(run, Probe(t, true), from, id);
  }

  /** A DHCP thread that can still declare CONNECTED may do so. */
  lemma Connects(run: seq<Label>, t: nat, from: nat, id: Text) returns (longer: seq<Label>)
    requires IsRun(run) && t < |After(run).value.dhcps| && CanConnect(After(run).value.dhcps[t])
    requires After(run).value.dhcps[t].why != Matched(id) && NoOwnLink(run, from, id)
    ensures IsRun(longer) && Continues(run, longer) && |run| < |longer| && longer[|longer| - 1] == SetConnected(t)
    ensures t < |After(longer).value.dhcps| && After(longer).value.dhcps[t].why == After(run).value.dhcps[t].why
    ensures After(longer).value.state == Connected && NoOwnLink(longer, from, id)
    decreases match After(run).value.dhcps[t].pc case Polling => 2 case Probing => 1 case _ => 0
  {
    match After(run).value.dhcps[t].pc
    case Polling =>
      longer := PollsOn(run, t, from, id);
      longer := Connects(longer, t, from, id);
    case Probing =>
      longer := ProbesOn(run, t, from, id);
      longer := Connects(longer, t, from, id);
    case Found =>
      longer := ThenOther(run, SetConnected(t), from, id);
  }

  // ----- whose link a connect attempt sees

  predicate SeesLink(m: Machine) {
    m.state == L2Connected || m.state == Connected
  }

  /** A step that brings the link up or declares CONNECTED, let through for this id. */
  predicate OwnStep(m: Machine, l: Label, id: Text) {
    || (l == SetL2Connected && m.pc == LinkUp(Matched(id)))
    || (l.SetConnected? && l.t < |m.dhcps| && m.dhcps[l.t].why == Matched(id))
  }

  ghost predicate OwnLinkAt(run: seq<Label>, k: nat, id: Text) {
    k < |run| && IsRun(run[..k]) && OwnStep(After(run[..k]).value, run[k], id)
  }

  ghost predicate NoOwnLink(run: seq<Label>, from: nat, id: Text) {
    forall k :: from <= k < |run| ==> !OwnLinkAt(run, k, id)
  }

  lemma OwnLinkStays(run: seq<Label>, l: Label, k: nat, id: Text)
    requires k < |run|
    ensures OwnLinkAt(run + [l], k, id) <==> OwnLinkAt(run, k, id)
  {
    assert (run + [l])[..k] == run[..k];
  }

  lemma ThenOther(run: seq<Label>, l: Label, from: nat, id: Text) returns (longer: seq<Label>)
    requires IsRun(run) && Next(After(run).value, l).Some? && !OwnStep(After(run).value, l, id)
    requires NoOwnLink(run, from, id)
    ensures longer == run + [l] && After(longer) == Next(After(run).value, l) && NoOwnLink(longer, from, id)
  {
    longer := Then(run, l);
    forall k | from <= k < |longer| ensures !OwnLinkAt(longer, k, id) {
      if k < |run| {
        OwnLinkStays(run, l, k, id);
      } else {
        assert longer[..k] == run;
      }
    }
  }

  /** While nobody stores another id, a link seen after one was stored with nothing
      else under way is the stored network's own. */
  lemma {:induction false} LinkIsOwn(run: seq<Label>, longer: seq<Label>, id: Text)
    requires id != [] && IsRun(run) && Settled(After(run).value, id) && !SeesLink(After(run).value)
    requires IsRun(longer) && Continues(run, longer) && SeesLink(After(longer).value)
    ensures !NoOwnLink(longer, |run|, id)
    decreases |longer|
  {
    assert |longer| == |run| ==> longer == run;
    if |longer| > |run| {
      var last := |longer| - 1;
      var before, l := longer[..last], longer[last];
      assert longer == before + [l];
      if SeesLink(After(before).value) {
        LinkIsOwn(run, before, id);
        var k :| |run| <= k < last && OwnLinkAt(before, k, id);
        OwnLinkStays(before, l, k, id);
      } else {
        SettledStays(run, before, id);
        LinkStepIsOwn(After(before).value, l, id);
        assert OwnLinkAt(longer, last, id);
      }
    }
  }

  lemma LinkStepIsOwn(m: Machine, l: Label, id: Text)
    requires Settled(m, id) && Next(m, l).Some? && !SeesLink(m) && SeesLink(Next(m, l).value)
    ensures OwnStep(m, l, id)
  {
    assert l.SetConnected? ==> CanConnect(m.dhcps[l.t]);
  }

  /** A caller that stores an id sees only its own network's link, whatever the other
      threads do, exactly when at that moment no link is up and nothing else that may
      bring one up is under way. */
  lemma OnlyOwnLinksSeen(run: seq<Label>, id: Text)
    requires IsRun(run) && id != []
    ensures !SeesLink(After(run).value) && !OtherUnderWay(After(run).value, id) <==>
      forall longer :: IsRun(longer) && Continues(run + [StoreNetid(id)], longer) && SeesLink(After(longer).value) ==>
        !NoOwnLink(longer, |run| + 1, id)
  {
    var m := After(run).value;
    var stored := Then(run, StoreNetid(id));
    if SeesLink(m) {
      assert Continues(stored, stored) && NoOwnLink(stored, |run| + 1, id);
    } else if OtherUnderWay(m, id) {
      var longer := StaleFollows(stored, id);
    } else {
      forall longer | IsRun(longer) && Continues(stored, longer) && SeesLink(After(longer).value)
        ensures !NoOwnLink(longer, |run| + 1, id)
      {
        LinkIsOwn(stored, longer, id);
      }
    }
  }

  // ----- a run in which it is another's

  lemma MatchedTo(one: Text) returns (run: seq<Label>)
    requires one != []
    ensures After(run) == Some(Machine(Disconnected, ApDisconnected, one, false, 0, 0, Admitted(Matched(one)), []))
  {
    run := Then([], StoreNetid(one));
    run := Then(run, MsgConnected);
    run := Then(run, AskCurrent(one));
    run := Then(run, CompareIds);
  }

  lemma LinkedTo(one: Text) returns (run: seq<Label>)
    requires one != []
    ensures After(run) ==
      Some(Machine(L2Connected, ApDisconnected, one, false, 0, 0, Ready, [Dhcp(Polling, 0, false, Matched(one))]))
  {
    run := MatchedTo(one);
    run := Then(run, ResetRejects);
    run := Then(run, SetL2Connected);
    run := Then(run, StartDhcp);
    assert [] + [Dhcp(Polling, 0, false, Matched(one))] == [Dhcp(Polling, 0, false, Matched(one))];
  }

  /** The link to one network is lost before its DHCP thread is done, ... */
  lemma LostAgain(one: Text) returns (run: seq<Label>)
    requires one != []
    ensures After(run) ==
      Some(Machine(Disconnected, ApDisconnected, one, false, 0, 0, Ready, [Dhcp(Polling, 0, false, Matched(one))]))
  {
    run := LinkedTo(one);
    run := Then(run, MsgDisconnected);
    run := Then(run, SetLinkLost);
    run := Then(run, SetApDisconnected);
  }

  /** ... and declares CONNECTED while another network is being connected to. */
  lemma StaleConnection(one: Text, two: Text) returns (run: seq<Label>, t: nat)
    requires one != [] && one != two
    ensures IsRun(run) && |run| > 0 && run[|run| - 1] == SetConnected(t)
    ensures var m := After(run).value;
      m.state == Connected && t < |m.dhcps| && m.dhcps[t].why == Matched(one) && m.netidConnecting == two
  {
    t := 0;
    run := LostAgain(one);
    run := Then(run, OtherState(Connecting));
    run := Then(run, StoreNetid(two));
    run := Then(run, CheckDisconnecting(0));
    run := Then(run, Probe(0, true));
    assert After(run).value.dhcps == [Dhcp(Found, 1, true, Matched(one))];
    run := Then(run, SetConnected(0));
  }

  lemma Then(run: seq<Label>, l: Label) returns (longer: seq<Label>)
    requires IsRun(run) && Next(After(run).value, l).Some?
    ensures longer == run + [l] && After(longer) == Next(After(run).value, l)
  {
    longer := run + [l];
    ReachedNext(Start(), Next, run, l);
  }

  // ----- a DHCP thread as a bounded process

  predicate DhcpSound(d: Dhcp) {
    match d.pc
    case Polling => d.polls < MAX_DHCP_POLLS && !d.address
    case Probing => d.polls < MAX_DHCP_POLLS && !d.address
    case Found => 1 <= d.polls <= MAX_DHCP_POLLS && d.address
    case FoundSet => 1 <= d.polls <= MAX_DHCP_POLLS && d.address
    case Missed => d.polls <= MAX_DHCP_POLLS && !d.address
    case MissedSet => d.polls <= MAX_DHCP_POLLS && !d.address
    case Done(connected) => d.polls <= MAX_DHCP_POLLS && d.address == connected
  }

  /** How many steps the thread can still take at most. */
  function StepsLeft(d: Dhcp): nat
    requires DhcpSound(d)
  {
    match d.pc
    case Polling => 2 * (MAX_DHCP_POLLS - d.polls) + 2
    case Probing => 2 * (MAX_DHCP_POLLS - d.polls) + 1
    case Found => 2
    case Missed => 2
    case FoundSet => 1
    case MissedSet => 1
    case Done(_) => 0
  }

  function StepsOf(run: seq<Label>, t: nat): nat {
    if run == [] then 0
    else
      var l := run[|run| - 1];
      StepsOf(run[..|run| - 1], t) + One(IsDhcpLabel(l) && l.t == t)
  }

  predicate IsDhcpLabel(l: Label) {
    l.CheckDisconnecting? || l.Probe? || l.SetConnected? || l.SetApConnected? || l.SetNoAddress? || l.SetIpTimeout?
  }

  /** Steps taken and steps left of a thread never exceed what it starts with. */
  ghost predicate Within(run: seq<Label>, m: Machine, t: nat) {
    if t < |m.dhcps| then DhcpSound(m.dhcps[t]) && StepsOf(run, t) + StepsLeft(m.dhcps[t]) <= 2 * MAX_DHCP_POLLS + 2
    else StepsOf(run, t) == 0
  }

  lemma {:induction false} DhcpIsBounded(run: seq<Label>, t: nat)
    requires IsRun(run)
    ensures Within(run, After(run).value, t)
  {
    if run != [] {
      DhcpIsBounded(run[..|run| - 1], t);
      DhcpShrinks(After(run[..|run| - 1]).value, run[|run| - 1], t);
    }
  }

  lemma DhcpShrinks(m: Machine, l: Label, t: nat)
    requires Next(m, l).Some? && (t < |m.dhcps| ==> DhcpSound(m.dhcps[t]))
    ensures var s := Next(m, l).value;
      if t < |m.dhcps|
      then t < |s.dhcps| && DhcpSound(s.dhcps[t]) &&
           (s.dhcps[t] == m.dhcps[t] || StepsLeft(s.dhcps[t]) < StepsLeft(m.dhcps[t]))
      else t < |s.dhcps| ==> s.dhcps[t] == Dhcp(Polling, 0, false, s.dhcps[t].why)
    ensures IsDhcpLabel(l) && l.t == t ==> t < |m.dhcps| && StepsLeft(Next(m, l).value.dhcps[t]) < StepsLeft(m.dhcps[t])
  {
  }

  /** A thread that has not reported yet can always go on: together with the bound
      it ends in exactly one of its two reports, AP_CONNECTED when its last poll
      saw an address and OBTAINING_IP_TIMEOUT otherwise. */
  lemma DhcpGoesOn(run: seq<Label>, t: nat) returns (l: Label)
    requires IsRun(run) && t < |After(run).value.dhcps| && !After(run).value.dhcps[t].pc.Done?
    ensures IsDhcpLabel(l) && l.t == t && IsRun(run + [l])
  {
    var m := After(run).value;
    l := match m.dhcps[t].pc
      case Polling => CheckDisconnecting(t)
      case Probing => Probe(t, true)
      case Found => SetConnected(t)
      case FoundSet => SetApConnected(t)
      case Missed => SetNoAddress(t)
      case _ => SetIpTimeout(t);
    ReachedNext(Start(), Next, run, l);
  }
}
