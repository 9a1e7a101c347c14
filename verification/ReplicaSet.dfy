/**
 The connections a replica set client owns: the one to the primary and the one last used for
 reading, which may be the same object held by two smart pointers. What the monitor and the network
 answer is a parameter of every operation, so a run is any sequence of operations and answers.
 */
module ReplicaSet {
  import opened Wrappers

  type Host = string

  const NO_HOST: Host := ""
  const MAX_RETRY: nat := 3
  const PRIMARY_PREFERRED: int := 1

  /** What ConnectionString::connect gives back: a connection, an error, or both. */
  datatype Connect = Refused | Connected | ConnectedWithError

  /** A connect to a primary: where, and what came back. */
  datatype Attempt = Attempt(host: Host, connect: Connect)

  datatype Result = Conn(id: nat) | NoNode | Threw

  /** Answers for checkMaster; no host means that the monitor threw. */
  datatype PrimaryAnswers = PrimaryAnswers(
    host: Option<Host>, failed: bool, hostAfterFailure: Option<Host>, connect: Connect, authThrows: bool)

  datatype Invalidation = Invalidation(monitor: bool, logoutThrows: bool)

  /** Answers for selectNodeUsingTags. */
  datatype NodeAnswers = NodeAnswers(
    lastFailed: bool, lastUp: Option<bool>, invalidation: Invalidation,
    node: Option<Host>, logoutThrows: bool, primary: bool, primaryAnswers: PrimaryAnswers,
    connect: Connect, reconnects: bool, authThrows: bool)

  datatype AuthOutcome = Accepted | BadCredentials | OtherError

  /** Answers for one round of _auth. */
  datatype AuthRound = AuthRound(
    node: NodeAnswers, auth: AuthOutcome, invalidation: Invalidation)

  datatype Op =
    | CheckPrimary(primary: PrimaryAnswers)
    | SelectNode(pref: int, node: NodeAnswers)
    | Authenticate(rounds: nat -> AuthRound)
    | StillConnected(primaryUp: bool, nodeUp: bool, logoutThrows: bool)
    | NotPrimary
    | NotSecondary(invalidation: Invalidation)
    | Reset(logoutThrows: bool)

  /**
   What the operations do to the client, as a function of the answers. Connections are numbered as
   they are obtained, and `hosts` are where they go; `tried` are the connects made to a primary, and
   `lost` the connections no pointer was ever given to.
   */
  datatype State = State(
    master: Option<nat>, masterHost: Host, slave: Option<nat>, slaveHost: Host, readPref: Option<int>,
    hosts: seq<Host>, tried: seq<Attempt>, lost: set<nat>)
  {
    /** The answer with which checkMaster keeps the connection it has. */
    predicate Reuses(a: PrimaryAnswers) {
      a.host == Some(masterHost) && master.Some? && !a.failed
    }

    /** The host checkMaster connects to, if it gets that far. */
    function Wanted(a: PrimaryAnswers): Option<Host> {
      if Reuses(a) then None
      else if a.host == Some(masterHost) && master.Some? then a.hostAfterFailure
      else a.host
    }

    /** The answers with which checkLastHost keeps the connection last used for reading. */
    predicate Remembers(pref: int, a: NodeAnswers) {
      slave.Some? && slaveHost != NO_HOST && readPref == Some(pref) && !a.lastFailed && a.lastUp == Some(true)
    }

    function MasterReset(): State {
      var s := this.(master := None, masterHost := NO_HOST);
      if master == slave then s.(slave := None, slaveHost := NO_HOST) else s
    }

    function SlaveReset(logoutThrows: bool): (State, bool) {
      if logoutThrows && slave.Some? && slave != master then (this, true)
      else (this.(slave := None, slaveHost := NO_HOST), false)
    }

    function Invalidated(a: Invalidation): (State, bool) {
      if a.monitor then SlaveReset(a.logoutThrows) else (this, true)
    }

    function MasterConnected(h: Host, connect: Connect, authThrows: bool): (State, Result) {
      var s := this.(masterHost := h, tried := tried + [Attempt(h, connect)]);
      match connect
      case Refused => (s, Threw)
      case ConnectedWithError => (s.(hosts := hosts + [h], lost := lost + {|hosts|}), Threw)
      case Connected =>
        (s.(hosts := hosts + [h]).MasterReset().(masterHost := h, master := Some(|hosts|)),
         if authThrows then Threw else Conn(|hosts|))
    }

    function MasterChecked(a: PrimaryAnswers): (State, Result) {
      if Reuses(a) then (this, Conn(master.value))
      else if a.host.Some? && Wanted(a).Some? then MasterConnected(Wanted(a).value, a.connect, a.authThrows)
      else (this, Threw)
    }

    function LastHostChecked(pref: int, a: NodeAnswers): (State, bool) {
      if slave.None? || slaveHost == NO_HOST || readPref != Some(pref) || Remembers(pref, a) then (this, false)
      else if !a.lastFailed && a.lastUp.None? then (this, true)
      else Invalidated(a.invalidation)
    }

    function SlaveConnected(a: NodeAnswers): (State, Result) {
      if a.connect.Refused? then (this, Threw)
      else
        (this.(slave := Some(|hosts|), hosts := hosts + [slaveHost]),
         if a.reconnects && !a.authThrows then Conn(|hosts|) else Threw)
    }

    function NodeConnected(pref: int, a: NodeAnswers, node: Host): (State, Result) {
      var s := this.(readPref := Some(pref), slaveHost := node);
      if a.primary then
        var (t, r) := s.MasterChecked(a.primaryAnswers);
        (if r.Conn? then t.(slave := t.master) else t, r)
      else s.SlaveConnected(a)
    }

    function NodeSelected(pref: int, a: NodeAnswers): (State, Result) {
      if Remembers(pref, a) then (this, Conn(slave.value))
      else
        var (s, threw) := LastHostChecked(pref, a);
        if threw || a.node.None? then (s, Threw)
        else if a.node.value == NO_HOST then (s, NoNode)
        else
          var (t, threw') := s.SlaveReset(a.logoutThrows);
          if threw' then (t, Threw) else t.NodeConnected(pref, a, a.node.value)
    }

    function Authenticated(rounds: nat -> AuthRound, retry: nat): (State, Option<nat>)
      decreases MAX_RETRY + 1 - retry
    {
      if retry > MAX_RETRY then (this, None)
      else
        var a := rounds(retry);
        var (s, r) := NodeSelected(PRIMARY_PREFERRED, a.node);
        if r.NoNode? || (r.Conn? && a.auth.BadCredentials?) then (s, None)
        else if r.Conn? && a.auth.Accepted? then (if s.master != s.slave then s.MasterReset() else s, Some(r.id))
        else
          var (t, threw) := s.Invalidated(a.invalidation);
          if threw then (t, None) else t.Authenticated(rounds, retry + 1)
    }

    function StillConnected(primaryUp: bool, nodeUp: bool, logoutThrows: bool): State {
      var s := if master.Some? && !primaryUp then MasterReset() else this;
      if s.slave.Some? && !nodeUp then s.SlaveReset(logoutThrows).0 else s
    }

    function WasReset(logoutThrows: bool): State {
      var (s, threw) := SlaveReset(logoutThrows);
      if threw then s else s.(readPref := None)
    }

    function After(op: Op): State {
      match op
      case CheckPrimary(a) => MasterChecked(a).0
      case SelectNode(pref, a) => NodeSelected(pref, a).0
      case Authenticate(rounds) => Authenticated(rounds, 0).0
      case StillConnected(primaryUp, nodeUp, logoutThrows) => StillConnected(primaryUp, nodeUp, logoutThrows)
      case NotPrimary => MasterReset()
      case NotSecondary(a) => Invalidated(a).0
      case Reset(logoutThrows) => WasReset(logoutThrows)
    }
  }

  const FRESH := State(None, NO_HOST, None, NO_HOST, None, [], [], {})

  function AfterAll(ops: seq<Op>): State {
    if ops == [] then FRESH else AfterAll(ops[..|ops| - 1]).After(ops[|ops| - 1])
  }

  /** An answer the operation would get if it came to connect to a primary. */
  ghost predicate Offers(op: Op, c: Connect) {
    match op
    case CheckPrimary(a) => a.connect == c
    case SelectNode(_, a) => a.primary && a.primaryAnswers.connect == c
    case Authenticate(rounds) => exists k: nat :: k <= MAX_RETRY && RoundOffers(rounds(k), c)
    case _ => false
  }

  predicate RoundOffers(a: AuthRound, c: Connect) {
    a.node.primary && a.node.primaryAnswers.connect == c
  }

  /** An operation uses only answers it was given. */
  lemma UsedIsOffered(s: State, op: Op, t: Attempt)
    requires t in s.After(op).tried
    ensures t in s.tried || Offers(op, t.connect)
  {
    hide State.NodeSelected;
    match op
    case SelectNode(pref, a) => SelectUses(s, pref, a, t);
    case Authenticate(rounds) => AuthUses(s, rounds, 0, t);
    case _ =>
  }

  lemma SelectUses(s: State, pref: int, a: NodeAnswers, t: Attempt)
    requires t in s.NodeSelected(pref, a).0.tried
    ensures t in s.tried || (a.primary && a.primaryAnswers.connect == t.connect)
  {
    hide State.NodeConnected;
    if !s.Remembers(pref, a) {
      var u := s.LastHostChecked(pref, a).0.SlaveReset(a.logoutThrows).0;
      if a.node.Some? && t in u.NodeConnected(pref, a, a.node.value).0.tried {
        NodeUses(u, pref, a, a.node.value, t);
      }
    }
  }

  lemma NodeUses(s: State, pref: int, a: NodeAnswers, node: Host, t: Attempt)
    requires t in s.NodeConnected(pref, a, node).0.tried
    ensures t in s.tried || (a.primary && a.primaryAnswers.connect == t.connect)
  {
  }

  lemma {:induction false} AuthUses(s: State, rounds: nat -> AuthRound, retry: nat, t: Attempt)
    requires t in s.Authenticated(rounds, retry).0.tried
    ensures t in s.tried || exists k: nat :: k <= MAX_RETRY && RoundOffers(rounds(k), t.connect)
    decreases MAX_RETRY + 1 - retry
  {
    hide State.NodeSelected;
    if retry <= MAX_RETRY {
      var a := rounds(retry);
      var (u, r) := s.NodeSelected(PRIMARY_PREFERRED, a.node);
      if t in u.tried {
        SelectUses(s, PRIMARY_PREFERRED, a.node, t);
        assert t in s.tried || RoundOffers(rounds(retry), t.connect);
      } else {
        AuthUses(u.Invalidated(a.invalidation).0, rounds, retry + 1, t);
      }
    }
  }

  lemma {:induction false} RunUsesOffered(ops: seq<Op>, t: Attempt)
    requires forall i :: 0 <= i < |ops| ==> !Offers(ops[i], t.connect)
    ensures t !in AfterAll(ops).tried
  {
    hide State.After, Offers;
    if ops != [] {
      var n := |ops| - 1;
      RunUsesOffered(ops[..n], t);
      if t in AfterAll(ops).tried {
        UsedIsOffered(AfterAll(ops[..n]), ops[n], t);
      }
    }
  }

  // What a client knows of its connections from the connects it made.

  /** Where the last connect to a primary that succeeded went. */
  function LastInstalled(tried: seq<Attempt>): Option<Host> {
    if tried == [] then None
    else
      var t := tried[|tried| - 1];
      if t.connect.Connected? then Some(t.host) else LastInstalled(tried[..|tried| - 1])
  }

  /** The last connect to a primary went where the last successful one went. */
  predicate Current(tried: seq<Attempt>) {
    tried != [] && LastInstalled(tried) == Some(tried[|tried| - 1].host)
  }

  /** How many connects returned a connection together with an error. */
  function Boths(tried: seq<Attempt>): nat {
    if tried == [] then 0
    else Boths(tried[..|tried| - 1]) + if tried[|tried| - 1].connect.ConnectedWithError? then 1 else 0
  }

  predicate NoneBoth(tried: seq<Attempt>) {
    forall i :: 0 <= i < |tried| ==> !tried[i].connect.ConnectedWithError?
  }

  lemma {:induction false} NoBoths(tried: seq<Attempt>)
    ensures Boths(tried) == 0 <==> NoneBoth(tried)
  {
    if tried != [] {
      var n := |tried| - 1;
      NoBoths(tried[..n]);
      assert forall i :: 0 <= i < n ==> tried[..n][i] == tried[i];
    }
  }

  /**
   A primary that is kept was installed by the last successful connect and is named by the last
   connect of all; each connect that returned both has lost one connection.
   */
  predicate Traced(s: State) {
    && (s.master.Some? ==> s.tried != [] && s.masterHost == s.tried[|s.tried| - 1].host)
    && (s.master.Some? ==> s.master.value < |s.hosts| && LastInstalled(s.tried) == Some(s.hosts[s.master.value]))
    && (forall c :: c in s.lost ==> c < |s.hosts|)
    && |s.lost| == Boths(s.tried)
  }

  lemma TracedConnect(s: State, h: Host, connect: Connect, authThrows: bool)
    requires Traced(s)
    ensures Traced(s.MasterConnected(h, connect, authThrows).0)
  {
    assert (s.tried + [Attempt(h, connect)])[..|s.tried|] == s.tried;
  }

  lemma TracedCheck(s: State, a: PrimaryAnswers)
    requires Traced(s)
    ensures Traced(s.MasterChecked(a).0)
  {
    hide Traced, State.MasterConnected;
    if s.Wanted(a).Some? {
      TracedConnect(s, s.Wanted(a).value, a.connect, a.authThrows);
    }
  }

  /** The connection checkMaster returns, and the host it is named by. */
  lemma CheckedHost(s: State, a: PrimaryAnswers)
    requires Traced(s)
    ensures var (t, r) := s.MasterChecked(a);
      r.Conn? ==> r.id < |t.hosts| && (t.hosts[r.id] == t.masterHost <==> Current(t.tried))
  {
    hide LastInstalled, Boths;
    TracedCheck(s, a);
  }

  lemma TracedReset(s: State, logoutThrows: bool, a: Invalidation)
    requires Traced(s)
    ensures Traced(s.MasterReset()) && Traced(s.SlaveReset(logoutThrows).0) && Traced(s.Invalidated(a).0)
  {
    hide LastInstalled, Boths;
  }

  /** Only the connection for reading and what is known of it differ. */
  lemma TracedElsewhere(s: State, t: State)
    requires Traced(s) && s.hosts <= t.hosts
    requires t.master == s.master && t.masterHost == s.masterHost && t.tried == s.tried && t.lost == s.lost
    ensures Traced(t)
  {
    hide LastInstalled, Boths;
  }

  lemma TracedNode(s: State, pref: int, a: NodeAnswers, node: Host)
    requires Traced(s)
    ensures Traced(s.NodeConnected(pref, a, node).0)
  {
    hide Traced, State.MasterChecked;
    var t := s.(readPref := Some(pref), slaveHost := node);
    TracedElsewhere(s, t);
    TracedCheck(t, a.primaryAnswers);
    var u := t.MasterChecked(a.primaryAnswers).0;
    TracedElsewhere(u, u.(slave := u.master));
    TracedElsewhere(t, t.SlaveConnected(a).0);
  }

  lemma TracedSelect(s: State, pref: int, a: NodeAnswers)
    requires Traced(s)
    ensures Traced(s.NodeSelected(pref, a).0)
  {
    hide Traced, State.NodeConnected, State.SlaveReset, State.Invalidated;
    TracedReset(s, a.logoutThrows, a.invalidation);
    var t := s.LastHostChecked(pref, a).0;
    TracedReset(t, a.logoutThrows, a.invalidation);
    if a.node.Some? {
      TracedNode(t.SlaveReset(a.logoutThrows).0, pref, a, a.node.value);
    }
  }

  lemma {:induction false} TracedAuth(s: State, rounds: nat -> AuthRound, retry: nat)
    requires Traced(s)
    ensures Traced(s.Authenticated(rounds, retry).0)
    decreases MAX_RETRY + 1 - retry
  {
    hide Traced, State.NodeSelected, State.MasterReset, State.Invalidated;
    if retry <= MAX_RETRY {
      var a := rounds(retry);
      TracedSelect(s, PRIMARY_PREFERRED, a.node);
      var t := s.NodeSelected(PRIMARY_PREFERRED, a.node).0;
      TracedReset(t, false, a.invalidation);
      TracedAuth(t.Invalidated(a.invalidation).0, rounds, retry + 1);
    }
  }

  lemma TracedAfter(s: State, op: Op)
    requires Traced(s)
    ensures Traced(s.After(op))
  {
    hide Traced, State.MasterChecked, State.NodeSelected, State.Authenticated, State.MasterReset, State.SlaveReset;
    hide State.Invalidated;
    match op
    case CheckPrimary(a) => TracedCheck(s, a);
    case SelectNode(pref, a) => TracedSelect(s, pref, a);
    case Authenticate(rounds) => TracedAuth(s, rounds, 0);
    case StillConnected(primaryUp, nodeUp, logoutThrows) =>
      TracedReset(s, logoutThrows, Invalidation(false, false));
      TracedReset(s.MasterReset(), logoutThrows, Invalidation(false, false));
    case NotPrimary => TracedReset(s, false, Invalidation(false, false));
    case NotSecondary(a) => TracedReset(s, false, a);
    case Reset(logoutThrows) =>
      TracedReset(s, logoutThrows, Invalidation(false, false));
      var t := s.SlaveReset(logoutThrows).0;
      TracedElsewhere(t, t.(readPref := None));
  }

  lemma {:induction false} RunTraced(ops: seq<Op>)
    ensures Traced(AfterAll(ops))
  {
    hide State.After;
    if ops != [] {
      RunTraced(ops[..|ops| - 1]);
      TracedAfter(AfterAll(ops[..|ops| - 1]), ops[|ops| - 1]);
    }
  }

  /**
   After any run, the primary that is kept goes to the host it is named by exactly when the last
   connect to a primary went where the last successful one did.
   */
  lemma KeptPrimaryExactly(ops: seq<Op>)
    ensures var s := AfterAll(ops);
      s.master.Some? ==>
        s.master.value < |s.hosts| && (s.hosts[s.master.value] == s.masterHost <==> Current(s.tried))
  {
    RunTraced(ops);
  }

  class DBClientReplicaSet {
    var master: Option<nat>
    var masterHost: Host
    var slave: Option<nat>
    var slaveHost: Host
    var readPref: Option<int>

    /** Connections are numbered as they are obtained; this is where they go. */
    var hosts: seq<Host>
    ghost var deleted: set<nat>
    /** Connections no pointer was ever given to. */
    ghost var lost: set<nat>
    /** The connects made to a primary. */
    ghost var tried: seq<Attempt>

    ghost predicate Owns(c: nat)
      reads this`master, this`slave
    {
      master == Some(c) || slave == Some(c)
    }

    /** A connection the running call has in a raw pointer. */
    ghost var inHand: Option<nat>

    ghost predicate Live(c: nat)
      reads this`hosts, this`deleted
    {
      c < |hosts| && c !in deleted
    }

    ghost predicate Valid()
      reads this`master, this`slave, this`inHand, this`hosts, this`deleted, this`lost
    {
      Accounted() && inHand == None
    }

    /** Each connection obtained is owned, in hand, deleted, or lost, and only one of these. */
    ghost predicate Accounted()
      reads this`master, this`slave, this`inHand, this`hosts, this`deleted, this`lost
    {
      && (master.Some? ==> Kept(master.value) && master != inHand)
      && (slave.Some? ==> Kept(slave.value) && slave != inHand)
      && (inHand.Some? ==> Kept(inHand.value))
      && deleted !! lost
      && (forall c: nat :: c in deleted ==> c < |hosts|)
      && (forall c: nat :: c in lost ==> c < |hosts|)
      && (forall c: nat :: c < |hosts| ==> Owns(c) || inHand == Some(c) || c in deleted || c in lost)
    }

    ghost predicate Kept(c: nat)
      reads this`hosts, this`deleted, this`lost
    {
      Live(c) && c !in lost
    }

    ghost predicate AllDeleted()
      reads this`hosts, this`deleted
    {
      forall c: nat :: c < |hosts| ==> c in deleted
    }

    /** The connection behind a pointer, if there is one. */
    static ghost function Held(pointer: Option<nat>): set<nat> {
      if pointer.Some? then {pointer.value} else {}
    }

    ghost function Now(): State
      reads this`master, this`masterHost, this`slave, this`slaveHost, this`readPref, this`hosts, this`tried, this`lost
    {
      State(master, masterHost, slave, slaveHost, readPref, hosts, tried, lost)
    }

    /** The connection kept for the primary goes to the host that is remembered for it. */
    ghost predicate Agrees()
      reads this`master, this`masterHost, this`hosts
    {
      master.Some? ==> master.value < |hosts| && hosts[master.value] == masterHost
    }

    lemma SlaveIsLive()
      requires Accounted()
      ensures (slave.Some? ==> Live(slave.value)) && (master.Some? ==> Live(master.value))
    {
    }

    constructor ()
      ensures Valid() && Agrees() && Now() == FRESH
    {
      master, masterHost, slave, slaveHost, readPref := None, NO_HOST, None, NO_HOST, None;
      hosts, deleted, lost, tried, inHand := [], {}, {}, [], None;
    }

    /** Any call through a pointer: the object it points to must still be there. */
    ghost method Use(c: nat)
      requires Live(c)
    {
    }

    ghost method Delete(c: nat)
      requires Live(c)
      modifies this`deleted
      ensures deleted == old(deleted) + {c}
    {
      deleted := deleted + {c};
    }

    method Obtain(host: Host) returns (c: nat)
      requires Valid()
      modifies this`hosts, this`inHand
      ensures Accounted() && inHand == Some(c)
      ensures c == |old(hosts)| && hosts == old(hosts) + [host]
    {
      c := |hosts|;
      hosts, inHand := hosts + [host], Some(c);
    }

    /** The smart pointer lets go of its connection and deletes it. */
    method DropMaster()
      requires Accounted() && (slave.Some? ==> slave != master)
      modifies this`master, this`deleted
      ensures Accounted() && master == None && deleted == old(deleted) + Held(old(master))
    {
      if master.Some? {
        Delete(master.value);
        master := None;
      }
    }

    method DropSlave()
      requires Accounted() && (slave.Some? ==> slave != master)
      modifies this`slave, this`deleted
      ensures Accounted() && slave == None && deleted == old(deleted) + Held(old(slave))
    {
      if slave.Some? {
        Delete(slave.value);
        slave := None;
      }
    }

    /** One of two pointers to the same connection lets go without deleting. */
    method ReleaseSlave()
      requires Accounted() && slave == master
      modifies this`slave
      ensures Accounted() && slave == None
    {
      slave := None;
    }

    method ResetMaster()
      requires Accounted()
      modifies this`master, this`masterHost, this`slave, this`slaveHost, this`deleted
      ensures Accounted() && Agrees() && master == None && masterHost == NO_HOST
      ensures slave == (if old(slave) == old(master) then None else old(slave))
      ensures slaveHost == (if old(slave) == old(master) then NO_HOST else old(slaveHost))
      ensures deleted == old(deleted) + Held(old(master))
      ensures Now() == old(Now()).MasterReset()
    {
      hide Accounted;
      if master == slave {
        ReleaseSlave();
        slaveHost := NO_HOST;
      }
      DropMaster();
      masterHost := NO_HOST;
    }

    /** An exception out of logoutAll leaves everything as it was. */
    method ResetSlaveOkConn(logoutThrows: bool) returns (threw: bool)
      requires Valid()
      modifies this`slave, this`slaveHost, this`deleted
      ensures Valid() && (old(Agrees()) ==> Agrees())
      ensures threw == (logoutThrows && old(slave).Some? && old(slave) != master)
      ensures threw ==> slave == old(slave) && slaveHost == old(slaveHost) && deleted == old(deleted)
      ensures !threw ==> slave == None && slaveHost == NO_HOST
      ensures !threw ==> deleted == old(deleted) + (Held(old(slave)) - Held(master))
      ensures (Now(), threw) == old(Now()).SlaveReset(logoutThrows)
    {
      threw := false;
      if slave == master {
        ReleaseSlave();
      } else if slave.Some? {
        Use(slave.value);
        if logoutThrows {
          return true;
        }
        DropSlave();
      }
      slaveHost := NO_HOST;
    }

    method InvalidateLastSlaveOkCache(a: Invalidation) returns (threw: bool)
      requires Valid()
      modifies this`slave, this`slaveHost, this`deleted
      ensures Valid() && (old(Agrees()) ==> Agrees())
      ensures threw == (!a.monitor || (a.logoutThrows && old(slave).Some? && old(slave) != master))
      ensures threw ==> slave == old(slave) && slaveHost == old(slaveHost) && deleted == old(deleted)
      ensures !threw ==> slave == None && slaveHost == NO_HOST
      ensures !threw ==> deleted == old(deleted) + (Held(old(slave)) - Held(master))
      ensures (Now(), threw) == old(Now()).Invalidated(a)
    {
      if !a.monitor {
        return true;
      }
      threw := ResetSlaveOkConn(a.logoutThrows);
    }

    /** An exception while the connection is in a raw pointer only. */
    ghost method Lose()
      requires Accounted() && inHand.Some?
      modifies this`lost, this`inHand
      ensures Valid() && lost == old(lost) + Held(old(inHand))
    {
      lost, inHand := lost + {inHand.value}, None;
    }

    /** The smart pointers take over a connection that is in hand. */
    method InstallAsMaster(c: nat)
      requires Accounted() && inHand == Some(c) && master == None
      modifies this`master, this`inHand
      ensures Valid() && master == Some(c) && Live(c)
    {
      master, inHand := Some(c), None;
    }

    method InstallAsSlave(c: nat)
      requires Accounted() && inHand == Some(c) && slave == None
      modifies this`slave, this`inHand
      ensures Valid() && slave == Some(c) && slave != master && Live(c)
    {
      slave, inHand := Some(c), None;
    }

    /**
     A connect to a primary that fails leaves the old connection under the new host name; one that
     returns a connection together with an error loses that connection.
     */
    method FailMaster(h: Host, connect: Connect)
      requires Valid() && !connect.Connected?
      modifies this`masterHost, this`hosts, this`lost, this`tried, this`inHand
      ensures Valid() && lost == old(lost) + if connect.ConnectedWithError? then {|old(hosts)|} else {}
      ensures (Now(), Threw) == old(Now()).MasterConnected(h, connect, false)
    {
      hide Accounted;
      masterHost, tried := h, tried + [Attempt(h, connect)];
      if connect.ConnectedWithError? {
        var c := Obtain(h);
        Lose();
      }
    }

    method NewMaster(h: Host) returns (c: nat)
      requires Valid()
      modifies this`master, this`masterHost, this`slave, this`slaveHost, this`hosts, this`deleted, this`tried,
               this`inHand
      ensures Valid() && Agrees() && Live(c)
      ensures deleted == old(deleted) + Held(old(master))
      ensures (Now(), Conn(c)) == old(Now()).MasterConnected(h, Connected, false)
    {
      hide Accounted, State.MasterReset;
      masterHost, tried := h, tried + [Attempt(h, Connected)];
      c := Obtain(h);
      ResetMaster();
      masterHost := h;
      InstallAsMaster(c);
    }

    /** The second half of checkMaster, once it needs a connection to a host. */
    method ConnectMaster(h: Host, connect: Connect, authThrows: bool) returns (r: Result)
      requires Valid()
      modifies this`master, this`masterHost, this`slave, this`slaveHost, this`hosts,
               this`deleted, this`lost, this`tried, this`inHand
      ensures Valid() && masterHost == h && (r.Conn? <==> connect.Connected? && !authThrows) && r != NoNode
      ensures connect.Connected? ==> master == Some(|old(hosts)|) && Agrees() && (r.Conn? ==> master == Some(r.id))
      ensures connect.Connected? ==> deleted == old(deleted) + Held(old(master))
      ensures connect.Connected? && old(slave) == old(master) ==> slave == None && slaveHost == NO_HOST
      ensures !connect.Connected? || old(slave) != old(master) ==> slave == old(slave) && slaveHost == old(slaveHost)
      ensures !connect.Connected? ==> master == old(master) && deleted == old(deleted)
      ensures old(hosts) <= hosts
      ensures (Now(), r) == old(Now()).MasterConnected(h, connect, authThrows)
    {
      hide Accounted;
      if !connect.Connected? {
        FailMaster(h, connect);
        return Threw;
      }
      var c := NewMaster(h);
      Use(c);
      return if authThrows then Threw else Conn(c);
    }

    /** The steps of checkMaster. */
    method FindMaster(a: PrimaryAnswers) returns (r: Result)
      requires Valid()
      modifies this`master, this`masterHost, this`slave, this`slaveHost, this`hosts,
               this`deleted, this`lost, this`tried, this`inHand
      ensures Valid() && (Now(), r) == old(Now()).MasterChecked(a)
    {
      hide Accounted, State.MasterConnected;
      SlaveIsLive();
      if a.host.None? {
        return Threw;
      }
      var h := a.host.value;
      if h == masterHost && master.Some? {
        Use(master.value);
        if !a.failed {
          return Conn(master.value);
        }
        if a.hostAfterFailure.None? {
          return Threw;
        }
        h := a.hostAfterFailure.value;
      }
      r := ConnectMaster(h, a.connect, a.authThrows);
    }

    /** checkMaster, and what its steps come to. */
    method CheckMaster(a: PrimaryAnswers) returns (r: Result)
      requires Valid()
      modifies this`master, this`masterHost, this`slave, this`slaveHost, this`hosts,
               this`deleted, this`lost, this`tried, this`inHand
      ensures Valid() && (r.Conn? ==> master == Some(r.id)) && r != NoNode
      ensures r.Conn?
         <==> old(Now()).Reuses(a) || (old(Now()).Wanted(a).Some? && a.connect.Connected? && !a.authThrows)
      ensures masterHost == (if old(Now()).Wanted(a).Some? then old(Now()).Wanted(a).value else old(masterHost))
      ensures old(Now()).Wanted(a).Some? && a.connect.Connected? ==> master == Some(|old(hosts)|) && Agrees()
      ensures old(Now()).Wanted(a).None? || !a.connect.Connected? ==> master == old(master)
      ensures old(Now()).Wanted(a).Some? && a.connect.Connected? && old(slave) == old(master) ==>
        slave == None && slaveHost == NO_HOST
      ensures old(Now()).Wanted(a).None? || !a.connect.Connected? || old(slave) != old(master) ==>
        slave == old(slave) && slaveHost == old(slaveHost)
      ensures r.Conn? ==> (Agrees() <==> old(Now()).Wanted(a).Some? || old(Agrees()))
      ensures old(hosts) <= hosts
      ensures tried == old(tried)
        + if old(Now()).Wanted(a).Some? then [Attempt(old(Now()).Wanted(a).value, a.connect)] else []
      ensures lost == old(lost)
        + if old(Now()).Wanted(a).Some? && a.connect.ConnectedWithError? then {|old(hosts)|} else {}
      ensures old(Traced(Now())) && r.Conn? ==> r.id < |hosts| && (hosts[r.id] == masterHost <==> Current(tried))
      ensures (Now(), r) == old(Now()).MasterChecked(a)
    {
      hide Accounted, Traced, Current;
      if Traced(old(Now())) {
        CheckedHost(old(Now()), a);
      }
      r := FindMaster(a);
    }

    /** checkLastHost: whether the connection last used for reading serves again. */
    method CheckLastHost(pref: int, a: NodeAnswers) returns (again: bool, threw: bool)
      requires Valid()
      modifies this`slave, this`slaveHost, this`deleted
      ensures Valid() && (old(Agrees()) ==> Agrees())
      ensures again ==> !threw && slave.Some? && slave == old(slave) && slaveHost == old(slaveHost)
      ensures again <==> old(Now()).Remembers(pref, a)
      ensures slave == old(slave) || slave == None
      ensures (Now(), threw) == old(Now()).LastHostChecked(pref, a)
    {
      again, threw := false, false;
      if slave.None? || slaveHost == NO_HOST || readPref != Some(pref) {
        return;
      }
      Use(slave.value);
      if !a.lastFailed {
        if a.lastUp.None? {
          return false, true;
        }
        if a.lastUp.value {
          return true, false;
        }
      }
      threw := InvalidateLastSlaveOkCache(a.invalidation);
    }

    /** The connection to the primary is shared: the second pointer takes it without owning alone. */
    method ShareMaster()
      requires Valid() && slave == None && master.Some?
      modifies this`slave
      ensures Valid() && slave == master
    {
      slave := master;
    }

    /** A connection of its own for reading; the pointer has it before anything can throw. */
    method ConnectSlave(a: NodeAnswers) returns (r: Result)
      requires Valid() && slave == None
      modifies this`slave, this`hosts, this`inHand
      ensures Valid() && (old(Agrees()) ==> Agrees()) && r != NoNode
      ensures r.Conn? <==> !a.connect.Refused? && a.reconnects && !a.authThrows
      ensures r.Conn? ==> slave == Some(r.id) && slave != master && hosts[r.id] == slaveHost
      ensures a.connect.Refused? ==> slave == None
      ensures (Now(), r) == old(Now()).SlaveConnected(a)
    {
      if a.connect.Refused? {
        return Threw;
      }
      hide Accounted;
      var c := Obtain(slaveHost);
      InstallAsSlave(c);
      Use(c);
      return if a.reconnects && !a.authThrows then Conn(c) else Threw;
    }

    /** The rest of selectNodeUsingTags, with the old connection gone and a node selected. */
    method ConnectNode(pref: int, a: NodeAnswers) returns (r: Result)
      requires Valid() && slave == None && a.node.Some? && a.node.value != NO_HOST
      modifies this
      ensures Valid() && r != NoNode && (r.Conn? ==> slave == Some(r.id) && readPref == Some(pref))
      ensures r.Conn? && a.primary ==> slave == master
      ensures r.Conn? && !a.primary ==> slave != master && hosts[r.id] == a.node.value
      ensures r.Conn? ==> (slaveHost == NO_HOST <==> a.primary && old(master).None?)
      ensures old(Agrees()) && r.Conn? ==> Agrees()
      ensures (Now(), r) == old(Now()).NodeConnected(pref, a, a.node.value)
    {
      hide Accounted;
      readPref, slaveHost := Some(pref), a.node.value;
      if a.primary {
        r := CheckMaster(a.primaryAnswers);
        if r.Conn? {
          ShareMaster();
        }
      } else {
        r := ConnectSlave(a);
      }
    }

    /**
     selectNodeUsingTags. The node returned is the one last used for reading from then on, but a
     primary that no connection was kept for loses its host name on the way and is not remembered.
     */
    method SelectNodeUsingTags(pref: int, a: NodeAnswers) returns (r: Result)
      requires Valid()
      modifies this
      ensures Valid() && (r.Conn? ==> slave == Some(r.id) && readPref == Some(pref))
      ensures old(Now()).Remembers(pref, a) ==> r.Conn? && old(slave) == Some(r.id)
      ensures r.Conn? && !old(Now()).Remembers(pref, a) ==> (slave == master <==> a.primary)
      ensures r.Conn? ==> (slaveHost == NO_HOST <==> !old(Now()).Remembers(pref, a) && a.primary && old(master).None?)
      ensures old(Agrees()) && r.Conn? ==> Agrees()
      ensures (Now(), r) == old(Now()).NodeSelected(pref, a)
    {
      hide Accounted;
      var again, threw := CheckLastHost(pref, a);
      if again {
        return Conn(slave.value);
      }
      if threw || a.node.None? {
        return Threw;
      }
      if a.node.value == NO_HOST {
        return NoNode;
      }
      threw := ResetSlaveOkConn(a.logoutThrows);
      if threw {
        return Threw;
      }
      r := ConnectNode(pref, a);
    }

    /**
     _auth. When it succeeds the connection it authenticated is the only one left. The connection
     selected is always the one for reading, so the branch that drops that one is never taken.
     */
    method Auth(rounds: nat -> AuthRound) returns (conn: Option<nat>)
      requires Valid()
      modifies this
      ensures Valid() && (conn.Some? ==> slave == conn && (master == None || master == conn))
      ensures (Now(), conn) == old(Now()).Authenticated(rounds, 0)
    {
      hide Accounted, State.NodeSelected;
      for retry := 0 to MAX_RETRY + 1
        invariant Valid()
        invariant Now().Authenticated(rounds, retry) == old(Now()).Authenticated(rounds, 0)
      {
        var a := rounds(retry);
        var r := SelectNodeUsingTags(PRIMARY_PREFERRED, a.node);
        if r.NoNode? {
          return None;
        }
        if r.Conn? {
          SlaveIsLive();
          Use(r.id);
          if a.auth.BadCredentials? {
            return None;
          }
          if a.auth.Accepted? {
            assert slave == Some(r.id);
            if master != slave {
              ResetMaster();
            }
            return Some(r.id);
          }
        }
        var threw := InvalidateLastSlaveOkCache(a.invalidation);
        if threw {
          return None;
        }
      }
      return None;
    }

    method IsStillConnected(primaryUp: bool, nodeUp: bool, logoutThrows: bool)
      requires Valid()
      modifies this
      ensures Valid() && hosts == old(hosts)
      ensures master == (if primaryUp then old(master) else None)
      ensures primaryUp && nodeUp ==> slave == old(slave) && deleted == old(deleted)
      ensures !nodeUp && !logoutThrows ==> slave == None
      ensures nodeUp && old(slave) != old(master) ==> slave == old(slave) && slaveHost == old(slaveHost)
      ensures !primaryUp && old(slave) == old(master) ==> slave == None
      ensures primaryUp && old(slave) == old(master) && !nodeUp ==> slave == None && deleted == old(deleted)
      ensures !nodeUp && logoutThrows && old(slave) != old(master) ==> slave == old(slave)
      ensures Now() == old(Now()).StillConnected(primaryUp, nodeUp, logoutThrows)
    {
      hide Accounted;
      SlaveIsLive();
      if master.Some? {
        Use(master.value);
        if !primaryUp {
          ResetMaster();
        }
      }
      SlaveIsLive();
      if slave.Some? {
        Use(slave.value);
        if !nodeUp {
          var threw := ResetSlaveOkConn(logoutThrows);
        }
      }
    }

    method Reset(logoutThrows: bool)
      requires Valid()
      modifies this
      ensures Valid() && master == old(master) && hosts == old(hosts)
      ensures !logoutThrows ==> slave == None && readPref == None
      ensures Now() == old(Now()).WasReset(logoutThrows)
    {
      var threw := ResetSlaveOkConn(logoutThrows);
      if !threw {
        readPref := None;
      }
    }

    method Perform(op: Op)
      requires Valid()
      modifies this
      ensures Valid() && Now() == old(Now()).After(op)
    {
      hide Accounted;
      match op {
        case CheckPrimary(a) => var r := CheckMaster(a);
        case SelectNode(pref, a) => var r := SelectNodeUsingTags(pref, a);
        case Authenticate(rounds) => var conn := Auth(rounds);
        case StillConnected(primaryUp, nodeUp, logoutThrows) => IsStillConnected(primaryUp, nodeUp, logoutThrows);
        case NotPrimary => ResetMaster();
        case NotSecondary(a) => var threw := InvalidateLastSlaveOkCache(a);
        case Reset(logoutThrows) => Reset(logoutThrows);
      }
    }

    /** The destructor, and those of the two smart pointers after it, last member first. */
    method Destroy()
      requires Valid()
      modifies this`master, this`slave, this`deleted
      ensures Valid() && master == None && slave == None
      ensures deleted == old(deleted) + Held(old(master)) + Held(old(slave))
    {
      hide Accounted;
      if slave == master {
        ReleaseSlave();
      }
      DropSlave();
      DropMaster();
    }
  }

  /** Authentication tries four rounds at most: what a fifth would answer does not matter. */
  lemma {:induction false} FourRounds(s: State, rounds: nat -> AuthRound, others: nat -> AuthRound, retry: nat)
    requires forall k: nat :: k < 4 ==> rounds(k) == others(k)
    ensures s.Authenticated(rounds, retry) == s.Authenticated(others, retry)
    decreases 4 - retry
  {
    hide State.NodeSelected, State.Invalidated, State.MasterReset;
    if retry <= MAX_RETRY {
      var a := rounds(retry);
      FourRounds(s.NodeSelected(PRIMARY_PREFERRED, a.node).0.Invalidated(a.invalidation).0, rounds, others, retry + 1);
    }
  }

  /** And the fourth round can still succeed. */
  lemma FourthRound(s: State, rounds: nat -> AuthRound)
    requires s.NodeSelected(PRIMARY_PREFERRED, rounds(3).node).1.Conn? && rounds(3).auth.Accepted?
    ensures s.Authenticated(rounds, 3).1.Some?
  {
    hide State.NodeSelected;
  }

  /** A client after any operations with any answers. */
  method RunAll(ops: seq<Op>) returns (client: DBClientReplicaSet)
    ensures fresh(client) && client.Valid() && client.Now() == AfterAll(ops)
  {
    hide State.After, DBClientReplicaSet.Accounted;
    client := new DBClientReplicaSet();
    for i := 0 to |ops|
      invariant client.Valid() && fresh(client) && client.Now() == AfterAll(ops[..i])
    {
      assert ops[..i + 1][..i] == ops[..i];
      client.Perform(ops[i]);
    }
    assert ops[..|ops|] == ops;
  }

  /**
   A whole life: any operations with any answers, then the destructor. No connection is deleted
   twice or used after it was deleted, for Delete and Use require it to be live. Every connection
   is deleted in the end exactly when no connect to a primary that the run comes to returns a
   connection with an error, and so whenever none is offered.
   */
  method Run(ops: seq<Op>) returns (client: DBClientReplicaSet)
    ensures fresh(client) && client.master == None && client.slave == None
    ensures client.hosts == AfterAll(ops).hosts
    ensures client.lost == AfterAll(ops).lost && |client.lost| == Boths(AfterAll(ops).tried)
    ensures client.deleted !! client.lost
    ensures forall c: nat :: c < |client.hosts| <==> c in client.deleted || c in client.lost
    ensures client.AllDeleted() <==> NoneBoth(AfterAll(ops).tried)
    ensures (forall i :: 0 <= i < |ops| ==> !Offers(ops[i], ConnectedWithError)) ==> client.AllDeleted()
  {
    hide State.After, Offers, DBClientReplicaSet.Accounted, DBClientReplicaSet.AllDeleted, AfterAll;
    client := RunAll(ops);
    client.Destroy();
    Outcome(client);
    RunTraced(ops);
    NoBoths(AfterAll(ops).tried);
    if forall i :: 0 <= i < |ops| ==> !Offers(ops[i], ConnectedWithError) {
      forall t: Attempt | t.connect == ConnectedWithError ensures t !in AfterAll(ops).tried {
        RunUsesOffered(ops, t);
      }
    }
  }

  lemma Outcome(client: DBClientReplicaSet)
    requires client.Valid() && client.master == None && client.slave == None
    ensures client.deleted !! client.lost && (client.AllDeleted() <==> |client.lost| == 0)
    ensures forall c: nat :: c < |client.hosts| <==> c in client.deleted || c in client.lost
  {
    if client.lost != {} {
      var c :| c in client.lost;
      assert c < |client.hosts| && c !in client.deleted;
    }
  }

  /**
   checkMaster at the end of any run: the connection it returns goes to the host the monitor named
   exactly when the last connect to a primary went where the last successful one did.
   */
  method RunThenCheckMaster(ops: seq<Op>, a: PrimaryAnswers) returns (client: DBClientReplicaSet, r: Result)
    ensures client.Now() == AfterAll(ops + [CheckPrimary(a)])
    ensures r.Conn? ==>
      && r.id < |client.hosts|
      && client.masterHost == Named(AfterAll(ops), a)
      && (client.hosts[r.id] == Named(AfterAll(ops), a) <==> Current(AfterAll(ops + [CheckPrimary(a)]).tried))
  {
    hide DBClientReplicaSet.Accounted, Traced, Current;
    client := RunAll(ops);
    RunTraced(ops);
    assert (ops + [CheckPrimary(a)])[..|ops|] == ops;
    r := client.CheckMaster(a);
  }

  /** The host the monitor named last, where it named one. */
  function Named(s: State, a: PrimaryAnswers): Host {
    var named := if s.Wanted(a).Some? then s.Wanted(a) else a.host;
    if named.Some? then named.value else NO_HOST
  }

  /** One connect that returns both, on a fresh client: its connection is never deleted. */
  method ConnectionLost(h: Host) returns (client: DBClientReplicaSet)
    ensures |client.hosts| == 1 && client.lost == {0} && client.deleted == {}
  {
    var ops := [CheckPrimary(PrimaryAnswers(Some(h), false, None, ConnectedWithError, false))];
    assert ops[..0] == [] && AfterAll([]) == FRESH;
    client := Run(ops);
    assert 0 !in client.deleted;
  }

  /** The monitor names one primary and the client returns a connection to another. */
  method WrongPrimary(a: Host, b: Host) returns (client: DBClientReplicaSet, r: Result)
    requires a != b
    ensures client.Valid() && client.masterHost == b && r.Conn? && r.id < |client.hosts| && client.hosts[r.id] == a
  {
    hide DBClientReplicaSet.Accounted, Traced;
    client := new DBClientReplicaSet();
    r := client.CheckMaster(PrimaryAnswers(Some(a), false, None, Connected, false));
    var toB := PrimaryAnswers(Some(b), false, None, Refused, false);
    r := client.CheckMaster(toB);
    r := client.CheckMaster(toB);
  }

  /** A primary connected to for reading is asked for again at once and not remembered. */
  method PrimaryForgotten(h: Host, pref: int, a: NodeAnswers) returns (client: DBClientReplicaSet, r: Result)
    requires h != NO_HOST
    ensures r == Conn(0) && client.slave == Some(0) && client.readPref == Some(pref) && client.slaveHost == NO_HOST
    ensures !client.Now().Remembers(pref, a)
  {
    hide DBClientReplicaSet.Accounted, Traced;
    client := new DBClientReplicaSet();
    var primary := PrimaryAnswers(Some(h), false, None, Connected, false);
    var answers := NodeAnswers(false, Some(true), Invalidation(true, false), Some(h), false, true, primary,
                               Refused, false, false);
    r := client.SelectNodeUsingTags(pref, answers);
  }
}
