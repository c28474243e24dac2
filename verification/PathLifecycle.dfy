/**
  The life of one network path: live or not, with a flag asking for reconnection.
  Each operation takes the write lock and makes two writes under it, except that the
  flag may be raised at any moment without the lock. The machine below interleaves
  single writes; the class performs whole operations.
*/
module PathLifecycle {
  import opened ByteStrings

  datatype LivePath = LivePath(ip: nat, connectionId: nat, endpoint: nat)

  /** Who holds the write lock, with its second write still to come. */
  datatype Lock = Free | Clearing | Installing

  datatype Path = Path(live: Option<LivePath>, requested: bool, lock: Lock)

  datatype Action =
    | RequestReconnect
    | BeginFailed(connectionId: Option<nat>)
    | BeginInterfaceChanged(ip: nat)
    | EndClear
    | BeginInstall(path: LivePath)
    | EndInstall

  /** A failure report clears the path it names, or any live path if it names none. */
  predicate FailureClears(live: Option<LivePath>, connectionId: Option<nat>) {
    live.Some? && (connectionId.None? || live.value.connectionId == connectionId.value)
  }

  predicate ChangeClears(live: Option<LivePath>, ip: nat) {
    live.Some? && live.value.ip != ip
  }

  /** One write. Whatever needs the lock does nothing while another holds it. */
  function Write(p: Path, a: Action): Path {
    match a
    case RequestReconnect => p.(requested := true)
    case BeginFailed(id) =>
      if p.lock == Free && FailureClears(p.live, id) then p.(requested := true, lock := Clearing) else p
    case BeginInterfaceChanged(ip) =>
      if p.lock == Free && ChangeClears(p.live, ip) then p.(requested := true, lock := Clearing) else p
    case EndClear => if p.lock == Clearing then p.(live := None, lock := Free) else p
    case BeginInstall(path) => if p.lock == Free then p.(live := Some(path), lock := Installing) else p
    case EndInstall => if p.lock == Installing then p.(requested := false, lock := Free) else p
  }

  function WriteAll(p: Path, actions: seq<Action>): Path {
    if actions == [] then p else Write(WriteAll(p, actions[..|actions| - 1]), actions[|actions| - 1])
  }

  /** What the reconnect loop waits for. */
  predicate ReconnectDue(p: Path) {
    p.requested && p.live.None?
  }

  /** Between any two writes: no path is dead without a request on record. */
  predicate Remembered(p: Path) {
    && (p.live.None? ==> p.requested)
    && (p.lock == Clearing ==> p.requested && p.live.Some?)
    && (p.lock == Installing ==> p.live.Some?)
  }

  const PENDING := Path(None, true, Free)

  function Connected(path: LivePath): Path {
    Path(Some(path), false, Free)
  }

  /**
    A dead path is never forgotten: after every interleaving of writes, from a pending or
    a connected path, whenever the path is not live the reconnect loop will act.
  */
  lemma {:induction false} DeadPathIsNeverForgotten(p: Path, actions: seq<Action>)
    requires p == PENDING || (p.live.Some? && p == Connected(p.live.value))
    ensures var q := WriteAll(p, actions);
      Remembered(q) && (q.live.None? ==> ReconnectDue(q))
  {
    if actions != [] {
      DeadPathIsNeverForgotten(p, actions[..|actions| - 1]);
    }
  }

  /** Writes that leave a given live path alone: anything that neither replaces it nor fails it by name. */
  predicate Harmless(path: LivePath, a: Action) {
    match a
    case BeginFailed(id) => id.Some? && id.value != path.connectionId
    case BeginInterfaceChanged(ip) => ip == path.ip
    case BeginInstall(_) => false
    case _ => true
  }

  /**
    A late failure report naming an old connection never removes its replacement: a live
    path goes away only by a report that names it or names nobody, by a change of its own
    interface address, or by another installation.
  */
  lemma {:induction false} ReplacementSurvivesLateReports(p: Path, path: LivePath, actions: seq<Action>)
    requires p.live == Some(path) && p.lock != Clearing
    requires forall i :: 0 <= i < |actions| ==> Harmless(path, actions[i])
    ensures WriteAll(p, actions).live == Some(path) && WriteAll(p, actions).lock != Clearing
  {
    if actions != [] {
      var n := |actions| - 1;
      ReplacementSurvivesLateReports(p, path, actions[..n]);
      assert Harmless(path, actions[n]);
    }
  }

  /** And it does go away, for good until the next installation, once such a report is carried out. */
  lemma NamedFailureClears(p: Path, connectionId: Option<nat>)
    requires p.lock == Free && Remembered(p)
    ensures var q := Write(Write(p, BeginFailed(connectionId)), EndClear);
      if p.live.Some? && (connectionId.None? || p.live.value.connectionId == connectionId.value) then q == PENDING
      else q == p
  {
  }

  /** So it does when its interface has another address, and only then. */
  lemma ChangedAddressClears(p: Path, ip: nat)
    requires p.lock == Free && Remembered(p)
    ensures var q := Write(Write(p, BeginInterfaceChanged(ip)), EndClear);
      if p.live.Some? && p.live.value.ip != ip then q == PENDING else q == p
  {
  }

  /** An installation connects the path, whatever it was before and whoever asks meanwhile. */
  lemma InstallConnects(p: Path, path: LivePath, asks: nat)
    requires p.lock == Free
    ensures Write(WriteAll(Write(p, BeginInstall(path)), seq(asks, (_: nat) => RequestReconnect)), EndInstall) ==
            Connected(path)
  {
    AskingKeepsThePath(Write(p, BeginInstall(path)), asks);
  }

  lemma {:induction false} AskingKeepsThePath(p: Path, asks: nat)
    ensures var q := WriteAll(p, seq(asks, (_: nat) => RequestReconnect)); q.live == p.live && q.lock == p.lock
  {
    if asks > 0 {
      AskingKeepsThePath(p, asks - 1);
      assert seq(asks, (_: nat) => RequestReconnect)[..asks - 1] == seq(asks - 1, (_: nat) => RequestReconnect);
    }
  }

  /** A request stands until an installation is finished, whatever else is written. */
  lemma {:induction false} RequestStands(p: Path, actions: seq<Action>)
    requires EndInstall !in actions
    ensures WriteAll(Write(p, RequestReconnect), actions).requested
  {
    if actions != [] {
      var n := |actions| - 1;
      RequestStands(p, actions[..n]);
      assert actions[n] in actions;
    }
  }

  // ---------------------------------------------------------------- whole operations

  class PathConnection {
    var live: Option<LivePath>
    var reconnectRequested: bool

    ghost function View(): Path
      reads this
    {
      Path(live, reconnectRequested, Free)
    }

    constructor Pend()
      ensures View() == PENDING
    {
      live, reconnectRequested := None, true;
    }

    constructor Connect(path: LivePath)
      ensures View() == Connected(path)
    {
      live, reconnectRequested := Some(path), false;
    }

    method RequestReconnect()
      modifies `reconnectRequested
      ensures View() == Write(old(View()), Action.RequestReconnect)
    {
      reconnectRequested := true;
    }

    method MarkFailed(connectionId: Option<nat>) returns (endpoint: Option<nat>)
      modifies this
      ensures View() == Write(Write(old(View()), BeginFailed(connectionId)), EndClear)
      ensures endpoint == if FailureClears(old(live), connectionId) then Some(old(live).value.endpoint) else None
    {
      var shouldClear := match connectionId
        case Some(id) => live.Some? && live.value.connectionId == id
        case None => live.Some?;
      if !shouldClear {
        return None;
      }
      RequestReconnect();
      endpoint := Some(live.value.endpoint);
      live := None;
    }

    method MarkInterfaceChanged(ip: nat) returns (endpoint: Option<nat>)
      modifies this
      ensures View() == Write(Write(old(View()), BeginInterfaceChanged(ip)), EndClear)
      ensures endpoint == if ChangeClears(old(live), ip) then Some(old(live).value.endpoint) else None
    {
      if !(live.Some? && live.value.ip != ip) {
        return None;
      }
      RequestReconnect();
      endpoint := Some(live.value.endpoint);
      live := None;
    }

    /** The part of a reconnection after the new connection is up; a failed attempt changes nothing. */
    method Reconnect(attempt: Option<LivePath>) returns (closed: Option<nat>)
      modifies this
      ensures attempt.None? ==> View() == old(View()) && closed == None
      ensures attempt.Some? ==> View() == Write(Write(old(View()), BeginInstall(attempt.value)), EndInstall)
      ensures attempt.Some? ==> closed == match old(live) case Some(path) => Some(path.endpoint) case None => None
    {
      if attempt.None? {
        return None;
      }
      closed := if live.Some? then Some(live.value.endpoint) else None;
      live := attempt;
      reconnectRequested := false;
    }
  }
}
