/** Devices, the connections that keep them online until they lapse, and the switches that keep
    them off. Times are numbers of seconds, and one handler sees one of them. */
module Devices {
  import opened Wrappers

  datatype Device = Device(isOnline: bool, lastOnline: Option<int>)

  /** A websocket of a device's backend, and the process that holds it. */
  datatype Connection = Connection(device: string, holder: nat, expiresAt: int)

  datatype Registry = Registry(devices: map<string, Device>, connections: map<nat, Connection>, switchedOff: set<string>)

  const CONNECTION_TTL := 90

  // ---- what the handlers make of what is stored ----

  predicate IsLive(r: Registry, id: nat, now: int) { id in r.connections && now < r.connections[id].expiresAt }

  function ConnectedNames(r: Registry, now: int): set<string> {
    set id | id in r.connections && IsLive(r, id, now) :: r.connections[id].device
  }

  function Flagged(d: Device, isOnline: bool, now: int): Device {
    if d.isOnline == isOnline then d else Device(isOnline, if isOnline then None else Some(now))
  }

  predicate IsNamed(names: Option<set<string>>, name: string) { names.None? || name in names.value }

  /** The devices once those named are marked online if connected and not switched off. */
  function Marked(devices: map<string, Device>, names: Option<set<string>>, connected: set<string>,
                  switchedOff: set<string>, now: int): map<string, Device> {
    map name | name in devices ::
      if IsNamed(names, name) then Flagged(devices[name], name in connected && name !in switchedOff, now) else devices[name]
  }

  function Synced(r: Registry, names: Option<set<string>>, now: int): Registry {
    r.(devices := Marked(r.devices, names, ConnectedNames(r, now), r.switchedOff, now))
  }

  function Connected(r: Registry, id: nat, name: string, holder: nat, now: int, ttl: int): Registry {
    Synced(r.(connections := r.connections[id := Connection(name, holder, now + ttl)]), Some({name}), now)
  }

  function Disconnected(r: Registry, id: nat, now: int): Registry {
    if !IsLive(r, id, now) then r
    else Synced(r.(connections := r.connections - {id}), Some({r.connections[id].device}), now)
  }

  function KeptLive(r: Registry, ids: set<nat>, now: int, ttl: int): Registry {
    r.(connections := map id | id in r.connections ::
      if id in ids && IsLive(r, id, now) then r.connections[id].(expiresAt := now + ttl) else r.connections[id])
  }

  /** The device with the payload's own flag and time, which are the backend's view. */
  function Written(r: Registry, name: string, isOnline: bool, lastOnline: Option<int>): Registry {
    var last := if lastOnline.Some? || name !in r.devices then lastOnline else r.devices[name].lastOnline;
    r.(devices := r.devices[name := Device(isOnline, last)])
  }

  function Upserted(r: Registry, name: string, isOnline: bool, lastOnline: Option<int>, now: int): Registry {
    Synced(Written(r, name, isOnline, lastOnline), Some({name}), now)
  }

  function SwitchedOff(r: Registry, name: string, date: int): Registry {
    if name !in r.devices then r
    else r.(switchedOff := r.switchedOff + {name}, devices := r.devices[name := Device(false, Some(date))])
  }

  function SwitchedOn(r: Registry, name: string, now: int): Registry {
    Synced(r.(switchedOff := r.switchedOff - {name}), Some({name}), now)
  }

  function Refreshed(r: Registry, ids: set<nat>, now: int, ttl: int): Registry {
    Synced(KeptLive(r, ids, now, ttl), None, now)
  }

  /** No device is both switched off and online. */
  predicate OffIsOffline(r: Registry) {
    forall name :: name in r.devices && name in r.switchedOff ==> !r.devices[name].isOnline
  }

  predicate IsRight(r: Registry, name: string, now: int)
    requires name in r.devices
  {
    r.devices[name].isOnline <==> name in ConnectedNames(r, now) && name !in r.switchedOff
  }

  class DeviceService {
    var devices: map<string, Device>
    var connections: map<nat, Connection>
    var switchedOff: set<string>

    function Stored(): Registry
      reads this
    {
      Registry(devices, connections, switchedOff)
    }

    ghost predicate Valid()
      reads this
    {
      OffIsOffline(Stored())
    }

    method SyncOnlineFlags(names: Option<set<string>>, now: int)
      modifies this`devices
      ensures Stored() == Synced(old(Stored()), names, now)
    {
      var connectedNames := ConnectedNames(Stored(), now);
      var found := set name | name in devices && IsNamed(names, name);
      ghost var before, all := devices, found;
      while found != {}
        invariant found <= all && devices.Keys == before.Keys
        invariant forall name :: name in before && (name !in all || name in found) ==> devices[name] == before[name]
        invariant forall name :: name in all && name !in found ==>
          devices[name] == Flagged(before[name], name in connectedNames && name !in switchedOff, now)
      {
        var name :| name in found;
        var isOnline := name in connectedNames && name !in switchedOff;
        if isOnline != devices[name].isOnline {
          var lastOnline := if isOnline then None else Some(now);
          devices := devices[name := Device(isOnline, lastOnline)];
        }
        found := found - {name};
      }
      assert devices == Marked(before, names, connectedNames, switchedOff, now);
    }

    method AddConnection(name: string, newId: nat, holder: nat, ttl: int, now: int) returns (id: nat)
      requires Valid() && newId !in connections
      modifies this
      ensures Valid() && id == newId && Stored() == Connected(old(Stored()), newId, name, holder, now, ttl)
    {
      connections := connections[newId := Connection(name, holder, now + ttl)];
      SyncOnlineFlags(Some({name}), now);
      return newId;
    }

    method RemoveConnection(id: nat, now: int)
      requires Valid()
      modifies this
      ensures Valid() && Stored() == Disconnected(old(Stored()), id, now)
    {
      if IsLive(Stored(), id, now) {
        var connection := connections[id];
        connections := connections - {id};
        SyncOnlineFlags(Some({connection.device}), now);
      }
    }

    /** A connection that is named and has not lapsed is live from now on exactly until another time
        to live is over; each of the others, lapsed ones too, exactly as long as it was to be. */
    method KeepConnectionsLive(ids: set<nat>, ttl: int, now: int)
      requires Valid()
      modifies this`connections
      ensures Valid() && connections.Keys == old(connections.Keys)
      ensures forall id, at :: IsLive(Stored(), id, at) <==>
        if id in ids && old(IsLive(Stored(), id, now)) then at < now + ttl else old(IsLive(Stored(), id, at))
      ensures forall id :: id in connections ==>
        && connections[id].device == old(connections[id].device) && connections[id].holder == old(connections[id].holder)
        && (id !in ids || !old(IsLive(Stored(), id, now)) ==> connections[id] == old(connections[id]))
      ensures Stored() == KeptLive(old(Stored()), ids, now, ttl)
    {
      if ids != {} {
        connections := map id | id in connections ::
          if id in ids && now < connections[id].expiresAt then connections[id].(expiresAt := now + ttl) else connections[id];
      }
      assert connections == KeptLive(old(Stored()), ids, now, ttl).connections;
    }

    method UpsertDevice(name: string, isOnline: bool, lastOnline: Option<int>, now: int) returns (device: Device)
      requires Valid()
      modifies this
      ensures Valid() && Stored() == Upserted(old(Stored()), name, isOnline, lastOnline, now)
      ensures name in devices && device == devices[name] && IsRight(Stored(), name, now)
    {
      devices := Written(Stored(), name, isOnline, lastOnline).devices;
      SyncOnlineFlags(Some({name}), now);
      return devices[name];
    }

    method SwitchOffDevice(name: string, date: int) returns (r: Result<Device>)
      requires Valid()
      modifies this
      ensures Valid() && Stored() == SwitchedOff(old(Stored()), name, date)
      ensures r == if name in old(devices) then Ok(Device(false, Some(date))) else Err(NotFound)
    {
      if name !in devices {
        return Err(NotFound);
      }
      switchedOff := switchedOff + {name};
      devices := devices[name := Device(false, Some(date))];
      return Ok(devices[name]);
    }

    method SwitchOnDevice(name: string, now: int) returns (r: Result<Device>)
      requires Valid()
      modifies this
      ensures Valid() && Stored() == SwitchedOn(old(Stored()), name, now)
      ensures r == if name in devices then Ok(devices[name]) else Err(NotFound)
      ensures name in devices ==> IsRight(Stored(), name, now)
    {
      switchedOff := switchedOff - {name};
      SyncOnlineFlags(Some({name}), now);
      return if name in devices then Ok(devices[name]) else Err(NotFound);
    }
  }

  /** The live websockets of one process, each with the id of its connection. */
  class WebsocketConnectionManager {
    var activeConnections: map<nat, nat>

    method Connect(websocket: nat, connectionId: nat)
      modifies this
      ensures activeConnections == old(activeConnections)[websocket := connectionId]
    {
      activeConnections := activeConnections[websocket := connectionId];
    }

    method Disconnect(websocket: nat)
      modifies this
      ensures activeConnections == old(activeConnections) - {websocket}
    {
      activeConnections := activeConnections - {websocket};
    }

    /** One round of the refresh loop: the connections of the websockets held last for another
        while, and every device is marked as it is. */
    method Refresh(service: DeviceService, now: int)
      requires service.Valid()
      modifies service
      ensures service.Valid()
      ensures service.Stored() == Refreshed(old(service.Stored()), old(activeConnections.Values), now, CONNECTION_TTL)
    {
      service.KeepConnectionsLive(activeConnections.Values, CONNECTION_TTL, now);
      service.SyncOnlineFlags(None, now);
    }
  }

  // ---- the flags after one handler ----

  /** Marking makes each named device online exactly if it has a live connection and is not
      switched off, leaves the others, and leaves the time of a flag that does not change. */
  lemma SyncIsExact(r: Registry, names: Option<set<string>>, now: int, name: string)
    requires name in r.devices
    ensures var after := Synced(r, names, now);
      && name in after.devices
      && (IsNamed(names, name) ==> IsRight(after, name, now))
      && (!IsNamed(names, name) || IsRight(r, name, now) ==> after.devices[name] == r.devices[name])
      && (after.devices[name].isOnline != r.devices[name].isOnline ==>
            after.devices[name].lastOnline == if after.devices[name].isOnline then None else Some(now))
  {
    assert ConnectedNames(Synced(r, names, now), now) == ConnectedNames(r, now);
  }

  /** Marking again, also later, changes nothing until a connection or a switch does. */
  lemma SyncIsIdempotent(r: Registry, names: Option<set<string>>, now: int, later: int)
    requires now <= later && ConnectedNames(r, later) == ConnectedNames(r, now)
    ensures Synced(Synced(r, names, now), names, later) == Synced(r, names, now)
  {
    var once := Synced(r, names, now);
    assert ConnectedNames(once, later) == ConnectedNames(r, later);
    assert Synced(once, names, later).devices == once.devices;
  }

  // ---- a marking that races a switch ----

  /** What marking has read when it comes to write: whom it took for connected and for off. */
  function MarkedLate(r: Registry, connected: set<string>, switchedOff: set<string>, now: int): Registry {
    r.(devices := Marked(r.devices, None, connected, switchedOff, now))
  }

  /** A device switched off after marking read the switches, and before it read the device, ends
      both off and online, unless it was not connected; the next marking puts it right. */
  lemma MarkingRacesSwitchOff(r: Registry, name: string, date: int, now: int)
    requires name in r.devices && name !in r.switchedOff
    ensures var after := MarkedLate(SwitchedOff(r, name, date), ConnectedNames(r, now), r.switchedOff, now);
      && (name in after.switchedOff && after.devices[name].isOnline <==> name in ConnectedNames(r, now))
      && !Synced(after, None, now).devices[name].isOnline
  {
  }

  // ---- timed runs ----

  datatype Event =
    | Connect(process: nat, id: nat, name: string)
    | Disconnect(id: nat)
    | Refresh(process: nat, ids: set<nat>)
    | Initialize(name: string, isOnline: bool, lastOnline: Option<int>)
    | SwitchOff(name: string)
    | SwitchOn(name: string)

  datatype Timed = Timed(at: int, event: Event)

  function Next(r: Registry, e: Timed, ttl: int): Registry {
    match e.event
    case Connect(p, id, name) => Connected(r, id, name, p, e.at, ttl)
    case Disconnect(id) => Disconnected(r, id, e.at)
    case Refresh(_, ids) => Refreshed(r, ids, e.at, ttl)
    case Initialize(name, isOnline, lastOnline) => Upserted(r, name, isOnline, lastOnline, e.at)
    case SwitchOff(name) => SwitchedOff(r, name, e.at)
    case SwitchOn(name) => SwitchedOn(r, name, e.at)
  }

  /** Ids of connections are new, and a process refreshes only connections it holds. */
  predicate CanHappen(r: Registry, e: Timed) {
    match e.event
    case Connect(_, id, _) => id !in r.connections
    case Refresh(p, ids) => forall id :: id in ids && id in r.connections ==> r.connections[id].holder == p
    case _ => true
  }

  const EMPTY := Registry(map[], map[], {})

  function Run(events: seq<Timed>, ttl: int): Registry {
    if events == [] then EMPTY else Next(Run(events[..|events| - 1], ttl), events[|events| - 1], ttl)
  }

  predicate Happens(events: seq<Timed>, ttl: int) {
    && (forall i :: 0 <= i < |events| ==> CanHappen(Run(events[..i], ttl), events[i]))
    && (forall i, j :: 0 <= i < j < |events| ==> events[i].at <= events[j].at)
  }

  lemma HappensBefore(events: seq<Timed>, n: nat, ttl: int)
    requires Happens(events, ttl) && n <= |events|
    ensures Happens(events[..n], ttl)
  {
    forall i | 0 <= i < n ensures CanHappen(Run(events[..n][..i], ttl), events[..n][i]) {
      assert events[..n][..i] == events[..i];
    }
  }

  /** No handler leaves a device both switched off and online. */
  lemma {:induction false} OffStaysOffline(events: seq<Timed>, ttl: int)
    ensures OffIsOffline(Run(events, ttl))
  {
    if events != [] {
      OffStaysOffline(events[..|events| - 1], ttl);
    }
  }

  /** A connection that lapsed is never revived: no later event gives it more time. */
  lemma LapsedIsNotRevived(r: Registry, e: Timed, ttl: int, id: nat, now: int)
    requires CanHappen(r, e) && id in r.connections && r.connections[id].expiresAt <= now <= e.at
    ensures var after := Next(r, e, ttl);
      id in after.connections && after.connections[id] == r.connections[id] && !IsLive(after, id, e.at)
  {
  }

  // ---- a connection refreshed in time ----

  /** Whether an event gives a connection another while, if it has not lapsed. */
  predicate Touches(e: Event, id: nat) {
    match e
    case Connect(_, other, _) => other == id
    case Refresh(_, ids) => id in ids
    case _ => false
  }

  /** When a connection was last given another while. */
  function LastTouch(events: seq<Timed>, id: nat): Option<int> {
    if events == [] then None
    else
      var last := events[|events| - 1];
      if Touches(last.event, id) then Some(last.at) else LastTouch(events[..|events| - 1], id)
  }

  /** Whether each refresh of a connection came before the time it had was up. */
  predicate RefreshedInTime(events: seq<Timed>, id: nat, ttl: int) {
    forall i :: 0 <= i < |events| && events[i].event.Refresh? && id in events[i].event.ids ==>
      LastTouch(events[..i], id).Some? && events[i].at < LastTouch(events[..i], id).value + ttl
  }

  predicate NeverCloses(events: seq<Timed>, id: nat) {
    forall i :: 0 <= i < |events| ==> events[i].event != Disconnect(id)
  }

  lemma RefreshedInTimeBefore(events: seq<Timed>, n: nat, id: nat, ttl: int)
    requires n <= |events| && RefreshedInTime(events, id, ttl)
    ensures RefreshedInTime(events[..n], id, ttl)
  {
    forall i | 0 <= i < n && events[i].event.Refresh? && id in events[i].event.ids
      ensures LastTouch(events[..n][..i], id).Some? && events[i].at < LastTouch(events[..n][..i], id).value + ttl
    {
      assert events[..n][..i] == events[..i];
    }
  }

  /** A connection whose refreshes come at gaps shorter than the time to live never lapses: it
      lasts for that time from the last of them. */
  lemma {:induction false} RefreshedNeverLapses(events: seq<Timed>, id: nat, ttl: int)
    requires Happens(events, ttl) && RefreshedInTime(events, id, ttl) && NeverCloses(events, id)
    ensures LastTouch(events, id).Some? <==> id in Run(events, ttl).connections
    ensures LastTouch(events, id).Some? ==>
      Run(events, ttl).connections[id].expiresAt == LastTouch(events, id).value + ttl
  {
    if events != [] {
      var n := |events| - 1;
      HappensBefore(events, n, ttl);
      RefreshedInTimeBefore(events, n, id, ttl);
      RefreshedNeverLapses(events[..n], id, ttl);
      var before := Run(events[..n], ttl);
      assert CanHappen(before, events[n]);
      if events[n].event.Refresh? && id in events[n].event.ids {
        assert IsLive(before, id, events[n].at);
      }
    }
  }

  // ---- a process that died ----

  /** Whether a process does nothing after a time. */
  predicate DiesAt(events: seq<Timed>, process: nat, time: int) {
    forall i :: 0 <= i < |events| && time < events[i].at ==>
      match events[i].event
      case Connect(p, _, _) => p != process
      case Refresh(p, _) => p != process
      case _ => true
  }

  predicate LapseBy(r: Registry, process: nat, time: int) {
    forall id :: id in r.connections && r.connections[id].holder == process ==> r.connections[id].expiresAt <= time
  }

  lemma NextLapsesToo(r: Registry, e: Timed, process: nat, time: int, ttl: int)
    requires CanHappen(r, e) && LapseBy(r, process, time + ttl) && DiesAt([e], process, time)
    ensures LapseBy(Next(r, e, ttl), process, time + ttl)
  {
    assert [e][0] == e;
  }

  /** The connections of a dead process last no longer than the time to live after its death. */
  lemma {:induction false} DeadConnectionsLapse(events: seq<Timed>, process: nat, time: int, ttl: int)
    requires Happens(events, ttl) && DiesAt(events, process, time)
    ensures LapseBy(Run(events, ttl), process, time + ttl)
  {
    if events != [] {
      var n := |events| - 1;
      HappensBefore(events, n, ttl);
      assert DiesAt(events[..n], process, time) && DiesAt([events[n]], process, time);
      DeadConnectionsLapse(events[..n], process, time, ttl);
      assert CanHappen(Run(events[..n], ttl), events[n]);
      NextLapsesToo(Run(events[..n], ttl), events[n], process, time, ttl);
    }
  }

  ghost predicate RefreshesWithin(events: seq<Timed>, process: nat, from: int, to: int) {
    exists i :: 0 <= i < |events| && IsRefreshBy(events[i], process) && from <= events[i].at <= to
  }

  /** Whether a process refreshes at least once in every period of a stretch of time. */
  ghost predicate RefreshesThrough(events: seq<Timed>, process: nat, period: int, from: int, to: int) {
    forall t, u :: from <= t && u == t + period && u <= to ==> RefreshesWithin(events, process, t, u)
  }

  predicate IsRefreshBy(e: Timed, process: nat) { e.event.Refresh? && e.event.process == process }

  ghost predicate HeldByAnother(r: Registry, name: string, process: nat, now: int) {
    exists id :: IsLive(r, id, now) && r.connections[id].device == name && r.connections[id].holder != process
  }

  /** Whether every device online is held up by another process than this. */
  ghost predicate OnlineByOthers(r: Registry, process: nat, now: int) {
    forall name :: name in r.devices && r.devices[name].isOnline ==> HeldByAnother(r, name, process, now)
  }

  /** Once a process has died, every flag it alone held up is corrected within the time to live
      and one period of any process that survives it: after some refresh in that time, a device
      is online only if another process holds a live connection of it. */
  lemma DeadProcessIsCorrected(events: seq<Timed>, dead: nat, time: int, survivor: nat, ttl: int, period: int)
    requires Happens(events, ttl) && DiesAt(events, dead, time)
    requires RefreshesThrough(events, survivor, period, time, time + ttl + period) && ttl >= 0
    ensures exists i :: 0 <= i < |events| && time + ttl <= events[i].at <= time + ttl + period
                         && OnlineByOthers(Run(events[..i + 1], ttl), dead, events[i].at)
  {
    assert RefreshesWithin(events, survivor, time + ttl, time + ttl + period);
    var i :| 0 <= i < |events| && IsRefreshBy(events[i], survivor) && time + ttl <= events[i].at <= time + ttl + period;
    HappensBefore(events, i + 1, ttl);
    DeadConnectionsLapse(events[..i + 1], dead, time, ttl);
    assert events[..i + 1][..i] == events[..i];
    var before, r := Run(events[..i], ttl), Run(events[..i + 1], ttl);
    var kept := KeptLive(before, events[i].event.ids, events[i].at, ttl);
    assert r == Synced(kept, None, events[i].at);
    forall name | name in r.devices && r.devices[name].isOnline ensures HeldByAnother(r, name, dead, events[i].at) {
      SyncIsExact(kept, None, events[i].at, name);
      assert name in ConnectedNames(r, events[i].at);
      var id :| id in r.connections && IsLive(r, id, events[i].at) && r.connections[id].device == name;
    }
  }
}
