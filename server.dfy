/** The server's control loop (server/src/server.rs): the policy that picks the next action
    from the system state, the registry of collectors, the reported collector states and
    the list of actions in progress. The clock reading (`Utc::now`) is a parameter; the
    work an action starts in the background (the sync with the collectors, the
    transforms) is not modelled beyond the state it changes when it ends. */
module Server {
  import opened Wrappers
  import opened Time
  import opened Errors
  import Types

  /** `ServerActionType`, as far as the loop records it in `pending_actions`. */
  datatype ActionType = SyncDataType | TransformDataType

  /** `ServerAction`: the three actions the policy returns. */
  datatype ServerAction = Sleep(millis: nat) | SyncData(query: string) | TransformData(keys: seq<string>)

  /** `ServerState`, as far as the policy reads it. */
  datatype ServerState = ServerState(timestamp: Option<ProtoTimestamp>, lastSync: Option<ProtoTimestamp>,
                                     pending: seq<ActionType>)

  /** A wire timestamp as the policy reads it: a missing or unrepresentable one is the epoch
      (`unwrap_or_default`). */
  function InstantOrEpoch(ts: Option<ProtoTimestamp>): Instant {
    if ts.None? then 0
    else FromTimestamp(ts.value.seconds, I32ToU32(ts.value.nanos)).GetOr(0)
  }

  /** `ServerPolicy::get_action`: sync when at least `collector_sync_interval` whole seconds
      have passed since the last sync and no sync is in progress; else transform when no
      transform is in progress; else sleep 100 ms. */
  function GetAction(syncInterval: int, ss: ServerState): (r: ServerAction)
    ensures r.SyncData? ==> SyncDataType !in ss.pending
    ensures r.TransformData? ==> TransformDataType !in ss.pending
  {
    var now := InstantOrEpoch(ss.timestamp);
    var last := InstantOrEpoch(ss.lastSync);
    if NumSeconds(now - last) >= syncInterval && SyncDataType !in ss.pending then
      SyncData("SELECT * FROM screen")
    else if TransformDataType !in ss.pending then TransformData([])
    else Sleep(100)
  }

  /** The policy never starts an action of a kind already in progress, it syncs as soon as
      the interval has passed with no sync running, and it sleeps only when both kinds are
      running. */
  lemma GetActionSpec(syncInterval: int, ss: ServerState)
    ensures GetAction(syncInterval, ss).SyncData? ==> SyncDataType !in ss.pending
    ensures GetAction(syncInterval, ss).TransformData? ==>
              TransformDataType !in ss.pending && GetAction(syncInterval, ss).keys == []
    ensures GetAction(syncInterval, ss).Sleep? <==>
              TransformDataType in ss.pending &&
              (SyncDataType in ss.pending ||
               NumSeconds(InstantOrEpoch(ss.timestamp) - InstantOrEpoch(ss.lastSync)) < syncInterval)
    ensures (NumSeconds(InstantOrEpoch(ss.timestamp) - InstantOrEpoch(ss.lastSync)) >= syncInterval &&
             SyncDataType !in ss.pending) ==> GetAction(syncInterval, ss) == SyncData("SELECT * FROM screen")
    ensures GetAction(syncInterval, ss).Sleep? ==> GetAction(syncInterval, ss).millis == 100
  {
  }

  /** With neither timestamp set, both read as the epoch: the policy syncs exactly when the
      interval is at most zero. */
  lemma MissingTimestamps(syncInterval: int, pending: seq<ActionType>)
    requires SyncDataType !in pending
    ensures GetAction(syncInterval, ServerState(None, None, pending)).SyncData? <==> syncInterval <= 0
  {
    assert NumSeconds(0) == 0;
  }

  /** The action kind a started action records. */
  function Started(a: ServerAction): seq<ActionType> {
    match a
    case SyncData(_) => [SyncDataType]
    case TransformData(_) => [TransformDataType]
    case Sleep(_) => []
  }

  /** `Vec::retain(|a| a != t)`: every occurrence of `t` removed, the rest in order. */
  function Without(s: seq<ActionType>, t: ActionType): (r: seq<ActionType>)
    ensures t !in r
    ensures forall u :: u != t ==> multiset(r)[u] == multiset(s)[u]
    decreases |s|
  {
    if s == [] then []
    else
      assert s == [s[0]] + s[1..];
      (if s[0] == t then [] else [s[0]]) + Without(s[1..], t)
  }

  /** At most one action of each kind is in progress. */
  predicate AtMostOneEach(pending: seq<ActionType>) {
    multiset(pending)[SyncDataType] <= 1 && multiset(pending)[TransformDataType] <= 1
  }

  datatype RegisteredCollector = RegisteredCollector(id: string, address: string, mac: string)

  /** A reported collector state; only its name is read here. */
  datatype CollectorState = CollectorState(name: string, details: string)

  predicate UniqueIds(cs: seq<RegisteredCollector>) {
    forall i, j :: 0 <= i < j < |cs| ==> cs[i].id != cs[j].id
  }

  /** The registry after `register_collector`: the entry with the same id replaced in
      place, otherwise the collector appended. */
  function Registered(cs: seq<RegisteredCollector>, c: RegisteredCollector): seq<RegisteredCollector> {
    if exists i :: 0 <= i < |cs| && cs[i].id == c.id then
      var i := FirstWithId(cs, c.id);
      cs[i := c]
    else cs + [c]
  }

  function FirstWithId(cs: seq<RegisteredCollector>, id: string): (i: nat)
    requires exists i :: 0 <= i < |cs| && cs[i].id == id
    ensures i < |cs| && cs[i].id == id && forall j :: 0 <= j < i ==> cs[j].id != id
    decreases |cs|
  {
    if cs[0].id == id then 0
    else
      assert exists i :: 0 <= i < |cs[1..]| && cs[1..][i].id == id by {
        var i :| 0 <= i < |cs| && cs[i].id == id;
        assert cs[1..][i - 1] == cs[i];
      }
      1 + FirstWithId(cs[1..], id)
  }

  /** Registering keeps the ids unique, the new collector is registered, and every other
      collector stays; the registry grows only for a new id. */
  lemma RegisteredSpec(cs: seq<RegisteredCollector>, c: RegisteredCollector)
    requires UniqueIds(cs)
    ensures UniqueIds(Registered(cs, c))
    ensures c in Registered(cs, c)
    ensures forall d :: d in cs && d.id != c.id ==> d in Registered(cs, c)
    ensures forall d :: d in Registered(cs, c) ==> d == c || d in cs
    ensures |Registered(cs, c)| == |cs| + (if exists i :: 0 <= i < |cs| && cs[i].id == c.id then 0 else 1)
  {
    var r := Registered(cs, c);
    if exists i :: 0 <= i < |cs| && cs[i].id == c.id {
      var k := FirstWithId(cs, c.id);
      assert r[k] == c;
      forall d | d in cs && d.id != c.id ensures d in r {
        var j :| 0 <= j < |cs| && cs[j] == d;
        assert r[j] == d;
      }
    } else {
      forall d | d in cs ensures d in r {
        var j :| 0 <= j < |cs| && cs[j] == d;
        assert r[j] == d;
      }
      assert r[|cs|] == c;
    }
  }

  class ServerCore {
    var collectors: seq<RegisteredCollector>
    var collectorStates: map<string, CollectorState>
    var state: ServerState
    const syncInterval: int

    ghost predicate Valid()
      reads this
    {
      UniqueIds(collectors) && AtMostOneEach(state.pending) &&
      forall n :: n in collectorStates ==> collectorStates[n].name == n
    }

    constructor (syncInterval: int)
      ensures Valid()
      ensures collectors == [] && collectorStates == map[] && state == ServerState(None, None, [])
      ensures this.syncInterval == syncInterval
    {
      collectors := [];
      collectorStates := map[];
      state := ServerState(None, None, []);
      this.syncInterval := syncInterval;
    }

    /** `register_collector`: look for a collector with the same id; overwrite it, or
        append the new one. */
    method RegisterCollector(c: RegisteredCollector)
      requires Valid()
      modifies this
      ensures Valid()
      ensures collectors == Registered(old(collectors), c)
      ensures collectorStates == old(collectorStates) && state == old(state)
    {
      RegisteredSpec(collectors, c);
      var i := 0;
      while i < |collectors|
        invariant 0 <= i <= |collectors|
        invariant forall j :: 0 <= j < i ==> collectors[j].id != c.id
      {
        if collectors[i].id == c.id {
          collectors := collectors[i := c];
          return;
        }
        i := i + 1;
      }
      collectors := collectors + [c];
    }

    /** `contains_collector`: a scan for the id. */
    method ContainsCollector(name: string) returns (b: bool)
      ensures b <==> exists i :: 0 <= i < |collectors| && collectors[i].id == name
    {
      var i := 0;
      while i < |collectors|
        invariant 0 <= i <= |collectors|
        invariant forall j :: 0 <= j < i ==> collectors[j].id != name
      {
        if collectors[i].id == name {
          return true;
        }
        i := i + 1;
      }
      return false;
    }

    /** `report_collector_state`: the state is stored under its own name, replacing an
        earlier report from the same collector. */
    method ReportCollectorState(s: CollectorState) returns (r: Result<(), LifelogError>)
      requires Valid()
      modifies this
      ensures Valid() && r == Ok(())
      ensures collectorStates == old(collectorStates)[s.name := s]
      ensures collectors == old(collectors) && state == old(state)
    {
      collectorStates := collectorStates[s.name := s];
      r := Ok(());
    }

    /** One `step`: the state is stamped with the current time, the policy picks an
        action, and a sync or transform is recorded as in progress before its background
        work starts. */
    method Step(now: Instant) returns (action: ServerAction)
      requires Valid()
      modifies this
      ensures Valid()
      ensures action == GetAction(syncInterval, old(state).(timestamp := Types.ToPbTs(now)))
      ensures state == old(state).(timestamp := Types.ToPbTs(now), pending := old(state.pending) + Started(action))
      ensures collectors == old(collectors) && collectorStates == old(collectorStates)
    {
      state := state.(timestamp := Types.ToPbTs(now));
      action := GetAction(syncInterval, state);
      GetActionSpec(syncInterval, state);
      match action
      case SyncData(_) =>
        state := state.(pending := state.pending + [SyncDataType]);
      case TransformData(_) =>
        state := state.(pending := state.pending + [TransformDataType]);
      case Sleep(_) =>
    }

    /** The end of a background sync: the time of the last sync is set and every pending
        sync is removed. */
    method FinishSync(now: Instant)
      requires Valid()
      modifies this
      ensures Valid()
      ensures state == ServerState(old(state.timestamp), Types.ToPbTs(now), Without(old(state.pending), SyncDataType))
      ensures collectors == old(collectors) && collectorStates == old(collectorStates)
    {
      state := ServerState(state.timestamp, Types.ToPbTs(now), Without(state.pending, SyncDataType));
    }

    /** The end of a background transform: every pending transform is removed. */
    method FinishTransform()
      requires Valid()
      modifies this
      ensures Valid()
      ensures state == old(state).(pending := Without(old(state.pending), TransformDataType))
      ensures collectors == old(collectors) && collectorStates == old(collectorStates)
    {
      state := state.(pending := Without(state.pending, TransformDataType));
    }
  }

  /** A sync started by one step blocks further syncs until it finishes; once finished,
      the next step syncs again when the interval has passed since the finish. */
  lemma SyncCycle(syncInterval: int, ss: ServerState, t1: Instant, t2: Instant, t3: Instant)
    requires InRange(t2) && InRange(t3)
    requires GetAction(syncInterval, ss.(timestamp := Types.ToPbTs(t1))).SyncData?
    ensures var s1 := ss.(timestamp := Types.ToPbTs(t1), pending := ss.pending + [SyncDataType]);
            !GetAction(syncInterval, s1.(timestamp := Types.ToPbTs(t2))).SyncData?
    ensures var s1 := ss.(timestamp := Types.ToPbTs(t1), pending := ss.pending + [SyncDataType]);
            var s2 := ServerState(s1.timestamp, Types.ToPbTs(t2), Without(s1.pending, SyncDataType));
            NumSeconds(t3 - t2) >= syncInterval ==>
              GetAction(syncInterval, s2.(timestamp := Types.ToPbTs(t3))).SyncData?
  {
    var s1 := ss.(timestamp := Types.ToPbTs(t1), pending := ss.pending + [SyncDataType]);
    assert SyncDataType in s1.pending by { assert s1.pending[|ss.pending|] == SyncDataType; }
    Types.ToDtProperties(t2);
    Types.ToDtProperties(t3);
    FromTimestampSplit(t2);
    FromTimestampSplit(t3);
  }
}
