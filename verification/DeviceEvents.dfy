/** Watching devices come and go: the subscription starts first, the list of attached
    devices is taken some time later, and only then are the events mapped. */
module DeviceEvents {
  import opened Options

  datatype Info = Info(udid: string, id: nat, connection: string, product: nat)

  datatype MuxEvent = Attached(device: Info) | Detached(id: nat)
  {
    function Subject(): nat {
      if Attached? then device.id else id
    }
  }

  datatype DeviceEvent = Arrived(info: Info) | Left(udid: string, id: nat)

  type Table = map<nat, Info>

  function Updated(table: Table, e: MuxEvent): Table {
    match e
    case Attached(device) => table[device.id := device]
    case Detached(id) => table - {id}
  }

  /** What a mapper with this table makes of an event. */
  function Mapped(table: Table, e: MuxEvent): DeviceEvent {
    match e
    case Attached(device) => Arrived(device)
    case Detached(id) => Left(if id in table then table[id].udid else "", id)
  }

  function TableOver(start: Table, events: seq<MuxEvent>): Table {
    if events == [] then start else Updated(TableOver(start, events[..|events| - 1]), events[|events| - 1])
  }

  lemma TableFollows(start: Table, events: seq<MuxEvent>, n: nat)
    requires n < |events|
    ensures TableOver(start, events[..n + 1]) == Updated(TableOver(start, events[..n]), events[n])
  {
    assert events[..n + 1][..n] == events[..n];
  }

  function FromList(devices: seq<Info>): Table {
    if devices == [] then map[]
    else FromList(devices[..|devices| - 1])[devices[|devices| - 1].id := devices[|devices| - 1]]
  }

  class DeviceEventMapper {
    var attached: Table

    constructor WithAttachedDevices(devices: seq<Info>)
      ensures attached == FromList(devices)
    {
      var table: Table := map[];
      for i := 0 to |devices|
        invariant table == FromList(devices[..i])
      {
        assert devices[..i + 1][..i] == devices[..i];
        table := table[devices[i].id := devices[i]];
      }
      assert devices[..|devices|] == devices;
      attached := table;
    }

    method Map(e: MuxEvent) returns (mapped: DeviceEvent)
      modifies this
      ensures mapped == Mapped(old(attached), e) && attached == Updated(old(attached), e)
    {
      match e {
        case Attached(device) =>
          attached := attached[device.id := device];
          mapped := Arrived(device);
        case Detached(id) =>
          var udid := if id in attached then attached[id].udid else "";
          attached := attached - {id};
          mapped := Left(udid, id);
      }
    }
  }

  /** The stream a watcher yields from the listed devices and the events of its
      subscription. */
  method WatchDevices(listed: seq<Info>, events: seq<MuxEvent>) returns (out: seq<DeviceEvent>)
    ensures out == Stream(FromList(listed), events)
  {
    var mapper := new DeviceEventMapper.WithAttachedDevices(listed);
    out := [];
    for n := 0 to |events|
      invariant out == Stream(FromList(listed), events[..n])
      invariant mapper.attached == TableOver(FromList(listed), events[..n])
    {
      assert events[..n + 1][..n] == events[..n];
      var mapped := mapper.Map(events[n]);
      out := out + [mapped];
    }
    assert events[..|events|] == events;
  }

  /** Each event as seen with the table built from all before it. */
  function Stream(start: Table, events: seq<MuxEvent>): seq<DeviceEvent> {
    if events == [] then []
    else
      var front := events[..|events| - 1];
      Stream(start, front) + [Mapped(TableOver(start, front), events[|events| - 1])]
  }

  lemma {:induction false} StreamAt(start: Table, events: seq<MuxEvent>, n: nat)
    requires n < |events|
    ensures |Stream(start, events)| == |events|
    ensures Stream(start, events)[n] == Mapped(TableOver(start, events[..n]), events[n])
    decreases |events|
  {
    var front := events[..|events| - 1];
    if n < |front| {
      StreamAt(start, front, n);
      assert front[..n] == events[..n];
    } else if front != [] {
      StreamAt(start, front, 0);
    }
  }

  // --------------------------------------------------------------- history

  /** The devices attached after the first n events of a history. */
  function TrueTable(history: seq<MuxEvent>, n: nat): Table
    requires n <= |history|
  {
    TableOver(map[], history[..n])
  }

  /** A device attaches when it is away and detaches when it is there. */
  predicate WellFormed(history: seq<MuxEvent>) {
    forall n :: 0 <= n < |history| ==>
      (history[n].Detached? <==> history[n].Subject() in TrueTable(history, n))
  }

  /** An answer to the list request: the devices attached at that moment, in any order. */
  predicate Lists(listed: seq<Info>, table: Table) {
    && (forall i :: 0 <= i < |listed| ==> listed[i].id in table && table[listed[i].id] == listed[i])
    && forall id :: id in table ==> table[id] in listed
  }

  lemma {:induction false} FromListAgrees(listed: seq<Info>, table: Table)
    requires forall i :: 0 <= i < |listed| ==> listed[i].id in table && table[listed[i].id] == listed[i]
    ensures forall id :: id in FromList(listed) ==> id in table && FromList(listed)[id] == table[id]
    ensures forall i :: 0 <= i < |listed| ==> listed[i].id in FromList(listed)
    decreases |listed|
  {
    if listed != [] {
      FromListAgrees(listed[..|listed| - 1], table);
    }
  }

  lemma {:induction false} TableIds(start: Table, events: seq<MuxEvent>)
    requires forall id :: id in start ==> start[id].id == id
    ensures forall id :: id in TableOver(start, events) ==> TableOver(start, events)[id].id == id
    decreases |events|
  {
    if events != [] {
      TableIds(start, events[..|events| - 1]);
    }
  }

  lemma ListRestoresTable(listed: seq<Info>, history: seq<MuxEvent>, t: nat)
    requires t <= |history| && Lists(listed, TrueTable(history, t))
    ensures FromList(listed) == TrueTable(history, t)
  {
    var table := TrueTable(history, t);
    FromListAgrees(listed, table);
    TableIds(map[], history[..t]);
    forall id | id in table ensures id in FromList(listed) {
      assert table[id] in listed && table[id].id == id;
    }
  }

  function Find(table: Table, id: nat): Option<Info> {
    if id in table then Some(table[id]) else None
  }

  /** Some event about the device lies in the given stretch of the history. */
  predicate Mentioned(history: seq<MuxEvent>, from: nat, to: nat, id: nat)
    requires to <= |history|
  {
    exists k :: from <= k < to && history[k].Subject() == id
  }

  /** Tables that follow the same events agree on every device mentioned, and keep what
      they had on the others. */
  lemma {:induction false} TablesConverge(history: seq<MuxEvent>, start: Table, s: nat, n: nat, id: nat)
    requires s <= n <= |history|
    ensures var follower := TableOver(start, history[s..n]);
            if Mentioned(history, s, n, id) then Find(follower, id) == Find(TrueTable(history, n), id)
            else Find(follower, id) == Find(start, id)
                 && Find(TrueTable(history, n), id) == Find(TrueTable(history, s), id)
    decreases n
  {
    if s < n {
      TablesConverge(history, start, s, n - 1, id);
      assert history[s..n][..n - 1 - s] == history[s..n - 1];
      assert history[..n][..n - 1] == history[..n - 1];
      if Mentioned(history, s, n, id) && history[n - 1].Subject() != id {
        assert Mentioned(history, s, n - 1, id);
      }
    } else {
      assert history[s..n] == [];
    }
  }

  /** The UDID a watcher subscribed at s, with a list taken at t, reports for the event
      at n. */
  function ReportedUdid(history: seq<MuxEvent>, s: nat, t: nat, n: nat): string
    requires s <= n < |history| && t <= |history| && history[n].Detached?
  {
    Mapped(TableOver(TrueTable(history, t), history[s..n]), history[n]).udid
  }

  function TrueUdid(history: seq<MuxEvent>, n: nat): string
    requires n < |history| && history[n].Detached?
  {
    Mapped(TrueTable(history, n), history[n]).udid
  }

  /** An id is in the table exactly when the last event about it was an attach. */
  lemma {:induction false} PresentExactly(history: seq<MuxEvent>, n: nat, id: nat)
    requires n <= |history|
    ensures id in TrueTable(history, n) <==>
            exists k :: 0 <= k < n && history[k].Attached? && history[k].Subject() == id
                        && !Mentioned(history, k + 1, n, id)
    decreases n
  {
    if n > 0 {
      PresentExactly(history, n - 1, id);
      assert history[..n][..n - 1] == history[..n - 1];
      if id in TrueTable(history, n) {
        var k := PresentWasAttached(history, n, id);
      }
      forall k | 0 <= k < n && history[k].Attached? && history[k].Subject() == id && !Mentioned(history, k + 1, n, id)
        ensures id in TrueTable(history, n)
      {
        assert k < n - 1 ==> history[n - 1].Subject() != id && !Mentioned(history, k + 1, n - 1, id);
      }
    }
  }

  /** The true UDID is that of the device last attached under the id. */
  lemma TrueUdidIsLastAttached(history: seq<MuxEvent>, n: nat) returns (k: nat)
    requires WellFormed(history) && n < |history| && history[n].Detached?
    ensures k < n && history[k].Attached? && history[k].device.id == history[n].id
    ensures !Mentioned(history, k + 1, n, history[n].id) && TrueUdid(history, n) == history[k].device.udid
  {
    k := PresentWasAttached(history, n, history[n].id);
  }

  /** Each attach since the subscription is passed on with its own device, whatever the list
      said. */
  lemma ArrivalsCarryTheDevice(history: seq<MuxEvent>, s: nat, listed: seq<Info>, n: nat)
    requires s <= n < |history| && history[n].Attached?
    ensures |Stream(FromList(listed), history[s..])| == |history| - s
    ensures Stream(FromList(listed), history[s..])[n - s] == Arrived(history[n].device)
  {
    StreamAt(FromList(listed), history[s..], n - s);
  }

  /** The stream of a watcher carries exactly these reports, whatever order the list has. */
  lemma WatcherReports(history: seq<MuxEvent>, s: nat, t: nat, listed: seq<Info>, n: nat)
    requires s <= n < |history| && t <= |history| && history[n].Detached?
    requires Lists(listed, TrueTable(history, t))
    ensures var events := history[s..];
            && |Stream(FromList(listed), events)| == |events|
            && Stream(FromList(listed), events)[n - s] == Left(ReportedUdid(history, s, t, n), history[n].id)
  {
    StreamAt(FromList(listed), history[s..], n - s);
    ListRestoresTable(listed, history, t);
    assert history[s..][..n - s] == history[s..n];
  }

  /** The device was there at the subscription and left before the list was taken. */
  predicate LeftBeforeList(history: seq<MuxEvent>, s: nat, t: nat, n: nat)
    requires s <= n < |history|
  {
    n < t && !Mentioned(history, s, n, history[n].Subject())
  }

  /** Exactly what is reported: the truth, except for a device that left between the
      subscription and the list, for which it is whatever the list says of its id. */
  lemma ExactReport(history: seq<MuxEvent>, s: nat, t: nat, n: nat)
    requires WellFormed(history) && s <= t <= |history| && s <= n < |history| && history[n].Detached?
    ensures var id, listed := history[n].id, TrueTable(history, t);
            ReportedUdid(history, s, t, n) ==
            if !LeftBeforeList(history, s, t, n) then TrueUdid(history, n)
            else if id in listed then listed[id].udid else ""
  {
    var id := history[n].id;
    TablesConverge(history, TrueTable(history, t), s, n, id);
    if !Mentioned(history, s, n, id) && t <= n {
      TablesConverge(history, map[], s, t, id);
      assert !Mentioned(history, s, t, id);
    }
  }

  /** The report is the true UDID or empty exactly when no other device sits under the id
      of one that left before the list was taken. */
  lemma TrueOrEmpty(history: seq<MuxEvent>, s: nat, t: nat, n: nat)
    requires WellFormed(history) && s <= t <= |history| && s <= n < |history| && history[n].Detached?
    ensures var id, listed := history[n].id, TrueTable(history, t);
            (ReportedUdid(history, s, t, n) == TrueUdid(history, n) || ReportedUdid(history, s, t, n) == "")
            <==>
            !(LeftBeforeList(history, s, t, n) && id in listed
              && listed[id].udid != TrueUdid(history, n) && listed[id].udid != "")
  {
    ExactReport(history, s, t, n);
  }

  /** Ids are never handed out twice. */
  predicate IdsNotReused(history: seq<MuxEvent>) {
    forall i, j :: 0 <= i < j < |history| && history[i].Attached? && history[j].Attached? ==>
      history[i].device.id != history[j].device.id
  }

  lemma {:induction false} PresentWasAttached(history: seq<MuxEvent>, n: nat, id: nat) returns (k: nat)
    requires n <= |history| && id in TrueTable(history, n)
    ensures k < n && history[k].Attached? && history[k].device.id == id
    ensures TrueTable(history, n)[id] == history[k].device && !Mentioned(history, k + 1, n, id)
    decreases n
  {
    assert history[..n][..n - 1] == history[..n - 1];
    if history[n - 1].Attached? && history[n - 1].device.id == id {
      k := n - 1;
    } else {
      k := PresentWasAttached(history, n - 1, id);
    }
  }

  /** With ids never reused, each detach carries the true UDID or an empty one, and a
      UDID is lost exactly for a device that was attached before the subscription and
      left before the list was taken. */
  lemma DetachIsTrueOrLost(history: seq<MuxEvent>, s: nat, t: nat, n: nat)
    requires WellFormed(history) && IdsNotReused(history)
    requires s <= t <= |history| && s <= n < |history| && history[n].Detached?
    ensures ReportedUdid(history, s, t, n) == if LeftBeforeList(history, s, t, n) then "" else TrueUdid(history, n)
    ensures LeftBeforeList(history, s, t, n) ==> n < t && history[n].id in TrueTable(history, s)
  {
    var id := history[n].id;
    ExactReport(history, s, t, n);
    if LeftBeforeList(history, s, t, n) {
      TablesConverge(history, map[], s, n, id);
      var first := PresentWasAttached(history, n, id);
      if id in TrueTable(history, t) {
        var second := PresentWasAttached(history, t, id);
      }
    }
  }

  /** With an id reused, a detach can carry the UDID of another device: one that took the
      id between the subscription and the list. */
  lemma ReusedIdMisreports(a: Info, b: Info)
    requires a.id == b.id && a.udid != b.udid
    ensures var history := [Attached(a), Detached(a.id), Attached(b)];
            WellFormed(history) && TrueUdid(history, 1) == a.udid && ReportedUdid(history, 1, 3, 1) == b.udid
  {
    var history := [Attached(a), Detached(a.id), Attached(b)];
    TableFollows(map[], history, 0);
    TableFollows(map[], history, 1);
    TableFollows(map[], history, 2);
    assert history[1..1] == [];
    assert TrueTable(history, 1) == map[a.id := a];
  }
}
