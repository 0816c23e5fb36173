/** UE movement tracking over events already extracted from the AMF log:
    the grouping of events into gNB connections, the movement statistics
    and the truncated event display. A field the log does not mention is
    `None`, as `event.get` returns `None` for it. */
module UeMovement {
  import opened Results
  import opened FirstAppearance

  /** One movement event of the UE. */
  datatype MovementEvent = MovementEvent(
    timestamp: string,
    eventType: string,
    imsi: string,
    gnbId: Option<string>,
    gnbName: Option<string>,
    cellId: Option<string>,
    tac: Option<string>,
    ranUeNgapId: Option<string>)

  /** One gNB the UE was seen on: the identifiers of its first event, the
      first and last timestamps, how many events and which event types. */
  datatype Connection = Connection(
    gnbId: Option<string>,
    gnbName: Option<string>,
    cellId: Option<string>,
    tac: Option<string>,
    firstSeen: string,
    lastSeen: string,
    eventCount: nat,
    eventTypes: seq<string>)

  /** Python truthiness of an optional string: present and non-empty. */
  predicate Truthy(v: Option<string>)
  {
    v.Some? && v.value != ""
  }

  /** `a or b or c`: the first truthy operand, else the last one. */
  function Or3(a: Option<string>, b: Option<string>, c: Option<string>): (r: Option<string>)
    ensures Truthy(r) <==> Truthy(a) || Truthy(b) || Truthy(c)
    ensures Truthy(a) ==> r == a
    ensures !Truthy(a) && Truthy(b) ==> r == b
    ensures !Truthy(a) && !Truthy(b) ==> r == c
  {
    if Truthy(a) then a else if Truthy(b) then b else c
  }

  /** The key an event is grouped under: gnb_id, else gnb_name, else
      cell_id, whichever is first truthy; no key when none is, or when it
      is 'N/A'. */
  function GroupKey(e: MovementEvent): (r: Option<string>)
    ensures r.Some? <==> Truthy(Or3(e.gnbId, e.gnbName, e.cellId)) && Or3(e.gnbId, e.gnbName, e.cellId).value != "N/A"
    ensures r.Some? ==> r.value != "" && r.value != "N/A"
    ensures r.Some? ==> r == e.gnbId || r == e.gnbName || r == e.cellId
  {
    var key := Or3(e.gnbId, e.gnbName, e.cellId);
    if Truthy(key) && key.value != "N/A" then key else None
  }

  /** The keys of the keyed events, in event order. */
  function KeysOf(events: seq<MovementEvent>): (r: seq<string>)
    ensures |r| <= |events|
  {
    if events == [] then []
    else
      var last := events[|events| - 1];
      KeysOf(events[..|events| - 1]) + (if GroupKey(last).Some? then [GroupKey(last).value] else [])
  }

  /** The events grouped under key k, in event order. */
  function Keyed(events: seq<MovementEvent>, k: string): (r: seq<MovementEvent>)
    ensures forall e :: e in r ==> e in events && GroupKey(e) == Some(k)
  {
    if events == [] then []
    else
      var last := events[|events| - 1];
      Keyed(events[..|events| - 1], k) + (if GroupKey(last) == Some(k) then [last] else [])
  }

  /** The event types of the events, in event order. */
  function TypesOf(events: seq<MovementEvent>): (r: seq<string>)
    ensures |r| == |events| && forall i :: 0 <= i < |events| ==> r[i] == events[i].eventType
  {
    seq(|events|, i requires 0 <= i < |events| => events[i].eventType)
  }

  /** The connection a non-empty group of events describes: identifiers
      from its first event, its first and last timestamps, its size and
      its event types without repeats, in order of first appearance. */
  function Summary(es: seq<MovementEvent>): Connection
    requires es != []
  {
    Connection(es[0].gnbId, es[0].gnbName, es[0].cellId, es[0].tac,
               es[0].timestamp, es[|es| - 1].timestamp, |es|, Distinct(TypesOf(es)))
  }

  lemma {:induction false} KeyedCount(events: seq<MovementEvent>, k: string)
    ensures |Keyed(events, k)| == Count(KeysOf(events), k)
  {
    if events != [] {
      var p := events[..|events| - 1];
      KeyedCount(p, k);
      var ks := KeysOf(events);
      assert ks[..|KeysOf(p)|] == KeysOf(p);
      if GroupKey(events[|events| - 1]).Some? {
        assert ks[..|ks| - 1] == KeysOf(p);
      } else {
        assert ks == KeysOf(p);
      }
    }
  }

  /** The connections `get_unique_gnb_connections` returns: one per key,
      in the order the keys first appear. */
  function UniqueConnections(events: seq<MovementEvent>): (r: seq<Connection>)
    ensures |r| == |Distinct(KeysOf(events))|
  {
    var ks := Distinct(KeysOf(events));
    DistinctElements(KeysOf(events));
    assert forall j :: 0 <= j < |ks| ==> Keyed(events, ks[j]) != [] by {
      forall j | 0 <= j < |ks|
        ensures Keyed(events, ks[j]) != []
      {
        KeyedCount(events, ks[j]);
      }
    }
    seq(|ks|, j requires 0 <= j < |ks| => Summary(Keyed(events, ks[j])))
  }

  /** Each entry of the dictionary summarises the events under its key. */
  ghost predicate EntriesSummarise(events: seq<MovementEvent>, table: map<string, Connection>)
  {
    forall k :: k in table ==> Keyed(events, k) != [] && table[k] == Summary(Keyed(events, k))
  }

  /** What the dictionary holds after some events: the keys in insertion
      order and, for each, the summary of its events so far. */
  ghost predicate Tracks(events: seq<MovementEvent>, order: seq<string>, table: map<string, Connection>)
  {
    && order == Distinct(KeysOf(events))
    && (forall k :: k in table <==> k in order)
    && EntriesSummarise(events, table)
  }

  /** The first event under a key starts its entry. */
  function Started(e: MovementEvent): Connection
  {
    Connection(e.gnbId, e.gnbName, e.cellId, e.tac, e.timestamp, e.timestamp, 1, [e.eventType])
  }

  /** A later event under the key updates the last timestamp and the
      count, and adds its type if it is new. */
  function Updated(c: Connection, e: MovementEvent): Connection
  {
    c.(lastSeen := e.timestamp,
       eventCount := c.eventCount + 1,
       eventTypes := if e.eventType in c.eventTypes then c.eventTypes else c.eventTypes + [e.eventType])
  }

  lemma SummaryStep(es: seq<MovementEvent>, e: MovementEvent)
    ensures es == [] ==> Summary(es + [e]) == Started(e)
    ensures es != [] ==> Summary(es + [e]) == Updated(Summary(es), e)
  {
    var t := TypesOf(es + [e]);
    assert t == TypesOf(es) + [e.eventType];
    DistinctSnoc(TypesOf(es), e.eventType);
    if es == [] {
      assert Distinct(t) == [e.eventType];
    }
  }

  lemma KeysOfSnoc(p: seq<MovementEvent>, e: MovementEvent)
    ensures KeysOf(p + [e]) == KeysOf(p) + (if GroupKey(e).Some? then [GroupKey(e).value] else [])
  {
    assert (p + [e])[..|p|] == p;
  }

  lemma KeyedSnoc(p: seq<MovementEvent>, e: MovementEvent, k: string)
    ensures Keyed(p + [e], k) == Keyed(p, k) + (if GroupKey(e) == Some(k) then [e] else [])
  {
    assert (p + [e])[..|p|] == p;
  }

  /** An event under no key of the table leaves every entry right. */
  lemma EntriesKept(p: seq<MovementEvent>, e: MovementEvent, table: map<string, Connection>)
    requires EntriesSummarise(p, table)
    requires forall k :: k in table ==> GroupKey(e) != Some(k)
    ensures EntriesSummarise(p + [e], table)
  {
    forall k | k in table
      ensures Keyed(p + [e], k) == Keyed(p, k)
    {
      KeyedSnoc(p, e, k);
    }
  }

  /** Setting the entry of the event's key to the summary of its events
      including this one leaves every entry right. */
  lemma EntrySet(p: seq<MovementEvent>, e: MovementEvent, table: map<string, Connection>, k: string, c: Connection)
    requires EntriesSummarise(p, table)
    requires GroupKey(e) == Some(k) && c == Summary(Keyed(p, k) + [e])
    ensures EntriesSummarise(p + [e], table[k := c])
  {
    forall k' | k' in table[k := c]
      ensures Keyed(p + [e], k') != [] && table[k := c][k'] == Summary(Keyed(p + [e], k'))
    {
      KeyedSnoc(p, e, k');
      if k' != k {
        assert GroupKey(e) != Some(k');
        assert Keyed(p + [e], k') == Keyed(p, k');
      }
    }
  }

  /** An event with no key leaves the dictionary as it is. */
  lemma TracksSkip(p: seq<MovementEvent>, e: MovementEvent, order: seq<string>, table: map<string, Connection>)
    requires Tracks(p, order, table) && GroupKey(e).None?
    ensures Tracks(p + [e], order, table)
  {
    KeysOfSnoc(p, e);
    assert KeysOf(p + [e]) == KeysOf(p);
    EntriesKept(p, e, table);
  }

  /** An event under a new key adds an entry at the end. */
  lemma TracksStart(p: seq<MovementEvent>, e: MovementEvent, order: seq<string>, table: map<string, Connection>)
    requires Tracks(p, order, table) && GroupKey(e).Some? && GroupKey(e).value !in table
    ensures Tracks(p + [e], order + [GroupKey(e).value], table[GroupKey(e).value := Started(e)])
  {
    var k := GroupKey(e).value;
    KeysOfSnoc(p, e);
    DistinctElements(KeysOf(p));
    DistinctSnoc(KeysOf(p), k);
    assert Keyed(p, k) == [] by {
      KeyedCount(p, k);
    }
    SummaryStep([], e);
    EntrySet(p, e, table, k, Started(e));
  }

  /** An event under a known key updates its entry in place. */
  lemma TracksUpdate(p: seq<MovementEvent>, e: MovementEvent, order: seq<string>, table: map<string, Connection>)
    requires Tracks(p, order, table) && GroupKey(e).Some? && GroupKey(e).value in table
    ensures Tracks(p + [e], order, table[GroupKey(e).value := Updated(table[GroupKey(e).value], e)])
  {
    var k := GroupKey(e).value;
    KeysOfSnoc(p, e);
    DistinctSnoc(KeysOf(p), k);
    SummaryStep(Keyed(p, k), e);
    EntrySet(p, e, table, k, Updated(table[k], e));
  }

  /** `get_unique_gnb_connections`: a dictionary from key to entry filled
      in one pass over the events, then its values in insertion order. */
  method GetUniqueGnbConnections(events: seq<MovementEvent>) returns (r: seq<Connection>)
    ensures r == UniqueConnections(events)
  {
    var order: seq<string> := [];
    var table: map<string, Connection> := map[];
    for i := 0 to |events|
      invariant Tracks(events[..i], order, table)
    {
      var e := events[i];
      assert events[..i + 1] == events[..i] + [e];
      var key := GroupKey(e);
      if key.Some? {
        var k := key.value;
        if k !in table {
          TracksStart(events[..i], e, order, table);
          table := table[k := Started(e)];
          order := order + [k];
        } else {
          TracksUpdate(events[..i], e, order, table);
          table := table[k := Updated(table[k], e)];
        }
      } else {
        TracksSkip(events[..i], e, order, table);
      }
    }
    assert events[..|events|] == events;
    r := seq(|order|, j requires 0 <= j < |order| => table[order[j]]);
  }

  /** The connections come one per key, each key once, in the order in
      which the keys first appear among the events. */
  lemma ConnectionKeys(events: seq<MovementEvent>)
    ensures |UniqueConnections(events)| <= |events|
    ensures NoDuplicates(Distinct(KeysOf(events)))
    ensures forall k :: k in Distinct(KeysOf(events)) <==> exists i :: 0 <= i < |events| && GroupKey(events[i]) == Some(k)
    ensures forall k :: k in Distinct(KeysOf(events)) ==> k in KeysOf(events)
    ensures forall i, j :: 0 <= i < j < |Distinct(KeysOf(events))| ==>
      FirstIndex(KeysOf(events), Distinct(KeysOf(events))[i]) < FirstIndex(KeysOf(events), Distinct(KeysOf(events))[j])
  {
    DistinctElements(KeysOf(events));
    DistinctKeepsFirstAppearanceOrder(KeysOf(events));
    KeysOfMembers(events);
  }

  /** Each connection counts the events under its key and lists no event
      type twice, and the counts add up to the number of keyed events. */
  lemma ConnectionCounts(events: seq<MovementEvent>)
    ensures forall j :: 0 <= j < |UniqueConnections(events)| ==>
      UniqueConnections(events)[j].eventCount == Count(KeysOf(events), Distinct(KeysOf(events))[j])
    ensures forall j :: 0 <= j < |UniqueConnections(events)| ==>
      NoDuplicates(UniqueConnections(events)[j].eventTypes)
    ensures CountAll(KeysOf(events), Distinct(KeysOf(events))) == |KeysOf(events)|
  {
    var ks := KeysOf(events);
    var cs := UniqueConnections(events);
    DistinctCountsAddUp(ks);
    DistinctElements(ks);
    forall j | 0 <= j < |cs|
      ensures cs[j].eventCount == Count(ks, Distinct(ks)[j])
      ensures NoDuplicates(cs[j].eventTypes)
    {
      var k := Distinct(ks)[j];
      var es := Keyed(events, k);
      KeyedCount(events, k);
      assert k in ks && es != [];
      assert cs[j] == Summary(es);
      DistinctElements(TypesOf(es));
    }
  }

  /** A key is listed exactly when some event is grouped under it. */
  lemma {:induction false} KeysOfMembers(events: seq<MovementEvent>)
    ensures forall k :: k in KeysOf(events) <==> exists i :: 0 <= i < |events| && GroupKey(events[i]) == Some(k)
  {
    if events != [] {
      var p := events[..|events| - 1];
      KeysOfMembers(p);
      forall k | k in KeysOf(events)
        ensures exists i :: 0 <= i < |events| && GroupKey(events[i]) == Some(k)
      {
        if k in KeysOf(p) {
          var i :| 0 <= i < |p| && GroupKey(p[i]) == Some(k);
          assert events[i] == p[i];
        } else {
          assert GroupKey(events[|events| - 1]) == Some(k);
        }
      }
      forall k, i | 0 <= i < |events| && GroupKey(events[i]) == Some(k)
        ensures k in KeysOf(events)
      {
        if i < |p| {
          assert p[i] == events[i];
        }
      }
    }
  }

  // ---------------------------------------------------------------------
  // Movement statistics.
  // ---------------------------------------------------------------------

  const NO_EVENTS_MESSAGE: string := "No movement events found in logs"

  datatype TrackError = UnableToFetchLogs

  /** The movement report; the keys the Python dictionary leaves out in
      the no-event case are `None` or empty here. */
  datatype MovementReport = MovementReport(
    imsi: string,
    message: Option<string>,
    totalEvents: nat,
    uniqueGnbs: nat,
    firstEvent: Option<string>,
    lastEvent: Option<string>,
    eventTypes: set<string>,
    gnbConnections: seq<Connection>,
    movementEvents: seq<MovementEvent>)

  /** `track_ue_movement` on the fetched log and the events parsed from
      it: no log is an error; no events give an empty report; otherwise
      the counts, the first and last timestamps, the set of event types
      and the connections. */
  method TrackUeMovement(imsi: string, logs: string, events: seq<MovementEvent>)
    returns (r: Result<MovementReport, TrackError>)
    ensures r.Err? <==> logs == ""
    ensures r.Ok? && events == [] ==>
      r.value == MovementReport(imsi, Some(NO_EVENTS_MESSAGE), 0, 0, None, None, {}, [], [])
    ensures r.Ok? && events != [] ==>
      && r.value.imsi == imsi && r.value.message == None
      && r.value.totalEvents == |events| && r.value.movementEvents == events
      && r.value.gnbConnections == UniqueConnections(events)
      && r.value.uniqueGnbs == |r.value.gnbConnections| <= r.value.totalEvents
      && r.value.firstEvent == Some(events[0].timestamp)
      && r.value.lastEvent == Some(events[|events| - 1].timestamp)
      && (forall t :: t in r.value.eventTypes <==> exists i :: 0 <= i < |events| && events[i].eventType == t)
  {
    if logs == "" {
      return Err(UnableToFetchLogs);
    }
    if events == [] {
      return Ok(MovementReport(imsi, Some(NO_EVENTS_MESSAGE), 0, 0, None, None, {}, [], []));
    }
    var connections := GetUniqueGnbConnections(events);
    ConnectionKeys(events);
    var types := set e | e in events :: e.eventType;
    r := Ok(MovementReport(imsi, None, |events|, |connections|,
                           Some(events[0].timestamp), Some(events[|events| - 1].timestamp),
                           types, connections, events));
  }

  // ---------------------------------------------------------------------
  // Display.
  // ---------------------------------------------------------------------

  const DISPLAY_LIMIT: nat := 15
  const DISPLAY_HEAD: nat := 10
  const DISPLAY_TAIL: nat := 5

  /** The events `display_movement_history` lists: all of them, or the
      first ten and the last five when there are more than fifteen. Only
      listed events are shown, in their order, and the first and the last
      event always are. */
  function DisplayedEvents<T>(events: seq<T>): (r: seq<T>)
    ensures |r| == if |events| > DISPLAY_LIMIT then DISPLAY_LIMIT else |events|
    ensures forall i :: 0 <= i < |r| ==>
      r[i] == events[if i < DISPLAY_HEAD || |events| <= DISPLAY_LIMIT then i else |events| - DISPLAY_LIMIT + i]
    ensures events != [] ==> r[0] == events[0] && r[|r| - 1] == events[|events| - 1]
  {
    if |events| > DISPLAY_LIMIT then events[..DISPLAY_HEAD] + events[|events| - DISPLAY_TAIL..]
    else events
  }
}
