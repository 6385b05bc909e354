/**
 * `tweet_geocoder_new.py` and `tweet_geocoder_1.py`: every `final_report` event not yet in
 * `geocoded_tweets` is looked up as "<location>, Vellore", and an event the geocoder finds
 * is copied into `geocoded_tweets` with its coordinates and the status 'reported'. An event
 * the geocoder does not find is written nowhere and is selected again next run.
 */
module EventGeocoder {
  import opened Wrappers
  import opened Tables
  import opened Llm
  import opened Geocoder
  import opened Store

  /** `tweet_geocoder_new.py`: the events with no `geocoded_tweets` row, whatever their location. */
  function Ungeocoded(t: Serial<Event>, g: map<int, GeocodedEvent>): (r: set<int>)
    ensures forall id :: id in r <==> id in t.rows && id !in g
  {
    set id | id in t.rows && id !in g
  }

  /** `tweet_geocoder_1.py`: the same, without events whose location is null or 'Not specified'. */
  function UngeocodedNamed(t: Serial<Event>, g: map<int, GeocodedEvent>): (r: set<int>)
    ensures forall id :: id in r <==>
      id in t.rows && id !in g && t.rows[id].location.Some? && t.rows[id].location != Some(NotSpecified)
    ensures r <= Ungeocoded(t, g)
  {
    set id | id in t.rows && id !in g && t.rows[id].location.Some? && t.rows[id].location != Some(NotSpecified)
  }

  /** The geocoder's answer for an event, asked for its location in Vellore. */
  function Lookup(keyPresent: bool, service: Service, e: Event): Option<Point> {
    GetCoordinates(keyPresent, service(Query(e.location, CitySuffix)))
  }

  /** The `geocoded_tweets` row for a found event; `status` takes its default 'reported'. */
  function GeocodedRow(e: Event, p: Point): GeocodedEvent {
    GeocodedEvent(Some(p.lat), Some(p.lon), e.summary, e.location, e.count, Reported)
  }

  /** The test the loop applies to an event: the geocoder found it. */
  predicate Found(m: map<int, Event>, keyPresent: bool, service: Service, id: int) {
    id in m && Lookup(keyPresent, service, m[id]).Some?
  }

  /** The `geocoded_tweets` inserts a run over `ids` attempts, in order. */
  function GeoRows(m: map<int, Event>, ids: seq<int>, keyPresent: bool, service: Service): seq<(int, GeocodedEvent)>
    decreases |ids|
  {
    if ids == [] then []
    else
      var id := ids[|ids| - 1];
      GeoRows(m, ids[..|ids| - 1], keyPresent, service)
        + (if Found(m, keyPresent, service, id)
           then [(id, GeocodedRow(m[id], Lookup(keyPresent, service, m[id]).value))] else [])
  }

  lemma GeoRowsSnoc(m: map<int, Event>, ids: seq<int>, id: int, keyPresent: bool, service: Service)
    ensures GeoRows(m, ids + [id], keyPresent, service) == GeoRows(m, ids, keyPresent, service)
      + (if Found(m, keyPresent, service, id)
         then [(id, GeocodedRow(m[id], Lookup(keyPresent, service, m[id]).value))] else [])
  {
    assert (ids + [id])[..|ids|] == ids;
  }

  /**
   * Every attempted insert is for a listed event the geocoder found, and carries that
   * event's summary, location and count with the coordinates of the first result.
   */
  lemma {:induction false} GeoRowsSound(m: map<int, Event>, ids: seq<int>, keyPresent: bool, service: Service)
    ensures forall e :: e in GeoRows(m, ids, keyPresent, service) ==>
      e.0 in ids && Found(m, keyPresent, service, e.0)
      && e.1 == GeocodedRow(m[e.0], Lookup(keyPresent, service, m[e.0]).value)
    decreases |ids|
  {
    if ids != [] {
      var init, id := ids[..|ids| - 1], ids[|ids| - 1];
      assert ids == init + [id];
      GeoRowsSound(m, init, keyPresent, service);
      GeoRowsSnoc(m, init, id, keyPresent, service);
    }
  }

  /** The listed events the geocoder found. */
  function FoundIds(m: map<int, Event>, ids: seq<int>, keyPresent: bool, service: Service): set<int> {
    set id | id in ids && Found(m, keyPresent, service, id)
  }

  lemma FoundIdsSnoc(m: map<int, Event>, ids: seq<int>, id: int, keyPresent: bool, service: Service)
    ensures FoundIds(m, ids + [id], keyPresent, service) ==
      FoundIds(m, ids, keyPresent, service) + (if Found(m, keyPresent, service, id) then {id} else {})
  {
    assert forall x :: x in ids + [id] <==> x in ids || x == id;
  }

  /** An insert is attempted for exactly the listed events the geocoder found. */
  lemma {:induction false} GeoRowsKeys(m: map<int, Event>, ids: seq<int>, keyPresent: bool, service: Service)
    ensures KeysOf(GeoRows(m, ids, keyPresent, service)) == FoundIds(m, ids, keyPresent, service)
    decreases |ids|
  {
    if ids != [] {
      var init, id := ids[..|ids| - 1], ids[|ids| - 1];
      assert ids == init + [id];
      GeoRowsKeys(m, init, keyPresent, service);
      GeoRowsSnoc(m, init, id, keyPresent, service);
      FoundIdsSnoc(m, init, id, keyPresent, service);
      var before := GeoRows(m, init, keyPresent, service);
      if Found(m, keyPresent, service, id) {
        KeysOfSnoc(before, (id, GeocodedRow(m[id], Lookup(keyPresent, service, m[id]).value)));
      } else {
        assert before + [] == before;
      }
    }
  }

  lemma GeoStep(snapshot: map<int, Event>, g: map<int, GeocodedEvent>, order: seq<int>, i: nat,
                keyPresent: bool, service: Service)
    requires i < |order| && order[i] in snapshot
    ensures PutAll(g, GeoRows(snapshot, order[..i + 1], keyPresent, service)) ==
      if Found(snapshot, keyPresent, service, order[i])
      then Put(PutAll(g, GeoRows(snapshot, order[..i], keyPresent, service)), order[i],
               GeocodedRow(snapshot[order[i]], Lookup(keyPresent, service, snapshot[order[i]]).value))
      else PutAll(g, GeoRows(snapshot, order[..i], keyPresent, service))
  {
    assert order[..i + 1] == order[..i] + [order[i]];
    GeoRowsSnoc(snapshot, order[..i], order[i], keyPresent, service);
    var before := GeoRows(snapshot, order[..i], keyPresent, service);
    if Found(snapshot, keyPresent, service, order[i]) {
      PutAllSnoc(g, before, (order[i], GeocodedRow(snapshot[order[i]], Lookup(keyPresent, service, snapshot[order[i]]).value)));
    } else {
      assert before + [] == before;
    }
  }

  /** The loop body for one event: build the query, and insert the event when it was found. */
  method GeocodeOne(db: Db, snapshot: map<int, Event>, order: seq<int>, i: nat, keyPresent: bool, service: Service,
                    ghost g0: map<int, GeocodedEvent>)
    requires i < |order| && order[i] in snapshot
    requires db.geocoded == PutAll(g0, GeoRows(snapshot, order[..i], keyPresent, service))
    modifies db`geocoded
    ensures db.geocoded == PutAll(g0, GeoRows(snapshot, order[..i + 1], keyPresent, service))
  {
    var id := order[i];
    GeoStep(snapshot, g0, order, i, keyPresent, service);
    var report := snapshot[id];
    var location := GetCoordinates(keyPresent, service(Query(report.location, CitySuffix)));
    if location.Some? {
      db.InsertGeocodedReport(id, GeocodedRow(report, location.value));
    }
  }

  /** The loop both scripts share, over events of `final_report`. */
  method GeocodeEvents(db: Db, order: seq<int>, keyPresent: bool, service: Service)
    requires forall i :: 0 <= i < |order| ==> order[i] in db.events.rows
    modifies db`geocoded
    ensures db.geocoded == PutAll(old(db.geocoded), GeoRows(old(db.events).rows, order, keyPresent, service))
  {
    var snapshot := db.events.rows;
    var i := 0;
    while i < |order|
      invariant 0 <= i <= |order|
      invariant db.geocoded == PutAll(old(db.geocoded), GeoRows(snapshot, order[..i], keyPresent, service))
    {
      GeocodeOne(db, snapshot, order, i, keyPresent, service, old(db.geocoded));
      i := i + 1;
    }
    assert order[..i] == order;
  }

  lemma {:induction false} ListedAreEvents(t: Serial<Event>, order: seq<int>, s: set<int>)
    requires Enumerates(order, s) && s <= t.rows.Keys
    ensures forall i :: 0 <= i < |order| ==> order[i] in t.rows
  {
    assert forall i :: 0 <= i < |order| ==> order[i] in Elems(order);
  }

  /** The main block of `tweet_geocoder_new.py`: no key check of its own. */
  method GeocodeReports(db: Db, order: seq<int>, keyPresent: bool, service: Service)
    requires Enumerates(order, Ungeocoded(db.events, db.geocoded))
    modifies db`geocoded
    ensures db.geocoded == PutAll(old(db.geocoded), GeoRows(old(db.events).rows, order, keyPresent, service))
  {
    ListedAreEvents(db.events, order, Ungeocoded(db.events, db.geocoded));
    GeocodeEvents(db, order, keyPresent, service);
  }

  /** The main block of `tweet_geocoder_1.py`: nothing happens unless the OpenCage key is set. */
  method GeocodeNamedReports(db: Db, order: seq<int>, keyPresent: bool, service: Service)
    requires Enumerates(order, UngeocodedNamed(db.events, db.geocoded))
    modifies db`geocoded
    ensures !keyPresent ==> db.geocoded == old(db.geocoded)
    ensures keyPresent ==> db.geocoded == PutAll(old(db.geocoded), GeoRows(old(db.events).rows, order, true, service))
  {
    if !keyPresent {
      return;
    }
    ListedAreEvents(db.events, order, UngeocodedNamed(db.events, db.geocoded));
    GeocodeEvents(db, order, true, service);
  }

  /**
   * A listed event not yet geocoded ends in `geocoded_tweets` exactly when the geocoder
   * found it, and then with its own summary, location, count, the first result's
   * coordinates and the status 'reported'.
   */
  lemma GeocodedIff(m: map<int, Event>, g: map<int, GeocodedEvent>, order: seq<int>,
                    keyPresent: bool, service: Service, id: int)
    requires id in order && id in m && id !in g
    ensures id in PutAll(g, GeoRows(m, order, keyPresent, service)) <==> Lookup(keyPresent, service, m[id]).Some?
    ensures id in PutAll(g, GeoRows(m, order, keyPresent, service)) ==>
      PutAll(g, GeoRows(m, order, keyPresent, service))[id] == GeocodedRow(m[id], Lookup(keyPresent, service, m[id]).value)
  {
    var rows := GeoRows(m, order, keyPresent, service);
    PutAllKeys(g, rows);
    GeoRowsKeys(m, order, keyPresent, service);
    GeoRowsSound(m, order, keyPresent, service);
    if id in PutAll(g, rows) {
      PutAllFrom(g, rows, id);
    }
  }

  /** After a run of `tweet_geocoder_new.py`, the events selected again are exactly those not found. */
  lemma OnlyFailuresReselected(t: Serial<Event>, g: map<int, GeocodedEvent>, order: seq<int>,
                               keyPresent: bool, service: Service)
    requires Enumerates(order, Ungeocoded(t, g))
    ensures Ungeocoded(t, PutAll(g, GeoRows(t.rows, order, keyPresent, service)))
      == set id | id in order && Lookup(keyPresent, service, t.rows[id]).None?
  {
    PutAllKeys(g, GeoRows(t.rows, order, keyPresent, service));
    GeoRowsKeys(t.rows, order, keyPresent, service);
    assert forall id :: id in order ==> id in Elems(order);
  }

  /** After a run of `tweet_geocoder_1.py`, the events selected again are exactly those not found. */
  lemma OnlyFailuresReselectedNamed(t: Serial<Event>, g: map<int, GeocodedEvent>, order: seq<int>, service: Service)
    requires Enumerates(order, UngeocodedNamed(t, g))
    ensures UngeocodedNamed(t, PutAll(g, GeoRows(t.rows, order, true, service)))
      == set id | id in order && Lookup(true, service, t.rows[id]).None?
  {
    PutAllKeys(g, GeoRows(t.rows, order, true, service));
    GeoRowsKeys(t.rows, order, true, service);
    assert forall id :: id in order ==> id in Elems(order);
  }
}
