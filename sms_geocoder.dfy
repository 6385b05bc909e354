/**
 * `sms_geocoder.py` and `sms_geocoder_2.py`: every processed SMS report with a usable
 * location and no `geocoded_sms_data` row is looked up, and a report the geocoder finds is
 * copied into `geocoded_sms_data` with its coordinates. The two scripts differ in the key
 * they write and test (`original_sms_id` against the report's own `id`) and in the query
 * (the location in Vellore, India, against the language model's rewrite of the location).
 */
module SmsGeocoder {
  import opened Wrappers
  import opened Text
  import opened Tables
  import opened Llm
  import opened Geocoder
  import opened Store

  /** `sms_geocoder.py` keys `geocoded_sms_data` by `original_sms_id`; `sms_geocoder_2.py` by the report's `id`. */
  datatype Scheme = BySmsId | ByRowId

  /** The `source_sms_id` a script stores for, and tests against, the processed report `id`. */
  function KeyOf(scheme: Scheme, id: int, r: ProcessedSms): int {
    match scheme
    case BySmsId => r.smsId
    case ByRowId => id
  }

  /** No two processed reports share a key under `scheme`. */
  ghost predicate KeysUnique(scheme: Scheme, m: map<int, ProcessedSms>) {
    forall i, j :: i in m && j in m && KeyOf(scheme, i, m[i]) == KeyOf(scheme, j, m[j]) ==> i == j
  }

  /** The UNIQUE `original_sms_id` makes the first scheme's keys unique; row ids are unique anyway. */
  lemma SchemeKeysUnique(scheme: Scheme, t: Serial<ProcessedSms>)
    requires UniqueBy(t, SmsOf)
    ensures KeysUnique(scheme, t.rows)
  {
    assert forall i :: i in t.rows ==> SmsOf(t.rows[i]) == t.rows[i].smsId;
  }

  predicate Usable(r: ProcessedSms) {
    r.location.Some? && r.location != Some(NotSpecified)
  }

  /** The left anti-join: reports with a usable location whose key has no `geocoded_sms_data` row. */
  function Ungeocoded(scheme: Scheme, t: Serial<ProcessedSms>, g: map<int, GeocodedSms>): (r: set<int>)
    ensures forall id :: id in r <==> id in t.rows && Usable(t.rows[id]) && KeyOf(scheme, id, t.rows[id]) !in g
  {
    set id | id in t.rows && Usable(t.rows[id]) && KeyOf(scheme, id, t.rows[id]) !in g
  }

  /**
   * The geocoder's answer for a report: `sms_geocoder.py` asks for "<location>, Vellore, India";
   * `sms_geocoder_2.py` asks for the model's cleaned location, or the location itself when the
   * model call raised.
   */
  function Locate(scheme: Scheme, service: Service, cleaner: Cleaner, r: ProcessedSms): Option<Point> {
    match scheme
    case BySmsId => GetCoordinates(true, service(Query(r.location, CountrySuffix)))
    case ByRowId => GetCoordinates(true, service(CleanLocation(true, cleaner(Render(r.location)), Render(r.location))))
  }

  /** The `geocoded_sms_data` row for a found report. */
  function GeoRow(r: ProcessedSms, p: Point): GeocodedSms {
    GeocodedSms(Some(p.lat), Some(p.lon), r.location, r.issue, r.time, r.body)
  }

  predicate Found(m: map<int, ProcessedSms>, scheme: Scheme, service: Service, cleaner: Cleaner, id: int) {
    id in m && Locate(scheme, service, cleaner, m[id]).Some?
  }

  /** The `geocoded_sms_data` inserts a run over `ids` attempts, in order. */
  function GeoRows(m: map<int, ProcessedSms>, ids: seq<int>, scheme: Scheme, service: Service, cleaner: Cleaner)
    : seq<(int, GeocodedSms)>
    decreases |ids|
  {
    if ids == [] then []
    else
      var id := ids[|ids| - 1];
      GeoRows(m, ids[..|ids| - 1], scheme, service, cleaner)
        + (if Found(m, scheme, service, cleaner, id)
           then [(KeyOf(scheme, id, m[id]), GeoRow(m[id], Locate(scheme, service, cleaner, m[id]).value))] else [])
  }

  lemma GeoRowsSnoc(m: map<int, ProcessedSms>, ids: seq<int>, id: int, scheme: Scheme, service: Service, cleaner: Cleaner)
    ensures GeoRows(m, ids + [id], scheme, service, cleaner) == GeoRows(m, ids, scheme, service, cleaner)
      + (if Found(m, scheme, service, cleaner, id)
         then [(KeyOf(scheme, id, m[id]), GeoRow(m[id], Locate(scheme, service, cleaner, m[id]).value))] else [])
  {
    assert (ids + [id])[..|ids|] == ids;
  }

  /**
   * Every attempted insert comes from a listed report the geocoder found, under that
   * report's key, with its location, issue, time and body and the first result's coordinates.
   */
  lemma {:induction false} GeoRowsSound(m: map<int, ProcessedSms>, ids: seq<int>, scheme: Scheme, service: Service,
                                        cleaner: Cleaner)
    ensures forall e :: e in GeoRows(m, ids, scheme, service, cleaner) ==>
      exists id :: id in ids && Found(m, scheme, service, cleaner, id) && e.0 == KeyOf(scheme, id, m[id])
        && e.1 == GeoRow(m[id], Locate(scheme, service, cleaner, m[id]).value)
    decreases |ids|
  {
    if ids != [] {
      var init, id := ids[..|ids| - 1], ids[|ids| - 1];
      assert ids == init + [id];
      GeoRowsSound(m, init, scheme, service, cleaner);
      GeoRowsSnoc(m, init, id, scheme, service, cleaner);
      forall e | e in GeoRows(m, ids, scheme, service, cleaner)
        ensures exists x ::
          x in ids && Found(m, scheme, service, cleaner, x) && e.0 == KeyOf(scheme, x, m[x])
          && e.1 == GeoRow(m[x], Locate(scheme, service, cleaner, m[x]).value)
      {
        if e in GeoRows(m, init, scheme, service, cleaner) {
          var x :| x in init && Found(m, scheme, service, cleaner, x) && e.0 == KeyOf(scheme, x, m[x])
            && e.1 == GeoRow(m[x], Locate(scheme, service, cleaner, m[x]).value);
          assert x in ids;
        } else {
          assert id in ids;
        }
      }
    }
  }

  /** The keys of the listed reports the geocoder found. */
  function FoundKeys(m: map<int, ProcessedSms>, ids: seq<int>, scheme: Scheme, service: Service, cleaner: Cleaner): set<int> {
    set id | id in ids && Found(m, scheme, service, cleaner, id) :: KeyOf(scheme, id, m[id])
  }

  lemma FoundKeysSnoc(m: map<int, ProcessedSms>, ids: seq<int>, id: int, scheme: Scheme, service: Service, cleaner: Cleaner)
    ensures FoundKeys(m, ids + [id], scheme, service, cleaner) == FoundKeys(m, ids, scheme, service, cleaner)
      + (if Found(m, scheme, service, cleaner, id) then {KeyOf(scheme, id, m[id])} else {})
  {
    assert forall x :: x in ids + [id] <==> x in ids || x == id;
  }

  /** An insert is attempted for exactly the keys of the listed reports the geocoder found. */
  lemma {:induction false} GeoRowsKeys(m: map<int, ProcessedSms>, ids: seq<int>, scheme: Scheme, service: Service,
                                       cleaner: Cleaner)
    ensures KeysOf(GeoRows(m, ids, scheme, service, cleaner)) == FoundKeys(m, ids, scheme, service, cleaner)
    decreases |ids|
  {
    if ids != [] {
      var init, id := ids[..|ids| - 1], ids[|ids| - 1];
      assert ids == init + [id];
      GeoRowsKeys(m, init, scheme, service, cleaner);
      GeoRowsSnoc(m, init, id, scheme, service, cleaner);
      FoundKeysSnoc(m, init, id, scheme, service, cleaner);
      var before := GeoRows(m, init, scheme, service, cleaner);
      if Found(m, scheme, service, cleaner, id) {
        KeysOfSnoc(before, (KeyOf(scheme, id, m[id]), GeoRow(m[id], Locate(scheme, service, cleaner, m[id]).value)));
      } else {
        assert before + [] == before;
      }
    }
  }

  lemma GeoStep(snapshot: map<int, ProcessedSms>, g: map<int, GeocodedSms>, order: seq<int>, i: nat,
                scheme: Scheme, service: Service, cleaner: Cleaner)
    requires i < |order| && order[i] in snapshot
    ensures PutAll(g, GeoRows(snapshot, order[..i + 1], scheme, service, cleaner)) ==
      if Found(snapshot, scheme, service, cleaner, order[i])
      then Put(PutAll(g, GeoRows(snapshot, order[..i], scheme, service, cleaner)),
               KeyOf(scheme, order[i], snapshot[order[i]]),
               GeoRow(snapshot[order[i]], Locate(scheme, service, cleaner, snapshot[order[i]]).value))
      else PutAll(g, GeoRows(snapshot, order[..i], scheme, service, cleaner))
  {
    assert order[..i + 1] == order[..i] + [order[i]];
    GeoRowsSnoc(snapshot, order[..i], order[i], scheme, service, cleaner);
    var before := GeoRows(snapshot, order[..i], scheme, service, cleaner);
    var r := snapshot[order[i]];
    if Found(snapshot, scheme, service, cleaner, order[i]) {
      PutAllSnoc(g, before, (KeyOf(scheme, order[i], r), GeoRow(r, Locate(scheme, service, cleaner, r).value)));
    } else {
      assert before + [] == before;
    }
  }

  /** The loop body for one report: look it up, and insert it under the script's key when found. */
  method GeocodeOne(db: Db, snapshot: map<int, ProcessedSms>, order: seq<int>, i: nat, scheme: Scheme,
                    service: Service, cleaner: Cleaner, ghost g0: map<int, GeocodedSms>)
    requires i < |order| && order[i] in snapshot
    requires db.geocodedSms == PutAll(g0, GeoRows(snapshot, order[..i], scheme, service, cleaner))
    modifies db`geocodedSms
    ensures db.geocodedSms == PutAll(g0, GeoRows(snapshot, order[..i + 1], scheme, service, cleaner))
  {
    var id := order[i];
    GeoStep(snapshot, g0, order, i, scheme, service, cleaner);
    var sms := snapshot[id];
    var locationData: Option<Point>;
    match scheme {
      case BySmsId =>
        locationData := GetCoordinates(true, service(Query(sms.location, CountrySuffix)));
      case ByRowId =>
        var locationName := Render(sms.location);
        var cleanedLocation := CleanLocation(true, cleaner(locationName), locationName);
        locationData := GetCoordinates(true, service(cleanedLocation));
    }
    if locationData.Some? {
      db.InsertGeocodedSms(KeyOf(scheme, id, sms), GeoRow(sms, locationData.value));
    }
  }

  lemma {:induction false} ListedAreReports(t: Serial<ProcessedSms>, order: seq<int>, s: set<int>)
    requires Enumerates(order, s) && s <= t.rows.Keys
    ensures forall i :: 0 <= i < |order| ==> order[i] in t.rows
  {
    assert forall i :: 0 <= i < |order| ==> order[i] in Elems(order);
  }

  /**
   * The main block of either script: nothing happens unless the keys it needs are set
   * (`sms_geocoder.py`: OpenCage; `sms_geocoder_2.py`: OpenCage and Google); then one
   * lookup per selected report.
   */
  method GeocodeSms(db: Db, order: seq<int>, scheme: Scheme, keysPresent: bool, service: Service, cleaner: Cleaner)
    requires Enumerates(order, Ungeocoded(scheme, db.processedSms, db.geocodedSms))
    modifies db`geocodedSms
    ensures !keysPresent ==> db.geocodedSms == old(db.geocodedSms)
    ensures keysPresent ==>
      db.geocodedSms == PutAll(old(db.geocodedSms), GeoRows(old(db.processedSms).rows, order, scheme, service, cleaner))
  {
    if !keysPresent {
      return;
    }
    ListedAreReports(db.processedSms, order, Ungeocoded(scheme, db.processedSms, db.geocodedSms));
    var snapshot := db.processedSms.rows;
    var i := 0;
    while i < |order|
      invariant 0 <= i <= |order|
      invariant db.geocodedSms == PutAll(old(db.geocodedSms), GeoRows(snapshot, order[..i], scheme, service, cleaner))
    {
      GeocodeOne(db, snapshot, order, i, scheme, service, cleaner, old(db.geocodedSms));
      i := i + 1;
    }
    assert order[..i] == order;
  }

  /**
   * With unique keys, a listed report whose key is not yet stored ends up stored exactly
   * when the geocoder found it, and then with its own location, issue, time, body and the
   * first result's coordinates.
   */
  lemma GeocodedIff(m: map<int, ProcessedSms>, g: map<int, GeocodedSms>, order: seq<int>, scheme: Scheme,
                    service: Service, cleaner: Cleaner, id: int)
    requires KeysUnique(scheme, m)
    requires id in order && id in m && KeyOf(scheme, id, m[id]) !in g
    ensures KeyOf(scheme, id, m[id]) in PutAll(g, GeoRows(m, order, scheme, service, cleaner))
      <==> Locate(scheme, service, cleaner, m[id]).Some?
    ensures KeyOf(scheme, id, m[id]) in PutAll(g, GeoRows(m, order, scheme, service, cleaner)) ==>
      PutAll(g, GeoRows(m, order, scheme, service, cleaner))[KeyOf(scheme, id, m[id])]
        == GeoRow(m[id], Locate(scheme, service, cleaner, m[id]).value)
  {
    var rows := GeoRows(m, order, scheme, service, cleaner);
    var k := KeyOf(scheme, id, m[id]);
    PutAllKeys(g, rows);
    GeoRowsKeys(m, order, scheme, service, cleaner);
    GeoRowsSound(m, order, scheme, service, cleaner);
    if k in PutAll(g, rows) {
      PutAllFrom(g, rows, k);
      var x :| x in order && Found(m, scheme, service, cleaner, x) && k == KeyOf(scheme, x, m[x])
        && PutAll(g, rows)[k] == GeoRow(m[x], Locate(scheme, service, cleaner, m[x]).value);
      assert x == id;
    }
  }

  /** With unique keys, the reports selected again after a run are exactly the listed ones not found. */
  lemma OnlyFailuresReselected(t: Serial<ProcessedSms>, g: map<int, GeocodedSms>, order: seq<int>, scheme: Scheme,
                               service: Service, cleaner: Cleaner)
    requires KeysUnique(scheme, t.rows)
    requires Enumerates(order, Ungeocoded(scheme, t, g))
    ensures Ungeocoded(scheme, t, PutAll(g, GeoRows(t.rows, order, scheme, service, cleaner)))
      == set id | id in order && Locate(scheme, service, cleaner, t.rows[id]).None?
  {
    var rows := GeoRows(t.rows, order, scheme, service, cleaner);
    PutAllKeys(g, rows);
    GeoRowsKeys(t.rows, order, scheme, service, cleaner);
    assert forall id :: id in order <==> id in Ungeocoded(scheme, t, g);
    forall id | id in t.rows && KeyOf(scheme, id, t.rows[id]) in FoundKeys(t.rows, order, scheme, service, cleaner)
      ensures id in order && Found(t.rows, scheme, service, cleaner, id)
    {
      var x :| x in order && Found(t.rows, scheme, service, cleaner, x)
        && KeyOf(scheme, id, t.rows[id]) == KeyOf(scheme, x, t.rows[x]);
    }
  }

  /**
   * The two key schemes disagree about which reports are done: a report with `id` 1 and
   * `original_sms_id` 2, against a `geocoded_sms_data` row for 2, is done for
   * `sms_geocoder.py` and still pending for `sms_geocoder_2.py`.
   */
  lemma KeySchemesDisagree()
    ensures var r := ProcessedSms(2, Some("Katpadi"), Some("Flooding"), None, Some("help"), None, None);
      var t := Serial(map[1 := r], 2);
      var g := map[2 := GeocodedSms(Some(12.9), Some(79.1), Some("Katpadi"), None, None, None)];
      1 !in Ungeocoded(BySmsId, t, g) && 1 in Ungeocoded(ByRowId, t, g)
  {
    var r := ProcessedSms(2, Some("Katpadi"), Some("Flooding"), None, Some("help"), None, None);
    assert Usable(r) by {
      assert "Katpadi"[0] != NotSpecified[0];
    }
  }
}
