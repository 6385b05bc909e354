/**
 * `tweets_geocoder.py`: the distinct location names of incident reports that have no
 * latitude yet are looked up one by one as "<name>, Vellore"; when the geocoder finds a
 * name, every incident report with exactly that location gets its coordinates.
 */
module IncidentGeocoder {
  import opened Wrappers
  import opened Tables
  import opened Llm
  import opened Geocoder
  import opened Store

  /** The geocoder's answer for a name, asked in Vellore (the key is known to be set here). */
  function NameLookup(service: Service, name: string): Option<Point> {
    GetCoordinates(true, service(Query(Some(name), CitySuffix)))
  }

  /** The table after the loop has handled `names`, one `UPDATE` per name found. */
  function CoordsFold(t: Serial<IncidentReport>, names: seq<string>, service: Service): Serial<IncidentReport>
    decreases |names|
  {
    if names == [] then t
    else
      var before := CoordsFold(t, names[..|names| - 1], service);
      var n := names[|names| - 1];
      if NameLookup(service, n).Some? then SetCoords(before, IncidentColumns, n, NameLookup(service, n).value)
      else before
  }

  /** What a run leaves of one report: the coordinates of its own name, if that name was listed and found. */
  function Located(r: IncidentReport, names: seq<string>, service: Service): (s: IncidentReport)
    ensures s.tweetId == r.tweetId && s.location == r.location && s.issue == r.issue
    ensures s.time == r.time && s.tweetText == r.tweetText && s.status == r.status
  {
    if r.location.Some? && r.location.value in names && NameLookup(service, r.location.value).Some?
    then r.(latitude := Some(NameLookup(service, r.location.value).value.lat),
            longitude := Some(NameLookup(service, r.location.value).value.lon))
    else r
  }

  /**
   * The loop's cumulative effect has a closed form: the row ids and the sequence stay, and
   * each report independently gets the coordinates of its own location name when that
   * name was listed and found, and is otherwise unchanged. The names need not be distinct.
   */
  lemma {:induction false} CoordsFoldRows(t: Serial<IncidentReport>, names: seq<string>, service: Service)
    ensures CoordsFold(t, names, service).next == t.next
    ensures CoordsFold(t, names, service).rows.Keys == t.rows.Keys
    ensures forall i :: i in t.rows ==> CoordsFold(t, names, service).rows[i] == Located(t.rows[i], names, service)
    decreases |names|
  {
    if names != [] {
      var init, n := names[..|names| - 1], names[|names| - 1];
      assert names == init + [n];
      CoordsFoldRows(t, init, service);
      forall i | i in t.rows
        ensures CoordsFold(t, names, service).rows[i] == Located(t.rows[i], names, service)
      {
        var r := t.rows[i];
        assert r.location.Some? ==> (r.location.value in names <==> r.location.value in init || r.location.value == n);
      }
    }
  }

  /** A report already carrying coordinates keeps them unless its name is looked up again. */
  lemma CodedRowsKept(t: Serial<IncidentReport>, names: seq<string>, service: Service, i: int)
    requires i in t.rows && t.rows[i].latitude.Some?
    requires t.rows[i].location.None? || t.rows[i].location.value !in names
    ensures i in CoordsFold(t, names, service).rows && CoordsFold(t, names, service).rows[i] == t.rows[i]
  {
    CoordsFoldRows(t, names, service);
  }

  lemma CoordsStep(t: Serial<IncidentReport>, order: seq<string>, i: nat, service: Service)
    requires i < |order|
    ensures CoordsFold(t, order[..i + 1], service) ==
      if NameLookup(service, order[i]).Some?
      then SetCoords(CoordsFold(t, order[..i], service), IncidentColumns, order[i], NameLookup(service, order[i]).value)
      else CoordsFold(t, order[..i], service)
  {
    assert order[..i + 1][..i] == order[..i];
  }

  /** The loop body for one name: look it up in Vellore, and update its reports when found. */
  method LocateOne(db: Db, order: seq<string>, i: nat, service: Service, ghost t0: Serial<IncidentReport>)
    requires i < |order|
    requires db.incidents == CoordsFold(t0, order[..i], service)
    requires db.Valid()
    modifies db`incidents
    ensures db.incidents == CoordsFold(t0, order[..i + 1], service)
    ensures db.Valid()
  {
    var place := order[i];
    CoordsStep(t0, order, i, service);
    var locationData := GetCoordinates(true, service(Query(Some(place), CitySuffix)));
    if locationData.Some? {
      db.UpdateLocationWithCoords(place, locationData.value);
    }
  }

  /** The main block: nothing happens unless the OpenCage key is set; then one lookup per name. */
  method GeocodeLocations(db: Db, order: seq<string>, keyPresent: bool, service: Service)
    requires Enumerates(order, UncodedNames(db.incidents, IncidentColumns))
    requires db.Valid()
    modifies db`incidents
    ensures !keyPresent ==> db.incidents == old(db.incidents)
    ensures keyPresent ==> db.incidents == CoordsFold(old(db.incidents), order, service)
    ensures db.Valid()
  {
    if !keyPresent {
      return;
    }
    var i := 0;
    while i < |order|
      invariant 0 <= i <= |order|
      invariant db.Valid()
      invariant db.incidents == CoordsFold(old(db.incidents), order[..i], service)
    {
      LocateOne(db, order, i, service, old(db.incidents));
      i := i + 1;
    }
    assert order[..i] == order;
  }

  /** After a run, the names selected again are exactly the listed names the geocoder did not find. */
  lemma OnlyFailuresReselected(t: Serial<IncidentReport>, order: seq<string>, service: Service)
    requires Enumerates(order, UncodedNames(t, IncidentColumns))
    ensures UncodedNames(CoordsFold(t, order, service), IncidentColumns) == set n | n in order && NameLookup(service, n).None?
  {
    var after := CoordsFold(t, order, service);
    CoordsFoldRows(t, order, service);
    assert forall n :: n in order <==> n in UncodedNames(t, IncidentColumns);
    forall n | n in UncodedNames(after, IncidentColumns)
      ensures n in order && NameLookup(service, n).None?
    {
      var i :| i in after.rows && Uncoded(IncidentColumns, after.rows[i]) && IncidentColumns.location(after.rows[i]) == Some(n);
      assert after.rows[i] == t.rows[i];
      assert Uncoded(IncidentColumns, t.rows[i]);
    }
    forall n | n in order && NameLookup(service, n).None?
      ensures n in UncodedNames(after, IncidentColumns)
    {
      var i :| i in t.rows && Uncoded(IncidentColumns, t.rows[i]) && IncidentColumns.location(t.rows[i]) == Some(n);
      assert after.rows[i] == t.rows[i];
    }
  }
}
