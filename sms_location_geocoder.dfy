/**
 * `sms_geocoder_1.py`: the distinct location names of processed SMS reports that have no
 * latitude yet are first rewritten by the language model into a searchable address, the
 * rewrite is looked up, and when the geocoder finds it every processed SMS report whose
 * location is the ORIGINAL name gets the coordinates.
 */
module SmsLocationGeocoder {
  import opened Wrappers
  import opened Tables
  import opened Llm
  import opened Geocoder
  import opened Store

  /** The geocoder's answer for a name: the cleaned name is sent as it is, with no suffix. */
  function NameLookup(service: Service, cleaner: Cleaner, name: string): Option<Point> {
    GetCoordinates(true, service(CleanLocation(true, cleaner(name), name)))
  }

  /** When the model call raises, the original name is what gets looked up. */
  lemma CleanerFailureFallsBack(service: Service, cleaner: Cleaner, name: string)
    requires cleaner(name).None?
    ensures NameLookup(service, cleaner, name) == GetCoordinates(true, service(name))
  {
  }

  /** The table after the loop has handled `names`, one `UPDATE` per name found. */
  function CoordsFold(t: Serial<ProcessedSms>, names: seq<string>, service: Service, cleaner: Cleaner): Serial<ProcessedSms>
    decreases |names|
  {
    if names == [] then t
    else
      var before := CoordsFold(t, names[..|names| - 1], service, cleaner);
      var n := names[|names| - 1];
      if NameLookup(service, cleaner, n).Some? then SetCoords(before, SmsColumns, n, NameLookup(service, cleaner, n).value)
      else before
  }

  /** What a run leaves of one report: the coordinates found for its own name, if that name was listed and found. */
  function Located(r: ProcessedSms, names: seq<string>, service: Service, cleaner: Cleaner): (s: ProcessedSms)
    ensures s.smsId == r.smsId && s.location == r.location && s.issue == r.issue
    ensures s.time == r.time && s.body == r.body
  {
    if r.location.Some? && r.location.value in names && NameLookup(service, cleaner, r.location.value).Some?
    then r.(latitude := Some(NameLookup(service, cleaner, r.location.value).value.lat),
            longitude := Some(NameLookup(service, cleaner, r.location.value).value.lon))
    else r
  }

  /**
   * The loop's cumulative effect in closed form: the row ids and the sequence stay, and each
   * report independently gets the coordinates found for its own location name when that
   * name was listed and found, and is otherwise unchanged.
   */
  lemma {:induction false} CoordsFoldRows(t: Serial<ProcessedSms>, names: seq<string>, service: Service, cleaner: Cleaner)
    ensures CoordsFold(t, names, service, cleaner).next == t.next
    ensures CoordsFold(t, names, service, cleaner).rows.Keys == t.rows.Keys
    ensures forall i :: i in t.rows ==>
      CoordsFold(t, names, service, cleaner).rows[i] == Located(t.rows[i], names, service, cleaner)
    decreases |names|
  {
    if names != [] {
      var init, n := names[..|names| - 1], names[|names| - 1];
      assert names == init + [n];
      CoordsFoldRows(t, init, service, cleaner);
      forall i | i in t.rows
        ensures CoordsFold(t, names, service, cleaner).rows[i] == Located(t.rows[i], names, service, cleaner)
      {
        var r := t.rows[i];
        assert r.location.Some? ==> (r.location.value in names <==> r.location.value in init || r.location.value == n);
      }
    }
  }

  lemma CoordsStep(t: Serial<ProcessedSms>, order: seq<string>, i: nat, service: Service, cleaner: Cleaner)
    requires i < |order|
    ensures CoordsFold(t, order[..i + 1], service, cleaner) ==
      if NameLookup(service, cleaner, order[i]).Some?
      then SetCoords(CoordsFold(t, order[..i], service, cleaner), SmsColumns, order[i], NameLookup(service, cleaner, order[i]).value)
      else CoordsFold(t, order[..i], service, cleaner)
  {
    assert order[..i + 1][..i] == order[..i];
  }

  /** The loop body for one name: clean it, look it up, and update its reports when found. */
  method LocateOne(db: Db, order: seq<string>, i: nat, service: Service, cleaner: Cleaner, ghost t0: Serial<ProcessedSms>)
    requires i < |order|
    requires db.processedSms == CoordsFold(t0, order[..i], service, cleaner)
    requires db.Valid()
    modifies db`processedSms
    ensures db.processedSms == CoordsFold(t0, order[..i + 1], service, cleaner)
    ensures db.Valid()
  {
    var place := order[i];
    CoordsStep(t0, order, i, service, cleaner);
    var cleanedLocation := CleanLocation(true, cleaner(place), place);
    var locationData := GetCoordinates(true, service(cleanedLocation));
    if locationData.Some? {
      db.UpdateSmsLocationWithCoords(place, locationData.value);
    }
  }

  /** The main block: nothing happens unless the OpenCage and Google keys are both set. */
  method GeocodeSmsLocations(db: Db, order: seq<string>, keysPresent: bool, service: Service, cleaner: Cleaner)
    requires Enumerates(order, UncodedNames(db.processedSms, SmsColumns))
    requires db.Valid()
    modifies db`processedSms
    ensures !keysPresent ==> db.processedSms == old(db.processedSms)
    ensures keysPresent ==> db.processedSms == CoordsFold(old(db.processedSms), order, service, cleaner)
    ensures db.Valid()
  {
    if !keysPresent {
      return;
    }
    var i := 0;
    while i < |order|
      invariant 0 <= i <= |order|
      invariant db.Valid()
      invariant db.processedSms == CoordsFold(old(db.processedSms), order[..i], service, cleaner)
    {
      LocateOne(db, order, i, service, cleaner, old(db.processedSms));
      i := i + 1;
    }
    assert order[..i] == order;
  }

  /** After a run, the names selected again are exactly the listed names whose cleaned form was not found. */
  lemma OnlyFailuresReselected(t: Serial<ProcessedSms>, order: seq<string>, service: Service, cleaner: Cleaner)
    requires Enumerates(order, UncodedNames(t, SmsColumns))
    ensures UncodedNames(CoordsFold(t, order, service, cleaner), SmsColumns)
      == set n | n in order && NameLookup(service, cleaner, n).None?
  {
    var after := CoordsFold(t, order, service, cleaner);
    CoordsFoldRows(t, order, service, cleaner);
    assert forall n :: n in order <==> n in UncodedNames(t, SmsColumns);
    forall n | n in UncodedNames(after, SmsColumns)
      ensures n in order && NameLookup(service, cleaner, n).None?
    {
      var i :| i in after.rows && Uncoded(SmsColumns, after.rows[i]) && SmsColumns.location(after.rows[i]) == Some(n);
      assert after.rows[i] == t.rows[i];
      assert Uncoded(SmsColumns, t.rows[i]);
    }
    forall n | n in order && NameLookup(service, cleaner, n).None?
      ensures n in UncodedNames(after, SmsColumns)
    {
      var i :| i in t.rows && Uncoded(SmsColumns, t.rows[i]) && SmsColumns.location(t.rows[i]) == Some(n);
      assert after.rows[i] == t.rows[i];
    }
  }
}
