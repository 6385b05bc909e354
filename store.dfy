/**
 * The Postgres database the pipeline shares: one row type per table, the UPDATE statements
 * as functions on tables, and `Db`, whose fields are the tables and whose methods are the
 * statements the scripts send.
 *
 * Columns a script never reads or writes (`processed_at`, `generated_at`, the SERIAL `id`
 * of `actionable_tweets`, `geocoded_tweets` and `geocoded_sms_data`) are not modelled. The
 * schema is the one the setup functions leave once they have all run: `tweets.status`
 * defaults to 'unclassified', `incident_reports.status` to 'unprocessed',
 * `geocoded_tweets.status` to 'reported', and the latitude/longitude columns exist.
 */
module Store {
  import opened Wrappers
  import opened Tables
  import opened Json
  import opened Geocoder
  import opened Llm

  /** A nullable TEXT column. */
  type NullText = Option<string>

  const Unclassified: string := "unclassified"
  const Classified: string := "classified"
  const Processed: string := "processed"
  const Unprocessed: string := "unprocessed"
  const Grouped: string := "grouped"
  const Reported: string := "reported"

  /** `tweets`, keyed by the tweet id (BIGINT PRIMARY KEY). */
  datatype Tweet = Tweet(text: string, createdAt: string, authorId: NullText, location: NullText, geoData: Value, status: string)

  /** `actionable_tweets`, keyed by `source_tweet_id` (UNIQUE). */
  datatype ActionableTweet = ActionableTweet(text: string)

  /** `incident_reports`, keyed by its SERIAL id; `original_tweet_id` is UNIQUE. */
  datatype IncidentReport = IncidentReport(
    tweetId: int, location: NullText, issue: NullText, time: NullText, tweetText: string,
    status: string, latitude: Option<real>, longitude: Option<real>)

  /** `sms_reports`, keyed by its SERIAL id; `message_sid` is UNIQUE. */
  datatype Sms = Sms(sender: string, recipient: NullText, body: NullText, sid: string)

  /** `processed_sms_reports`, keyed by its SERIAL id; `original_sms_id` is UNIQUE. */
  datatype ProcessedSms = ProcessedSms(
    smsId: int, location: NullText, issue: NullText, time: NullText, body: NullText,
    latitude: Option<real>, longitude: Option<real>)

  /** `final_report`, keyed by its SERIAL id, with no other unique column. */
  datatype Event = Event(summary: NullText, location: NullText, sourceIds: seq<int>, count: int)

  /** `geocoded_tweets`, keyed by `source_report_id` (UNIQUE). */
  datatype GeocodedEvent = GeocodedEvent(
    latitude: Option<real>, longitude: Option<real>, summary: NullText, location: NullText,
    count: int, status: string)

  /** `geocoded_sms_data`, keyed by `source_sms_id` (UNIQUE). */
  datatype GeocodedSms = GeocodedSms(
    latitude: Option<real>, longitude: Option<real>, location: NullText, issue: NullText,
    time: NullText, body: NullText)

  function TweetOf(r: IncidentReport): int { r.tweetId }
  function SmsOf(r: ProcessedSms): int { r.smsId }
  function SidOf(r: Sms): string { r.sid }

  /** `UPDATE tweets SET status = s WHERE id = id`: that row's status and nothing else. */
  function SetTweetStatus(m: map<int, Tweet>, id: int, s: string): (r: map<int, Tweet>)
    ensures r.Keys == m.Keys
    ensures id in m ==> r[id].status == s && r[id].text == m[id].text && r[id] == m[id].(status := s)
    ensures forall k :: k in m && k != id ==> r[k] == m[k]
  {
    if id in m then m[id := m[id].(status := s)] else m
  }

  /** `UPDATE incident_reports SET status = 'grouped' WHERE id IN ids`. */
  function MarkGrouped(t: Serial<IncidentReport>, ids: set<int>): (r: Serial<IncidentReport>)
    ensures r.next == t.next && r.rows.Keys == t.rows.Keys
    ensures forall i :: i in t.rows && i in ids ==> r.rows[i] == t.rows[i].(status := Grouped)
    ensures forall i :: i in t.rows && i !in ids ==> r.rows[i] == t.rows[i]
  {
    Serial(map i | i in t.rows :: if i in ids then t.rows[i].(status := Grouped) else t.rows[i], t.next)
  }

  /**
   * The columns a location geocoder reads and writes, which `incident_reports` and
   * `processed_sms_reports` share: the extracted location, the latitude it tests for NULL, and
   * the row with both coordinates set.
   */
  datatype CoordColumns<!R> = CoordColumns(location: R -> NullText, latitude: R -> Option<real>, withPoint: (R, Point) -> R)

  const IncidentColumns: CoordColumns<IncidentReport> :=
    CoordColumns((r: IncidentReport) => r.location, (r: IncidentReport) => r.latitude,
      (r: IncidentReport, p: Point) => r.(latitude := Some(p.lat), longitude := Some(p.lon)))

  const SmsColumns: CoordColumns<ProcessedSms> :=
    CoordColumns((r: ProcessedSms) => r.location, (r: ProcessedSms) => r.latitude,
      (r: ProcessedSms, p: Point) => r.(latitude := Some(p.lat), longitude := Some(p.lon)))

  /** `UPDATE ... SET latitude, longitude WHERE extracted_location = name`. */
  function SetCoords<R>(t: Serial<R>, c: CoordColumns<R>, name: string, p: Point): (r: Serial<R>)
    ensures r.next == t.next && r.rows.Keys == t.rows.Keys
    ensures forall i :: i in t.rows && c.location(t.rows[i]) == Some(name) ==> r.rows[i] == c.withPoint(t.rows[i], p)
    ensures forall i :: i in t.rows && c.location(t.rows[i]) != Some(name) ==> r.rows[i] == t.rows[i]
  {
    Serial(map i | i in t.rows :: if c.location(t.rows[i]) == Some(name) then c.withPoint(t.rows[i], p) else t.rows[i], t.next)
  }

  /** A report still waiting for coordinates under a usable location name. */
  predicate Uncoded<R>(c: CoordColumns<R>, r: R) {
    c.latitude(r).None? && c.location(r).Some? && c.location(r) != Some(NotSpecified)
  }

  /** `SELECT DISTINCT extracted_location` over the reports still waiting for coordinates. */
  function UncodedNames<R>(t: Serial<R>, c: CoordColumns<R>): (r: set<string>)
    ensures forall n :: n in r <==> exists i :: i in t.rows && Uncoded(c, t.rows[i]) && c.location(t.rows[i]) == Some(n)
  {
    set i | i in t.rows && Uncoded(c, t.rows[i]) :: c.location(t.rows[i]).value
  }

  /** `UPDATE geocoded_tweets SET status = s WHERE source_report_id = id`. */
  function SetGeocodedStatus(m: map<int, GeocodedEvent>, id: int, s: string): (r: map<int, GeocodedEvent>)
    ensures r.Keys == m.Keys
    ensures id in m ==> r[id] == m[id].(status := s)
    ensures forall k :: k in m && k != id ==> r[k] == m[k]
  {
    if id in m then m[id := m[id].(status := s)] else m
  }

  /** An update that leaves `original_tweet_id` alone keeps the UNIQUE constraint and the key set. */
  lemma MarkGroupedValid(t: Serial<IncidentReport>, ids: set<int>)
    requires Fresh(t) && UniqueBy(t, TweetOf)
    ensures Fresh(MarkGrouped(t, ids)) && UniqueBy(MarkGrouped(t, ids), TweetOf)
    ensures KeysBy(MarkGrouped(t, ids), TweetOf) == KeysBy(t, TweetOf)
  {
    var r := MarkGrouped(t, ids);
    assert forall i :: i in t.rows ==> TweetOf(r.rows[i]) == TweetOf(t.rows[i]);
    assert KeysBy(r, TweetOf) == KeysBy(t, TweetOf) by {
      forall x | x in KeysBy(t, TweetOf) ensures x in KeysBy(r, TweetOf) {
        var i :| i in t.rows && TweetOf(t.rows[i]) == x;
        assert TweetOf(r.rows[i]) == x;
      }
    }
  }

  /** Setting coordinates keeps the UNIQUE constraint and the key set as well, when the key is not a coordinate. */
  lemma SetCoordsValid<R, K>(t: Serial<R>, c: CoordColumns<R>, name: string, p: Point, key: R -> K)
    requires Fresh(t) && UniqueBy(t, key)
    requires forall r :: key(c.withPoint(r, p)) == key(r)
    ensures Fresh(SetCoords(t, c, name, p)) && UniqueBy(SetCoords(t, c, name, p), key)
    ensures KeysBy(SetCoords(t, c, name, p), key) == KeysBy(t, key)
  {
    var r := SetCoords(t, c, name, p);
    assert forall i :: i in t.rows ==> key(r.rows[i]) == key(t.rows[i]);
    assert KeysBy(r, key) == KeysBy(t, key) by {
      forall x | x in KeysBy(t, key) ensures x in KeysBy(r, key) {
        var i :| i in t.rows && key(t.rows[i]) == x;
        assert key(r.rows[i]) == x;
      }
    }
  }

  /** The database: one field per table, one method per statement the scripts send. */
  class Db {
    var tweets: map<int, Tweet>
    var actionable: map<int, ActionableTweet>
    var incidents: Serial<IncidentReport>
    var sms: Serial<Sms>
    var processedSms: Serial<ProcessedSms>
    var events: Serial<Event>
    var geocoded: map<int, GeocodedEvent>
    var geocodedSms: map<int, GeocodedSms>

    /** Every sequence is ahead of the ids it issued, and every UNIQUE column holds. */
    ghost predicate Valid()
      reads this`incidents, this`sms, this`processedSms, this`events
    {
      && Fresh(incidents) && UniqueBy(incidents, TweetOf)
      && Fresh(sms) && UniqueBy(sms, SidOf)
      && Fresh(processedSms) && UniqueBy(processedSms, SmsOf)
      && Fresh(events)
    }

    /** An empty database whose sequences start at 1. */
    constructor()
      ensures Valid()
      ensures tweets == map[] && actionable == map[] && geocoded == map[] && geocodedSms == map[]
      ensures incidents == Serial(map[], 1) && sms == Serial(map[], 1)
      ensures processedSms == Serial(map[], 1) && events == Serial(map[], 1)
    {
      tweets, actionable, geocoded, geocodedSms := map[], map[], map[], map[];
      incidents, sms, processedSms, events := Serial(map[], 1), Serial(map[], 1), Serial(map[], 1), Serial(map[], 1);
    }

    /** `INSERT INTO tweets ... ON CONFLICT (id) DO NOTHING`. */
    method InsertTweet(id: int, row: Tweet)
      modifies this`tweets
      ensures tweets == Put(old(tweets), id, row)
    {
      tweets := Put(tweets, id, row);
    }

    /** `INSERT INTO actionable_tweets ... ON CONFLICT (source_tweet_id) DO NOTHING`. */
    method InsertActionableTweet(text: string, sourceId: int)
      modifies this`actionable
      ensures actionable == Put(old(actionable), sourceId, ActionableTweet(text))
    {
      actionable := Put(actionable, sourceId, ActionableTweet(text));
    }

    /** `UPDATE tweets SET status = ... WHERE id = ...`. */
    method UpdateTweetStatus(id: int, status: string)
      modifies this`tweets
      ensures tweets == SetTweetStatus(old(tweets), id, status)
    {
      tweets := SetTweetStatus(tweets, id, status);
    }

    /** `INSERT INTO incident_reports ... ON CONFLICT (original_tweet_id) DO NOTHING`. */
    method InsertIncidentReport(r: IncidentReport)
      requires Valid()
      modifies this`incidents
      ensures incidents == SerialPut(old(incidents), TweetOf, r)
      ensures Valid()
    {
      SerialPutValid(incidents, TweetOf, r);
      incidents := SerialPut(incidents, TweetOf, r);
    }

    /** `UPDATE incident_reports SET status = 'grouped' WHERE id IN (...)`; the list is never empty. */
    method UpdateIncidentStatus(ids: seq<int>)
      requires ids != []
      requires Valid()
      modifies this`incidents
      ensures incidents == MarkGrouped(old(incidents), Elems(ids))
      ensures Valid()
    {
      MarkGroupedValid(incidents, Elems(ids));
      incidents := MarkGrouped(incidents, Elems(ids));
    }

    /** `INSERT INTO final_report ...` with `number_of_reports = len(incident_ids)`. */
    method InsertFinalEventReport(summary: NullText, location: NullText, ids: seq<int>)
      requires Valid()
      modifies this`events
      ensures events == Append(old(events), Event(summary, location, ids, |ids|))
      ensures events.rows[old(events).next].count == |ids|
      ensures Valid()
    {
      events := Append(events, Event(summary, location, ids, |ids|));
    }

    /** `UPDATE incident_reports SET latitude, longitude WHERE extracted_location = ...`. */
    method UpdateLocationWithCoords(name: string, p: Point)
      requires Valid()
      modifies this`incidents
      ensures incidents == SetCoords(old(incidents), IncidentColumns, name, p)
      ensures Valid()
    {
      SetCoordsValid(incidents, IncidentColumns, name, p, TweetOf);
      incidents := SetCoords(incidents, IncidentColumns, name, p);
    }

    /** `INSERT INTO sms_reports ... ON CONFLICT (message_sid) DO NOTHING`. */
    method InsertSms(r: Sms)
      requires Valid()
      modifies this`sms
      ensures sms == SerialPut(old(sms), SidOf, r)
      ensures Valid()
    {
      SerialPutValid(sms, SidOf, r);
      sms := SerialPut(sms, SidOf, r);
    }

    /** `INSERT INTO processed_sms_reports ... ON CONFLICT (original_sms_id) DO NOTHING`. */
    method InsertProcessedSms(r: ProcessedSms)
      requires Valid()
      modifies this`processedSms
      ensures processedSms == SerialPut(old(processedSms), SmsOf, r)
      ensures Valid()
    {
      SerialPutValid(processedSms, SmsOf, r);
      processedSms := SerialPut(processedSms, SmsOf, r);
    }

    /** `UPDATE processed_sms_reports SET latitude, longitude WHERE extracted_location = ...`. */
    method UpdateSmsLocationWithCoords(name: string, p: Point)
      requires Valid()
      modifies this`processedSms
      ensures processedSms == SetCoords(old(processedSms), SmsColumns, name, p)
      ensures Valid()
    {
      SetCoordsValid(processedSms, SmsColumns, name, p, SmsOf);
      processedSms := SetCoords(processedSms, SmsColumns, name, p);
    }

    /** `INSERT INTO geocoded_tweets ... ON CONFLICT (source_report_id) DO NOTHING`. */
    method InsertGeocodedReport(sourceId: int, r: GeocodedEvent)
      modifies this`geocoded
      ensures geocoded == Put(old(geocoded), sourceId, r)
    {
      geocoded := Put(geocoded, sourceId, r);
    }

    /** `INSERT INTO geocoded_sms_data ... ON CONFLICT (source_sms_id) DO NOTHING`. */
    method InsertGeocodedSms(sourceId: int, r: GeocodedSms)
      modifies this`geocodedSms
      ensures geocodedSms == Put(old(geocodedSms), sourceId, r)
    {
      geocodedSms := Put(geocodedSms, sourceId, r);
    }

    /** `UPDATE geocoded_tweets SET status = ... WHERE source_report_id = ...`. */
    method UpdateGeocodedStatus(sourceId: int, status: string)
      modifies this`geocoded
      ensures geocoded == SetGeocodedStatus(old(geocoded), sourceId, status)
    {
      geocoded := SetGeocodedStatus(geocoded, sourceId, status);
    }
  }
}
