/**
 * `insert_tweets` of the offline Twitter monitor: the records of a JSON file become rows of
 * `tweets`, inserted one after another with `ON CONFLICT (id) DO NOTHING`, in one
 * transaction that is committed only if every statement succeeds.
 */
module TweetIntake {
  import opened Wrappers
  import opened Text
  import opened Tables
  import opened Json
  import opened Store

  const BigintMin: int := -0x8000_0000_0000_0000
  const BigintMax: int := 0x7FFF_FFFF_FFFF_FFFF

  /** `int(tweet['id'])`, then the range of the BIGINT column. */
  function TweetId(v: Value): (r: Option<int>)
    ensures r.Some? <==> Int(v).Some? && BigintMin <= Int(v).value <= BigintMax
    ensures r.Some? ==> r.value == Int(v).value
  {
    match Int(v)
    case Some(n) => if BigintMin <= n <= BigintMax then Some(n) else None
    case None => None
  }

  /** The TIMESTAMPTZ NOT NULL column takes the text of a timestamp and nothing else. */
  function Timestamp(v: Value): (r: Option<string>)
    ensures r.Some? <==> v.Str?
  {
    if v.Str? then Some(v.s) else None
  }

  /**
   * The tuple built for one record, or `None` when building it raises (a missing key, a
   * bad id) or the database rejects it (a null `text` or `created_at`, an out-of-range id,
   * a value the column cannot take). `geo_data` is read with `.get`, so a missing one is
   * stored as JSON null.
   */
  function Row(rec: Record): (r: Option<(int, Tweet)>)
    ensures r.Some? <==>
      && "id" in rec && "text" in rec && "created_at" in rec && "author_id" in rec && "location" in rec
      && TweetId(rec["id"]).Some? && RequiredText(rec["text"]).Some? && Timestamp(rec["created_at"]).Some?
      && TextColumn(rec["author_id"]).Some? && TextColumn(rec["location"]).Some?
    ensures r.Some? ==>
      && r.value.0 == TweetId(rec["id"]).value
      && r.value.1.text == RequiredText(rec["text"]).value
      && r.value.1.createdAt == rec["created_at"].s
      && r.value.1.authorId == TextColumn(rec["author_id"]).value
      && r.value.1.location == TextColumn(rec["location"]).value
      && r.value.1.geoData == (if "geo_data" in rec then rec["geo_data"] else Null)
      && r.value.1.status == Unclassified
  {
    if !("id" in rec && "text" in rec && "created_at" in rec && "author_id" in rec && "location" in rec) then None
    else
      var id, text, at := TweetId(rec["id"]), RequiredText(rec["text"]), Timestamp(rec["created_at"]);
      var author, location := TextColumn(rec["author_id"]), TextColumn(rec["location"]);
      if id.None? || text.None? || at.None? || author.None? || location.None? then None
      else
        var geo := if "geo_data" in rec then rec["geo_data"] else Null;
        Some((id.value, Tweet(text.value, at.value, author.value, location.value, geo, Unclassified)))
  }

  /** The tuples for a whole file: `None` as soon as one record fails. */
  function Rows(recs: seq<Record>): (r: Option<seq<(int, Tweet)>>)
    ensures r.Some? <==> forall i :: 0 <= i < |recs| ==> Row(recs[i]).Some?
    ensures r.Some? ==> |r.value| == |recs| && forall i :: 0 <= i < |recs| ==> r.value[i] == Row(recs[i]).value
    decreases |recs|
  {
    if recs == [] then Some([])
    else
      var init := Rows(recs[..|recs| - 1]);
      var last := Row(recs[|recs| - 1]);
      if init.None? || last.None? then None else Some(init.value + [last.value])
  }

  /** The record a stored (not yet classified) tweet row comes from. */
  function Encode(id: int, t: Tweet): Record {
    map["id" := Number(id), "text" := Str(t.text), "created_at" := Str(t.createdAt),
        "author_id" := FromText(t.authorId), "location" := FromText(t.location), "geo_data" := t.geoData]
  }

  /** Reading a row back from its record gives the row: the mapping loses nothing. */
  lemma RowEncode(id: int, t: Tweet)
    requires BigintMin <= id <= BigintMax && t.status == Unclassified
    ensures Row(Encode(id, t)) == Some((id, t))
  {
    var rec := Encode(id, t);
    assert TextColumn(rec["author_id"]) == Some(t.authorId);
    assert TextColumn(rec["location"]) == Some(t.location);
  }

  datatype Outcome = NothingToInsert | Inserted | Aborted

  /** `execute_batch`: the rows inserted one after another. */
  method InsertBatch(db: Db, batch: seq<(int, Tweet)>)
    modifies db`tweets
    ensures db.tweets == PutAll(old(db.tweets), batch)
  {
    var i := 0;
    while i < |batch|
      invariant 0 <= i <= |batch|
      invariant db.tweets == PutAll(old(db.tweets), batch[..i])
    {
      assert batch[..i + 1] == batch[..i] + [batch[i]];
      PutAllSnoc(old(db.tweets), batch[..i], batch[i]);
      db.InsertTweet(batch[i].0, batch[i].1);
      i := i + 1;
    }
    assert batch[..i] == batch;
  }

  /** `insert_tweets`: the tuples are built first, so a bad record aborts before any insert. */
  method InsertTweets(db: Db, tweets: seq<Record>) returns (outcome: Outcome)
    modifies db`tweets
    ensures tweets == [] ==> outcome == NothingToInsert && db.tweets == old(db.tweets)
    ensures tweets != [] && Rows(tweets).None? ==> outcome == Aborted && db.tweets == old(db.tweets)
    ensures tweets != [] && Rows(tweets).Some? ==>
      outcome == Inserted && db.tweets == PutAll(old(db.tweets), Rows(tweets).value)
  {
    if tweets == [] {
      return NothingToInsert;
    }
    var rows := Rows(tweets);
    if rows.None? {
      // the transaction is rolled back: nothing is committed
      return Aborted;
    }
    InsertBatch(db, rows.value);
    return Inserted;
  }

  /**
   * Within one file the first record with a new id is the row stored; the ones after it
   * with the same id are skipped.
   */
  lemma FirstRecordWins(m: map<int, Tweet>, recs: seq<Record>, i: nat)
    requires Rows(recs).Some? && i < |recs|
    requires Row(recs[i]).value.0 !in m
    requires forall j :: 0 <= j < i ==> Row(recs[j]).value.0 != Row(recs[i]).value.0
    ensures Row(recs[i]).value.0 in PutAll(m, Rows(recs).value)
    ensures PutAll(m, Rows(recs).value)[Row(recs[i]).value.0] == Row(recs[i]).value.1
  {
    var rows := Rows(recs).value;
    PutAllFirstWins(m, rows, i);
  }

  /** The ids a committed file adds are exactly the ids of its records. */
  lemma IntakeKeys(m: map<int, Tweet>, recs: seq<Record>)
    requires Rows(recs).Some?
    ensures PutAll(m, Rows(recs).value).Keys == m.Keys + set i | 0 <= i < |recs| :: Row(recs[i]).value.0
  {
    var rows := Rows(recs).value;
    PutAllKeys(m, rows);
    KeysOfIndexed(rows);
    assert (set i | 0 <= i < |rows| :: rows[i].0) == set i | 0 <= i < |recs| :: Row(recs[i]).value.0;
  }
}
