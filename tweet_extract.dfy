/**
 * `tweet_processer_1.py`: every tweet without an incident report is sent for extraction,
 * and each successful extraction becomes a row of `incident_reports`. Nothing marks a tweet
 * as done except that row, so a failed extraction is retried on the next run.
 */
module TweetExtract {
  import opened Wrappers
  import opened Tables
  import opened Llm
  import opened Store

  /** The replies of the model, one per tweet it is asked about (`None`: the call raised). */
  type Replies = int -> Option<string>

  /** The anti-join: tweets with no `incident_reports` row whose `original_tweet_id` is theirs. */
  function Unextracted(m: map<int, Tweet>, t: Serial<IncidentReport>): (r: set<int>)
    ensures forall id :: id in r <==> id in m && id !in KeysBy(t, TweetOf)
  {
    set id | id in m && id !in KeysBy(t, TweetOf)
  }

  /**
   * The report for a tweet: its id and text, the extracted fields, and the column defaults
   * (status 'unprocessed', no coordinates).
   */
  function NewReport(id: int, text: string, d: Details): IncidentReport {
    IncidentReport(id, d.location, d.issue, d.time, text, Unprocessed, None, None)
  }

  /** The test the loop applies to a tweet: the extraction produced details. */
  predicate Extracted(replies: Replies, parse: Parser, id: int) {
    Extract(replies(id), parse).Some?
  }

  /** The `incident_reports` rows a run of the loop over `ids` inserts, in order. */
  function ReportRows(m: map<int, Tweet>, ids: seq<int>, replies: Replies, parse: Parser): seq<IncidentReport>
    decreases |ids|
  {
    if ids == [] then []
    else
      var id := ids[|ids| - 1];
      ReportRows(m, ids[..|ids| - 1], replies, parse)
        + (if id in m && Extracted(replies, parse, id)
           then [NewReport(id, m[id].text, Extract(replies(id), parse).value)] else [])
  }

  lemma ReportRowsSnoc(m: map<int, Tweet>, ids: seq<int>, id: int, replies: Replies, parse: Parser)
    ensures ReportRows(m, ids + [id], replies, parse) == ReportRows(m, ids, replies, parse)
      + (if id in m && Extracted(replies, parse, id)
         then [NewReport(id, m[id].text, Extract(replies(id), parse).value)] else [])
  {
    assert (ids + [id])[..|ids|] == ids;
  }

  /**
   * Every inserted report belongs to a listed tweet whose extraction succeeded, and copies
   * that tweet's id and text and the extracted fields.
   */
  lemma {:induction false} ReportRowsSound(m: map<int, Tweet>, ids: seq<int>, replies: Replies, parse: Parser)
    ensures forall r :: r in ReportRows(m, ids, replies, parse) ==>
      && r.tweetId in ids && r.tweetId in m && Extracted(replies, parse, r.tweetId)
      && r == NewReport(r.tweetId, m[r.tweetId].text, Extract(replies(r.tweetId), parse).value)
    decreases |ids|
  {
    if ids != [] {
      var init, id := ids[..|ids| - 1], ids[|ids| - 1];
      assert ids == init + [id];
      ReportRowsSound(m, init, replies, parse);
      ReportRowsSnoc(m, init, id, replies, parse);
    }
  }

  /** The listed tweets whose extraction succeeded. */
  function ExtractedIds(m: map<int, Tweet>, ids: seq<int>, replies: Replies, parse: Parser): set<int> {
    set id | id in ids && id in m && Extracted(replies, parse, id)
  }

  lemma ExtractedIdsSnoc(m: map<int, Tweet>, ids: seq<int>, id: int, replies: Replies, parse: Parser)
    ensures ExtractedIds(m, ids + [id], replies, parse) ==
      ExtractedIds(m, ids, replies, parse) + (if id in m && Extracted(replies, parse, id) then {id} else {})
  {
    assert forall x :: x in ids + [id] <==> x in ids || x == id;
  }

  /** A report is inserted for exactly the listed tweets whose extraction succeeded. */
  lemma {:induction false} ReportRowsKeys(m: map<int, Tweet>, ids: seq<int>, replies: Replies, parse: Parser)
    ensures KeysIn(ReportRows(m, ids, replies, parse), TweetOf) == ExtractedIds(m, ids, replies, parse)
    decreases |ids|
  {
    if ids != [] {
      var init, id := ids[..|ids| - 1], ids[|ids| - 1];
      assert ids == init + [id];
      ReportRowsKeys(m, init, replies, parse);
      ReportRowsSnoc(m, init, id, replies, parse);
      ExtractedIdsSnoc(m, init, id, replies, parse);
      var before := ReportRows(m, init, replies, parse);
      if id in m && Extracted(replies, parse, id) {
        KeysInSnoc(before, TweetOf, NewReport(id, m[id].text, Extract(replies(id), parse).value));
      } else {
        assert before + [] == before;
      }
    }
  }

  /** One more tweet of the work list. */
  lemma ReportStep(t: Serial<IncidentReport>, snapshot: map<int, Tweet>, order: seq<int>, i: nat,
                   replies: Replies, parse: Parser)
    requires i < |order| && order[i] in snapshot
    ensures SerialPutAll(t, TweetOf, ReportRows(snapshot, order[..i + 1], replies, parse)) ==
      if Extracted(replies, parse, order[i])
      then SerialPut(SerialPutAll(t, TweetOf, ReportRows(snapshot, order[..i], replies, parse)), TweetOf,
                     NewReport(order[i], snapshot[order[i]].text, Extract(replies(order[i]), parse).value))
      else SerialPutAll(t, TweetOf, ReportRows(snapshot, order[..i], replies, parse))
  {
    assert order[..i + 1] == order[..i] + [order[i]];
    ReportRowsSnoc(snapshot, order[..i], order[i], replies, parse);
    var before := ReportRows(snapshot, order[..i], replies, parse);
    if Extracted(replies, parse, order[i]) {
      SerialPutAllSnoc(t, TweetOf, before, NewReport(order[i], snapshot[order[i]].text, Extract(replies(order[i]), parse).value));
    } else {
      assert before + [] == before;
    }
  }

  /** Every tweet of the work list is a tweet of the table. */
  lemma ListedAreTweets(m: map<int, Tweet>, t: Serial<IncidentReport>, order: seq<int>)
    requires Enumerates(order, Unextracted(m, t))
    ensures forall i :: 0 <= i < |order| ==> order[i] in m
  {
    assert forall i :: 0 <= i < |order| ==> order[i] in Elems(order);
  }

  /** The loop body for one tweet: extract its details and insert a report when there are some. */
  method ExtractOne(db: Db, snapshot: map<int, Tweet>, order: seq<int>, i: nat, replies: Replies, parse: Parser,
                    ghost t0: Serial<IncidentReport>)
    requires i < |order| && order[i] in snapshot
    requires db.incidents == SerialPutAll(t0, TweetOf, ReportRows(snapshot, order[..i], replies, parse))
    requires db.Valid()
    modifies db`incidents
    ensures db.incidents == SerialPutAll(t0, TweetOf, ReportRows(snapshot, order[..i + 1], replies, parse))
    ensures db.Valid()
  {
    var id := order[i];
    ReportStep(t0, snapshot, order, i, replies, parse);
    var details := Extract(replies(id), parse);
    if details.Some? {
      db.InsertIncidentReport(NewReport(id, snapshot[id].text, details.value));
    }
  }

  /**
   * The extraction loop of `tweet_processer_1.py`. The batch it performs keeps the table's
   * invariant and adds one row per extracted tweet (`SerialPutAllValid`, `ReportRowsKeys`).
   */
  method ExtractTweets(db: Db, order: seq<int>, replies: Replies, parse: Parser)
    requires Enumerates(order, Unextracted(db.tweets, db.incidents))
    requires db.Valid()
    modifies db`incidents
    ensures db.incidents == SerialPutAll(old(db.incidents), TweetOf, ReportRows(old(db.tweets), order, replies, parse))
    ensures db.Valid()
  {
    var snapshot := db.tweets;
    ListedAreTweets(snapshot, db.incidents, order);
    var i := 0;
    while i < |order|
      invariant 0 <= i <= |order|
      invariant db.Valid()
      invariant db.tweets == snapshot
      invariant db.incidents == SerialPutAll(old(db.incidents), TweetOf, ReportRows(snapshot, order[..i], replies, parse))
    {
      ExtractOne(db, snapshot, order, i, replies, parse, old(db.incidents));
      i := i + 1;
    }
    assert order[..i] == order;
  }

  /**
   * After a run, the tweets the anti-join selects are exactly the ones whose extraction
   * failed: those are retried, and every other one is done.
   */
  lemma OnlyFailuresReselected(m: map<int, Tweet>, t: Serial<IncidentReport>, order: seq<int>,
                               replies: Replies, parse: Parser)
    requires Fresh(t) && UniqueBy(t, TweetOf) && Enumerates(order, Unextracted(m, t))
    ensures Unextracted(m, SerialPutAll(t, TweetOf, ReportRows(m, order, replies, parse)))
      == set id | id in order && !Extracted(replies, parse, id)
  {
    var rows := ReportRows(m, order, replies, parse);
    SerialPutAllValid(t, TweetOf, rows);
    ReportRowsKeys(m, order, replies, parse);
    assert forall id :: id in order ==> id in Elems(order);
  }
}
