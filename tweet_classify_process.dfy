/**
 * `tweet_classify_processer.py`: one pass over the unclassified tweets that extracts the
 * details of each (into `incident_reports`), classifies it (into `actionable_tweets`) and
 * marks it 'processed', whatever the two calls returned.
 */
module TweetClassifyProcess {
  import opened Wrappers
  import opened Tables
  import opened Llm
  import opened Store
  import opened TweetClassify
  import opened TweetExtract

  /** The loop body for one tweet: extract, classify, then mark it 'processed' whatever happened. */
  method ProcessOne(db: Db, snapshot: map<int, Tweet>, order: seq<int>, i: nat, extractReplies: TweetExtract.Replies,
                    classifyReplies: TweetClassify.Replies, parse: Parser,
                    ghost t0: Serial<IncidentReport>, ghost a0: map<int, ActionableTweet>)
    requires i < |order| && order[i] in snapshot
    requires db.incidents == SerialPutAll(t0, TweetOf, ReportRows(snapshot, order[..i], extractReplies, parse))
    requires db.actionable == PutAll(a0, ActionableRows(snapshot, order[..i], classifyReplies, parse))
    requires db.tweets == SetStatuses(snapshot, order[..i], Processed)
    requires db.Valid()
    modifies db`tweets, db`actionable, db`incidents
    ensures db.incidents == SerialPutAll(t0, TweetOf, ReportRows(snapshot, order[..i + 1], extractReplies, parse))
    ensures db.actionable == PutAll(a0, ActionableRows(snapshot, order[..i + 1], classifyReplies, parse))
    ensures db.tweets == SetStatuses(snapshot, order[..i + 1], Processed)
    ensures db.Valid()
  {
    ExtractOne(db, snapshot, order, i, extractReplies, parse, t0);
    ClassifyOne(db, snapshot, order, i, classifyReplies, parse, a0);
    MarkOne(db, snapshot, order, i, Processed);
  }

  /** The loop over a work list of known tweets, one tweet at a time. */
  method ProcessEach(db: Db, order: seq<int>, extractReplies: TweetExtract.Replies,
                     classifyReplies: TweetClassify.Replies, parse: Parser)
    requires forall i :: 0 <= i < |order| ==> order[i] in db.tweets
    requires db.Valid()
    modifies db`tweets, db`actionable, db`incidents
    ensures db.incidents == SerialPutAll(old(db.incidents), TweetOf, ReportRows(old(db.tweets), order, extractReplies, parse))
    ensures db.actionable == PutAll(old(db.actionable), ActionableRows(old(db.tweets), order, classifyReplies, parse))
    ensures db.tweets == SetStatuses(old(db.tweets), order, Processed)
    ensures db.Valid()
  {
    var snapshot := db.tweets;
    var i := 0;
    while i < |order|
      invariant 0 <= i <= |order|
      invariant db.Valid()
      invariant db.incidents == SerialPutAll(old(db.incidents), TweetOf, ReportRows(snapshot, order[..i], extractReplies, parse))
      invariant db.actionable == PutAll(old(db.actionable), ActionableRows(snapshot, order[..i], classifyReplies, parse))
      invariant db.tweets == SetStatuses(snapshot, order[..i], Processed)
    {
      ProcessOne(db, snapshot, order, i, extractReplies, classifyReplies, parse, old(db.incidents), old(db.actionable));
      i := i + 1;
    }
    assert order[..i] == order;
  }

  /**
   * The combined loop of `tweet_classify_processer.py`. `extractReplies` and
   * `classifyReplies` are the model's answers to the two prompts; `order` is the order in
   * which the query returned the tweets.
   */
  method ProcessTweets(db: Db, order: seq<int>, extractReplies: TweetExtract.Replies,
                       classifyReplies: TweetClassify.Replies, parse: Parser)
    requires Enumerates(order, Pending(db.tweets))
    requires db.Valid()
    modifies db`tweets, db`actionable, db`incidents
    ensures db.incidents == SerialPutAll(old(db.incidents), TweetOf, ReportRows(old(db.tweets), order, extractReplies, parse))
    ensures db.actionable == PutAll(old(db.actionable), ActionableRows(old(db.tweets), order, classifyReplies, parse))
    ensures db.tweets == SetStatuses(old(db.tweets), order, Processed)
    ensures db.Valid()
  {
    PendingAreTweets(db.tweets, order);
    ProcessEach(db, order, extractReplies, classifyReplies, parse);
  }

  /**
   * A tweet whose extraction failed is still marked 'processed': it gets no report now and
   * is not fetched again, so its details are never extracted.
   */
  lemma FailedExtractionIsDropped(m: map<int, Tweet>, t: Serial<IncidentReport>, order: seq<int>,
                                  replies: TweetExtract.Replies, parse: Parser, id: int)
    requires Fresh(t) && UniqueBy(t, TweetOf)
    requires Enumerates(order, Pending(m)) && id in order && id !in KeysBy(t, TweetOf)
    requires !Extracted(replies, parse, id)
    ensures id !in KeysBy(SerialPutAll(t, TweetOf, ReportRows(m, order, replies, parse)), TweetOf)
    ensures id in m && id !in Pending(SetStatuses(m, order, Processed))
  {
    SerialPutAllValid(t, TweetOf, ReportRows(m, order, replies, parse));
    ReportRowsKeys(m, order, replies, parse);
    assert id in Elems(order);
    SetStatusesSpec(m, order, Processed);
  }
}
