/**
 * `tweet_classify.py`: every unclassified tweet is classified once; the actionable ones are
 * copied into `actionable_tweets`, and every one of them is marked 'classified'.
 */
module TweetClassify {
  import opened Wrappers
  import opened Tables
  import opened Llm
  import opened Store

  /** The replies of the model, one per tweet it is asked about (`None`: the call raised). */
  type Replies = int -> Option<string>

  /** `SELECT id, text FROM tweets WHERE status = 'unclassified'`. */
  function Pending(m: map<int, Tweet>): (r: set<int>)
    ensures forall id :: id in r <==> id in m && m[id].status == Unclassified
  {
    set id | id in m && m[id].status == Unclassified
  }

  /** The table after `UPDATE tweets SET status = s` for each of `ids` in turn. */
  function SetStatuses(m: map<int, Tweet>, ids: seq<int>, s: string): map<int, Tweet>
    decreases |ids|
  {
    if ids == [] then m else SetTweetStatus(SetStatuses(m, ids[..|ids| - 1], s), ids[|ids| - 1], s)
  }

  /** The listed tweets, and only they, get the new status; no other column changes. */
  lemma {:induction false} SetStatusesSpec(m: map<int, Tweet>, ids: seq<int>, s: string)
    ensures SetStatuses(m, ids, s).Keys == m.Keys
    ensures forall id :: id in m && id in ids ==> SetStatuses(m, ids, s)[id] == m[id].(status := s)
    ensures forall id :: id in m && id !in ids ==> SetStatuses(m, ids, s)[id] == m[id]
    decreases |ids|
  {
    if ids != [] {
      var init := ids[..|ids| - 1];
      SetStatusesSpec(m, init, s);
      assert forall id :: id in ids <==> id in init || id == ids[|ids| - 1] by {
        assert ids == init + [ids[|ids| - 1]];
      }
    }
  }

  /** A run marks everything it fetched, so an immediate second run fetches nothing. */
  lemma RerunSelectsNothing(m: map<int, Tweet>, order: seq<int>, s: string)
    requires Enumerates(order, Pending(m)) && s != Unclassified
    ensures Pending(SetStatuses(m, order, s)) == {}
  {
    SetStatusesSpec(m, order, s);
    forall id | id in SetStatuses(m, order, s) ensures SetStatuses(m, order, s)[id].status != Unclassified {
      if id !in order {
        assert id !in Pending(m);
      }
    }
  }

  /** The test the loop applies to a tweet: its label is exactly "Actionable". */
  predicate Flagged(replies: Replies, parse: Parser, id: int) {
    IsActionable(Classify(replies(id), parse))
  }

  /** The `actionable_tweets` rows a run inserts, in the order it inserts them. */
  function ActionableRows(m: map<int, Tweet>, ids: seq<int>, replies: Replies, parse: Parser): seq<(int, ActionableTweet)>
    decreases |ids|
  {
    if ids == [] then []
    else
      var id := ids[|ids| - 1];
      ActionableRows(m, ids[..|ids| - 1], replies, parse)
        + (if id in m && Flagged(replies, parse, id) then [(id, ActionableTweet(m[id].text))] else [])
  }

  lemma ActionableRowsSnoc(m: map<int, Tweet>, ids: seq<int>, id: int, replies: Replies, parse: Parser)
    ensures ActionableRows(m, ids + [id], replies, parse) == ActionableRows(m, ids, replies, parse)
      + (if id in m && Flagged(replies, parse, id) then [(id, ActionableTweet(m[id].text))] else [])
  {
    assert (ids + [id])[..|ids|] == ids;
  }

  /** Every inserted row is for a listed, flagged tweet and carries that tweet's text. */
  lemma {:induction false} ActionableRowsSound(m: map<int, Tweet>, ids: seq<int>, replies: Replies, parse: Parser)
    ensures forall e :: e in ActionableRows(m, ids, replies, parse) ==>
      e.0 in ids && e.0 in m && Flagged(replies, parse, e.0) && e.1 == ActionableTweet(m[e.0].text)
    decreases |ids|
  {
    if ids != [] {
      var init, id := ids[..|ids| - 1], ids[|ids| - 1];
      assert ids == init + [id];
      ActionableRowsSound(m, init, replies, parse);
      ActionableRowsSnoc(m, init, id, replies, parse);
    }
  }

  /** The tweets of `ids` the loop flags. */
  function FlaggedIds(m: map<int, Tweet>, ids: seq<int>, replies: Replies, parse: Parser): set<int> {
    set id | id in ids && id in m && Flagged(replies, parse, id)
  }

  lemma FlaggedIdsSnoc(m: map<int, Tweet>, ids: seq<int>, id: int, replies: Replies, parse: Parser)
    ensures FlaggedIds(m, ids + [id], replies, parse) ==
      FlaggedIds(m, ids, replies, parse) + (if id in m && Flagged(replies, parse, id) then {id} else {})
  {
    assert forall x :: x in ids + [id] <==> x in ids || x == id;
  }

  /** A row is inserted for exactly the listed tweets that are flagged. */
  lemma {:induction false} ActionableRowsKeys(m: map<int, Tweet>, ids: seq<int>, replies: Replies, parse: Parser)
    ensures KeysOf(ActionableRows(m, ids, replies, parse)) == FlaggedIds(m, ids, replies, parse)
    decreases |ids|
  {
    if ids != [] {
      var init, id := ids[..|ids| - 1], ids[|ids| - 1];
      assert ids == init + [id];
      ActionableRowsKeys(m, init, replies, parse);
      ActionableRowsSnoc(m, init, id, replies, parse);
      FlaggedIdsSnoc(m, init, id, replies, parse);
      var before := ActionableRows(m, init, replies, parse);
      if id in m && Flagged(replies, parse, id) {
        KeysOfSnoc(before, (id, ActionableTweet(m[id].text)));
      } else {
        assert before + [] == before;
      }
    }
  }

  /**
   * For a fetched tweet not yet in `actionable_tweets`, the run inserts it exactly when its
   * label is "Actionable".
   */
  lemma ActionableInsertedIff(m: map<int, Tweet>, a: map<int, ActionableTweet>, order: seq<int>,
                              replies: Replies, parse: Parser, id: int)
    requires id in order && id in m && id !in a
    ensures id in PutAll(a, ActionableRows(m, order, replies, parse)) <==> IsActionable(Classify(replies(id), parse))
  {
    PutAllKeys(a, ActionableRows(m, order, replies, parse));
    ActionableRowsKeys(m, order, replies, parse);
  }

  /** One more fetched tweet: its row, if any, is inserted after those of the tweets before it. */
  lemma ActionableStep(snapshot: map<int, Tweet>, a: map<int, ActionableTweet>, order: seq<int>, i: nat,
                       replies: Replies, parse: Parser)
    requires i < |order| && order[i] in snapshot
    ensures PutAll(a, ActionableRows(snapshot, order[..i + 1], replies, parse)) ==
      if Flagged(replies, parse, order[i])
      then Put(PutAll(a, ActionableRows(snapshot, order[..i], replies, parse)), order[i], ActionableTweet(snapshot[order[i]].text))
      else PutAll(a, ActionableRows(snapshot, order[..i], replies, parse))
  {
    assert order[..i + 1] == order[..i] + [order[i]];
    ActionableRowsSnoc(snapshot, order[..i], order[i], replies, parse);
    var before := ActionableRows(snapshot, order[..i], replies, parse);
    if Flagged(replies, parse, order[i]) {
      PutAllSnoc(a, before, (order[i], ActionableTweet(snapshot[order[i]].text)));
    } else {
      assert before + [] == before;
    }
  }

  /** The status fold, one tweet further. */
  lemma StatusStep(m: map<int, Tweet>, order: seq<int>, i: nat, s: string)
    requires i < |order|
    ensures SetStatuses(m, order[..i + 1], s) == SetTweetStatus(SetStatuses(m, order[..i], s), order[i], s)
  {
    assert order[..i + 1][..i] == order[..i];
  }

  /** The status update for one tweet of the work list. */
  method MarkOne(db: Db, snapshot: map<int, Tweet>, order: seq<int>, i: nat, s: string)
    requires i < |order|
    requires db.tweets == SetStatuses(snapshot, order[..i], s)
    modifies db`tweets
    ensures db.tweets == SetStatuses(snapshot, order[..i + 1], s)
  {
    StatusStep(snapshot, order, i, s);
    db.UpdateTweetStatus(order[i], s);
  }

  /** The loop body for one tweet: classify it and copy it when it is actionable. */
  method ClassifyOne(db: Db, snapshot: map<int, Tweet>, order: seq<int>, i: nat, replies: Replies, parse: Parser,
                     ghost a0: map<int, ActionableTweet>)
    requires i < |order| && order[i] in snapshot
    requires db.actionable == PutAll(a0, ActionableRows(snapshot, order[..i], replies, parse))
    modifies db`actionable
    ensures db.actionable == PutAll(a0, ActionableRows(snapshot, order[..i + 1], replies, parse))
  {
    var id := order[i];
    ActionableStep(snapshot, a0, order, i, replies, parse);
    var classification := Classify(replies(id), parse);
    if IsActionable(classification) {
      db.InsertActionableTweet(snapshot[id].text, id);
    }
  }

  /** Every tweet of the work list is a tweet of the table. */
  lemma PendingAreTweets(m: map<int, Tweet>, order: seq<int>)
    requires Enumerates(order, Pending(m))
    ensures forall i :: 0 <= i < |order| ==> order[i] in m
  {
    assert forall i :: 0 <= i < |order| ==> order[i] in Elems(order);
  }

  /** The loop body for one tweet: classify it, copy it if actionable, mark it classified. */
  method ClassifyAndMark(db: Db, snapshot: map<int, Tweet>, order: seq<int>, i: nat, replies: Replies, parse: Parser,
                         ghost a0: map<int, ActionableTweet>)
    requires i < |order| && order[i] in snapshot
    requires db.actionable == PutAll(a0, ActionableRows(snapshot, order[..i], replies, parse))
    requires db.tweets == SetStatuses(snapshot, order[..i], Classified)
    modifies db`tweets, db`actionable
    ensures db.actionable == PutAll(a0, ActionableRows(snapshot, order[..i + 1], replies, parse))
    ensures db.tweets == SetStatuses(snapshot, order[..i + 1], Classified)
  {
    ClassifyOne(db, snapshot, order, i, replies, parse, a0);
    MarkOne(db, snapshot, order, i, Classified);
  }

  /** The classification loop. `order` is the order in which the query returned the tweets. */
  method ClassifyTweets(db: Db, order: seq<int>, replies: Replies, parse: Parser)
    requires Enumerates(order, Pending(db.tweets))
    modifies db`tweets, db`actionable
    ensures db.tweets == SetStatuses(old(db.tweets), order, Classified)
    ensures db.actionable == PutAll(old(db.actionable), ActionableRows(old(db.tweets), order, replies, parse))
  {
    var snapshot := db.tweets;
    PendingAreTweets(snapshot, order);
    var i := 0;
    while i < |order|
      invariant 0 <= i <= |order|
      invariant db.tweets == SetStatuses(snapshot, order[..i], Classified)
      invariant db.actionable == PutAll(old(db.actionable), ActionableRows(snapshot, order[..i], replies, parse))
    {
      ClassifyAndMark(db, snapshot, order, i, replies, parse, old(db.actionable));
      i := i + 1;
    }
    assert order[..i] == order;
  }
}
