/**
 * `sms_processer.py`: every SMS without a processed report is sent for extraction, and each
 * successful extraction becomes a row of `processed_sms_reports`. As for tweets, the report
 * row is the only mark of completion, so a failed extraction is retried on the next run.
 */
module SmsExtract {
  import opened Wrappers
  import opened Tables
  import opened Llm
  import opened Store

  /** The replies of the model, keyed by the `sms_reports` id (`None`: the call raised). */
  type Replies = int -> Option<string>

  /** The anti-join: `sms_reports` rows with no report whose `original_sms_id` is their id. */
  function Unextracted(s: Serial<Sms>, t: Serial<ProcessedSms>): (r: set<int>)
    ensures forall id :: id in r <==> id in s.rows && id !in KeysBy(t, SmsOf)
  {
    set id | id in s.rows && id !in KeysBy(t, SmsOf)
  }

  /** The report for a message: its id and body, the extracted fields, and no coordinates. */
  function NewReport(id: int, body: NullText, d: Details): ProcessedSms {
    ProcessedSms(id, d.location, d.issue, d.time, body, None, None)
  }

  /** The test the loop applies to a message: the extraction produced details. */
  predicate Extracted(replies: Replies, parse: Parser, id: int) {
    Extract(replies(id), parse).Some?
  }

  /** The `processed_sms_reports` rows a run of the loop over `ids` inserts, in order. */
  function ReportRows(m: map<int, Sms>, ids: seq<int>, replies: Replies, parse: Parser): seq<ProcessedSms>
    decreases |ids|
  {
    if ids == [] then []
    else
      var id := ids[|ids| - 1];
      ReportRows(m, ids[..|ids| - 1], replies, parse)
        + (if id in m && Extracted(replies, parse, id)
           then [NewReport(id, m[id].body, Extract(replies(id), parse).value)] else [])
  }

  lemma ReportRowsSnoc(m: map<int, Sms>, ids: seq<int>, id: int, replies: Replies, parse: Parser)
    ensures ReportRows(m, ids + [id], replies, parse) == ReportRows(m, ids, replies, parse)
      + (if id in m && Extracted(replies, parse, id)
         then [NewReport(id, m[id].body, Extract(replies(id), parse).value)] else [])
  {
    assert (ids + [id])[..|ids|] == ids;
  }

  /**
   * Every inserted report belongs to a listed message whose extraction succeeded, and copies
   * that message's id and body and the extracted fields.
   */
  lemma {:induction false} ReportRowsSound(m: map<int, Sms>, ids: seq<int>, replies: Replies, parse: Parser)
    ensures forall r :: r in ReportRows(m, ids, replies, parse) ==>
      && r.smsId in ids && r.smsId in m && Extracted(replies, parse, r.smsId)
      && r == NewReport(r.smsId, m[r.smsId].body, Extract(replies(r.smsId), parse).value)
    decreases |ids|
  {
    if ids != [] {
      var init, id := ids[..|ids| - 1], ids[|ids| - 1];
      assert ids == init + [id];
      ReportRowsSound(m, init, replies, parse);
      ReportRowsSnoc(m, init, id, replies, parse);
    }
  }

  /** The listed messages whose extraction succeeded. */
  function ExtractedIds(m: map<int, Sms>, ids: seq<int>, replies: Replies, parse: Parser): set<int> {
    set id | id in ids && id in m && Extracted(replies, parse, id)
  }

  lemma ExtractedIdsSnoc(m: map<int, Sms>, ids: seq<int>, id: int, replies: Replies, parse: Parser)
    ensures ExtractedIds(m, ids + [id], replies, parse) ==
      ExtractedIds(m, ids, replies, parse) + (if id in m && Extracted(replies, parse, id) then {id} else {})
  {
    assert forall x :: x in ids + [id] <==> x in ids || x == id;
  }

  /** A report is inserted for exactly the listed messages whose extraction succeeded. */
  lemma {:induction false} ReportRowsKeys(m: map<int, Sms>, ids: seq<int>, replies: Replies, parse: Parser)
    ensures KeysIn(ReportRows(m, ids, replies, parse), SmsOf) == ExtractedIds(m, ids, replies, parse)
    decreases |ids|
  {
    if ids != [] {
      var init, id := ids[..|ids| - 1], ids[|ids| - 1];
      assert ids == init + [id];
      ReportRowsKeys(m, init, replies, parse);
      ReportRowsSnoc(m, init, id, replies, parse);
      ExtractedIdsSnoc(m, init, id, replies, parse);
      var before := ReportRows(m, init, replies, parse);
      if id in m && Extracted(replies, parse, id) {
        KeysInSnoc(before, SmsOf, NewReport(id, m[id].body, Extract(replies(id), parse).value));
      } else {
        assert before + [] == before;
      }
    }
  }

  /** One more message of the work list. */
  lemma ReportStep(t: Serial<ProcessedSms>, snapshot: map<int, Sms>, order: seq<int>, i: nat,
                   replies: Replies, parse: Parser)
    requires i < |order| && order[i] in snapshot
    ensures SerialPutAll(t, SmsOf, ReportRows(snapshot, order[..i + 1], replies, parse)) ==
      if Extracted(replies, parse, order[i])
      then SerialPut(SerialPutAll(t, SmsOf, ReportRows(snapshot, order[..i], replies, parse)), SmsOf,
                     NewReport(order[i], snapshot[order[i]].body, Extract(replies(order[i]), parse).value))
      else SerialPutAll(t, SmsOf, ReportRows(snapshot, order[..i], replies, parse))
  {
    assert order[..i + 1] == order[..i] + [order[i]];
    ReportRowsSnoc(snapshot, order[..i], order[i], replies, parse);
    var before := ReportRows(snapshot, order[..i], replies, parse);
    if Extracted(replies, parse, order[i]) {
      SerialPutAllSnoc(t, SmsOf, before, NewReport(order[i], snapshot[order[i]].body, Extract(replies(order[i]), parse).value));
    } else {
      assert before + [] == before;
    }
  }

  /** Every message of the work list is a row of `sms_reports`. */
  lemma ListedAreMessages(s: Serial<Sms>, t: Serial<ProcessedSms>, order: seq<int>)
    requires Enumerates(order, Unextracted(s, t))
    ensures forall i :: 0 <= i < |order| ==> order[i] in s.rows
  {
    assert forall i :: 0 <= i < |order| ==> order[i] in Elems(order);
  }

  /** The loop body for one message: extract its details and insert a report when there are some. */
  method ProcessOne(db: Db, snapshot: map<int, Sms>, order: seq<int>, i: nat, replies: Replies, parse: Parser,
                    ghost t0: Serial<ProcessedSms>)
    requires i < |order| && order[i] in snapshot
    requires db.processedSms == SerialPutAll(t0, SmsOf, ReportRows(snapshot, order[..i], replies, parse))
    requires db.Valid()
    modifies db`processedSms
    ensures db.processedSms == SerialPutAll(t0, SmsOf, ReportRows(snapshot, order[..i + 1], replies, parse))
    ensures db.Valid()
  {
    var id := order[i];
    ReportStep(t0, snapshot, order, i, replies, parse);
    var details := Extract(replies(id), parse);
    if details.Some? {
      db.InsertProcessedSms(NewReport(id, snapshot[id].body, details.value));
    }
  }

  /**
   * The loop of `sms_processer.py`; `order` is the order in which the anti-join returned the
   * messages. The batch keeps the table's invariant (`SerialPutAllValid`).
   */
  method ProcessSms(db: Db, order: seq<int>, replies: Replies, parse: Parser)
    requires Enumerates(order, Unextracted(db.sms, db.processedSms))
    requires db.Valid()
    modifies db`processedSms
    ensures db.processedSms == SerialPutAll(old(db.processedSms), SmsOf, ReportRows(old(db.sms).rows, order, replies, parse))
    ensures db.Valid()
  {
    var snapshot := db.sms.rows;
    ListedAreMessages(db.sms, db.processedSms, order);
    var i := 0;
    while i < |order|
      invariant 0 <= i <= |order|
      invariant db.Valid()
      invariant db.processedSms == SerialPutAll(old(db.processedSms), SmsOf, ReportRows(snapshot, order[..i], replies, parse))
    {
      ProcessOne(db, snapshot, order, i, replies, parse, old(db.processedSms));
      i := i + 1;
    }
    assert order[..i] == order;
  }

  /** After a run, the messages the anti-join selects are exactly the ones whose extraction failed. */
  lemma OnlyFailuresReselected(s: Serial<Sms>, t: Serial<ProcessedSms>, order: seq<int>,
                               replies: Replies, parse: Parser)
    requires Fresh(t) && UniqueBy(t, SmsOf) && Enumerates(order, Unextracted(s, t))
    ensures Unextracted(s, SerialPutAll(t, SmsOf, ReportRows(s.rows, order, replies, parse)))
      == set id | id in order && !Extracted(replies, parse, id)
  {
    var rows := ReportRows(s.rows, order, replies, parse);
    SerialPutAllValid(t, SmsOf, rows);
    ReportRowsKeys(s.rows, order, replies, parse);
    assert forall id :: id in order ==> id in Elems(order);
  }
}
