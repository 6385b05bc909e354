/**
 * `load_sms_data.py`: the records of a JSON file become rows of `sms_reports`, inserted
 * one after another with `ON CONFLICT (message_sid) DO NOTHING`, in one transaction.
 */
module SmsIntake {
  import opened Wrappers
  import opened Tables
  import opened Json
  import opened Store

  /**
   * The tuple for one record: `from`, `to`, `body` and `messageSid` become `sender_number`,
   * `recipient_number`, `message_body` and `message_sid`. `None` when a key is missing, a
   * NOT NULL column (`sender_number`, `message_sid`) gets a null, or a value cannot be
   * stored as text.
   */
  function SmsRow(rec: Record): (r: Option<Sms>)
    ensures r.Some? <==>
      && "from" in rec && "to" in rec && "body" in rec && "messageSid" in rec
      && RequiredText(rec["from"]).Some? && TextColumn(rec["to"]).Some?
      && TextColumn(rec["body"]).Some? && RequiredText(rec["messageSid"]).Some?
    ensures r.Some? ==>
      && r.value.sender == RequiredText(rec["from"]).value
      && r.value.recipient == TextColumn(rec["to"]).value
      && r.value.body == TextColumn(rec["body"]).value
      && r.value.sid == RequiredText(rec["messageSid"]).value
  {
    if !("from" in rec && "to" in rec && "body" in rec && "messageSid" in rec) then None
    else
      var sender, recipient := RequiredText(rec["from"]), TextColumn(rec["to"]);
      var body, sid := TextColumn(rec["body"]), RequiredText(rec["messageSid"]);
      if sender.None? || recipient.None? || body.None? || sid.None? then None
      else Some(Sms(sender.value, recipient.value, body.value, sid.value))
  }

  /** The tuples for a whole file: `None` as soon as one record fails. */
  function SmsRows(recs: seq<Record>): (r: Option<seq<Sms>>)
    ensures r.Some? <==> forall i :: 0 <= i < |recs| ==> SmsRow(recs[i]).Some?
    ensures r.Some? ==> |r.value| == |recs| && forall i :: 0 <= i < |recs| ==> r.value[i] == SmsRow(recs[i]).value
    decreases |recs|
  {
    if recs == [] then Some([])
    else
      var init := SmsRows(recs[..|recs| - 1]);
      var last := SmsRow(recs[|recs| - 1]);
      if init.None? || last.None? then None else Some(init.value + [last.value])
  }

  /** The record a stored row comes from. */
  function Encode(s: Sms): Record {
    map["from" := Str(s.sender), "to" := FromText(s.recipient), "body" := FromText(s.body),
        "messageSid" := Str(s.sid)]
  }

  /** The field mapping loses nothing: a row read back from its record is the row. */
  lemma SmsRowEncode(s: Sms)
    ensures SmsRow(Encode(s)) == Some(s)
  {
    var rec := Encode(s);
    assert TextColumn(rec["to"]) == Some(s.recipient);
    assert TextColumn(rec["body"]) == Some(s.body);
  }

  datatype Outcome = NothingToInsert | Inserted | Aborted

  /** `execute_batch`: the rows inserted one after another. */
  method InsertBatch(db: Db, batch: seq<Sms>)
    requires db.Valid()
    modifies db`sms
    ensures db.sms == SerialPutAll(old(db.sms), SidOf, batch)
    ensures db.Valid()
  {
    var i := 0;
    while i < |batch|
      invariant 0 <= i <= |batch|
      invariant db.Valid()
      invariant db.sms == SerialPutAll(old(db.sms), SidOf, batch[..i])
    {
      assert batch[..i + 1] == batch[..i] + [batch[i]];
      SerialPutAllSnoc(old(db.sms), SidOf, batch[..i], batch[i]);
      db.InsertSms(batch[i]);
      i := i + 1;
    }
    assert batch[..i] == batch;
  }

  /** `insert_sms_data`: the tuples are built first, so a bad record aborts before any insert. */
  method InsertSmsData(db: Db, data: seq<Record>) returns (outcome: Outcome)
    requires db.Valid()
    modifies db`sms
    ensures SmsRows(data).None? ==> outcome == Aborted && db.sms == old(db.sms)
    ensures SmsRows(data).Some? ==> outcome == Inserted && db.sms == SerialPutAll(old(db.sms), SidOf, SmsRows(data).value)
    ensures db.Valid()
  {
    var rows := SmsRows(data);
    if rows.None? {
      return Aborted;
    }
    InsertBatch(db, rows.value);
    return Inserted;
  }

  /** The script's guard: nothing is inserted when the file gave `None` or an empty list. */
  method LoadSmsData(db: Db, loaded: Option<seq<Record>>) returns (outcome: Outcome)
    requires db.Valid()
    modifies db`sms
    ensures loaded.None? || loaded == Some([]) ==> outcome == NothingToInsert && db.sms == old(db.sms)
    ensures loaded.Some? && loaded.value != [] && SmsRows(loaded.value).None? ==> outcome == Aborted && db.sms == old(db.sms)
    ensures loaded.Some? && loaded.value != [] && SmsRows(loaded.value).Some? ==>
      outcome == Inserted && db.sms == SerialPutAll(old(db.sms), SidOf, SmsRows(loaded.value).value)
    ensures db.Valid()
  {
    if loaded.None? || loaded.value == [] {
      return NothingToInsert;
    }
    outcome := InsertSmsData(db, loaded.value);
  }

  /** Within one file the first record with a new `message_sid` is the row stored. */
  lemma FirstSidWins(t: Serial<Sms>, recs: seq<Record>, p: nat, id: int)
    requires Fresh(t) && UniqueBy(t, SidOf)
    requires SmsRows(recs).Some? && p < |recs|
    requires SmsRow(recs[p]).value.sid !in KeysBy(t, SidOf)
    requires forall j :: 0 <= j < p ==> SmsRow(recs[j]).value.sid != SmsRow(recs[p]).value.sid
    requires id in SerialPutAll(t, SidOf, SmsRows(recs).value).rows
    requires SerialPutAll(t, SidOf, SmsRows(recs).value).rows[id].sid == SmsRow(recs[p]).value.sid
    ensures SerialPutAll(t, SidOf, SmsRows(recs).value).rows[id] == SmsRow(recs[p]).value
  {
    SerialPutAllFirstWins(t, SidOf, SmsRows(recs).value, p, id);
  }

  /** Loading the same file again adds no row; existing rows are never modified. */
  lemma ReloadAddsNothing(t: Serial<Sms>, recs: seq<Record>)
    requires Fresh(t) && UniqueBy(t, SidOf) && SmsRows(recs).Some?
    ensures var once := SerialPutAll(t, SidOf, SmsRows(recs).value);
      && SerialPutAll(once, SidOf, SmsRows(recs).value).rows == once.rows
      && forall i :: i in t.rows ==> i in once.rows && once.rows[i] == t.rows[i]
  {
    SerialPutAllIdempotent(t, SidOf, SmsRows(recs).value);
    SerialPutAllValid(t, SidOf, SmsRows(recs).value);
  }
}
