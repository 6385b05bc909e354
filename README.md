# Disaster-report pipeline: a Dafny model

This project models the batch pipeline behind a flood-response dashboard for Vellore, and the
dashboard's server. The pipeline's data lives in one Postgres database. Each script reads the rows
that no earlier run has handled, calls an outside service once per row, and writes its results back:

- **Intake.** Tweets are loaded from a JSON file into `tweets`. SMS messages are loaded from a
  JSON file into `sms_reports`.
- **Classify and extract.** A language model labels each unclassified tweet. The tweets it
  labels "Actionable" are copied to `actionable_tweets`. The model also extracts a location, an
  issue and a time, which go into `incident_reports` or `processed_sms_reports`.
- **Cluster.** Unprocessed incident reports are embedded and clustered. Each cluster becomes one
  summarized `final_report` event, and its reports are marked `grouped`.
- **Geocode.** Events, incident locations and SMS reports are geocoded through an HTTP geocoder.
  The results go into `geocoded_tweets` and `geocoded_sms_data`, or are written back as
  latitude and longitude.
- **Dispatch.** The dashboard lists the active geocoded events. It toggles an event between
  `reported` and `dispatched`, and marks it `completed`.

## How it is modelled

- **The database** is the class `Store.Db`, with one field per table. The field type depends on
  how the table is keyed:
  - A table keyed by a natural unique column (`tweets.id`, `actionable_tweets.source_tweet_id`,
    `geocoded_tweets.source_report_id`, `geocoded_sms_data.source_sms_id`) is a map.
  - A table with a `SERIAL` id and a separate `UNIQUE` source column is a `Tables.Serial`: a map
    of rows plus the next sequence value. The sequence advances on every attempted insert,
    because the conflict check comes after `nextval`.
- **SQL statements.** Every INSERT and UPDATE the scripts issue is one method of `Db`, and every
  SELECT is a selection function such as `Grouper.Ungrouped` or `Store.UncodedNames`. Each method states
  the new table as a pure function of the old one, for example `Tables.Put`, `Tables.SerialPut`,
  `Store.MarkGrouped` or `Store.SetCoords`. The tables with a `SERIAL` id are well formed
  (`Store.Db.Valid`): the new database is, and every method that writes one of them keeps it so.
- **JSON values in columns.** `Json.TextColumn` is what psycopg2 and Postgres make of a value
  `json.load` produced when it is bound to a TEXT column. A list becomes a Postgres array, and the
  column stores the array's text (`PgArray.Literal`). `PgArray.ReadArray` reads that text back, and
  `PgArray.LiteralReadsBack` shows that the text loses no element.
- **Script main loops.** Each one is a method proved against a fold over its work list. The
  main theorems are proved about those folds:
  - which rows a run adds, and that each added row holds the right values;
  - that a re-run selects exactly the rows the outside service failed on;
  - that every clustered report ends up in the event of its own cluster and in no other one.
- **Outside services are function parameters:**
  - the language-model replies, keyed by source row (`None` means the call raised);
  - `json.loads`;
  - the embedding-and-clustering step;
  - the geocoder's HTTP reply for a query string;
  - the location-cleaning model.
- **Order of work lists.** A `SELECT` has no `ORDER BY`, and `set(labels)` has no fixed
  iteration order. So each list is an input `order` or `visit`, required to enumerate the
  selected set exactly once. Every result holds for any such order.

## Behaviour of the code worth knowing

Some of what the scripts and the server do is easy to miss when reading them, and the model
states it as the code has it:

- **Dispatching a completed event** sets it to `dispatched`. Nothing guards the `completed`
  state (`Dispatch.DispatchAfterComplete`).
- **Dispatching an unknown id** fails with a server error: `fetchone()` returns `None`, and
  indexing it raises. The table is unchanged.
- **Completing an unknown id** reports success and changes nothing (`Dispatch.CompleteIdempotent`).
- **The grouper's two writes are separate transactions.** It inserts the `final_report` row and
  then marks the member reports as `grouped`, each with its own commit. The model still states
  the final state of a run that is not interrupted.
- **The two SMS geocoders key their anti-join differently:**
  - `sms_geocoder.py` uses `original_sms_id`.
  - `sms_geocoder_2.py` uses the report's own `id`.
  - So the same stored row counts as done for one script and as pending for the other
    (`SmsGeocoder.KeySchemesDisagree`).
- **`tweet_geocoder_1.py` has no `status` column**, but `geocoded_tweets` is one table. The model
  uses the schema of `tweet_geocoder_new.py`, where `status` defaults to `reported`.

## Model

| member | source | states |
|---|---|---|
| Dispatch.Toggle | api_server_new.py:69 | the new status is `reported` exactly when the current one is `dispatched`, and `dispatched` in every other case |
| Dispatch.ToggleTwice | api_server_new.py:69 | toggling twice gives back the original status if and only if it was `reported` or `dispatched` |
| Dispatch.AfterDispatch | api_server_new.py:67-73 | dispatching keeps the set of events, gives the chosen event the toggled status, and leaves every other event unchanged |
| Dispatch.AfterComplete | api_server_new.py:88-91 | completing keeps the set of events, sets the chosen event to `completed`, and leaves every other event unchanged |
| Dispatch.ActiveIncidents | api_server_new.py:31-54 | an event is listed if and only if the connection succeeded, both coordinates are non-null and its status is not `completed`; listed events are returned as stored |
| Dispatch.DispatchIncident | api_server_new.py:60-79 | no connection: error 500, nothing changes; unknown id: server error, nothing changes; otherwise success, and the reported new status is the toggled one and is the one stored |
| Dispatch.CompleteIncident | api_server_new.py:81-97 | no connection: error 500, nothing changes; otherwise success, even when no row matched, with the event completed |
| Dispatch.DispatchTwiceRestores | api_server_new.py:60-79 | two dispatches of a `reported` or `dispatched` event restore the table exactly |
| Dispatch.DispatchAfterComplete | api_server_new.py:67-69 | a completed event that is dispatched becomes `dispatched` again |
| Dispatch.CompleteIdempotent | api_server_new.py:88-91 | completing twice equals completing once, and completing an unknown id changes nothing |
| Dispatch.ActiveAfterComplete | api_server_new.py:45 | completing an event removes exactly that event from the active list |
| Dispatch.ActiveAfterDispatch | api_server_new.py:45 | dispatching an event that has coordinates makes it active, and changes no other event's membership |
| Store.Db.constructor | twitter_moniter_offline.py:28-37 | a fresh database has every table empty and every sequence at 1, and is well formed |
| Store.Db.InsertTweet | twitter_moniter_offline.py:48-51 | the tweet is added unless its id is already present |
| Store.Db.InsertActionableTweet | tweet_classify.py:106-114 | the actionable row is added unless its source tweet is already present |
| Store.Db.UpdateTweetStatus | tweet_classify_processer.py:164-172 | only the named tweet's status changes |
| Store.Db.InsertIncidentReport | tweet_processer_1.py:71-87 | the report is added under the next sequence value unless its tweet already has one; the sequence advances either way; the database stays well formed |
| Store.Db.UpdateIncidentStatus | tweet_grouper.py:88-95 | exactly the listed reports become `grouped`; the database stays well formed |
| Store.Db.InsertFinalEventReport | tweet_grouper.py:78-86 | a new event row is appended under the next sequence value, and its report count is the number of member ids; the database stays well formed |
| Store.Db.UpdateLocationWithCoords | tweets_geocoder.py:86-95 | every incident report with exactly that location gets the coordinates, and no other row changes; the database stays well formed |
| Store.Db.InsertSms | load_sms_data.py:58-61 | the message is added under the next sequence value unless its `message_sid` is already present; the sequence advances either way; the database stays well formed |
| Store.Db.InsertProcessedSms | sms_processer.py:70-86 | the processed report is added unless its SMS already has one; the database stays well formed |
| Store.Db.UpdateSmsLocationWithCoords | sms_geocoder_1.py:116-125 | every processed SMS report with exactly that location gets the coordinates, and no other row changes; the database stays well formed |
| Store.Db.InsertGeocodedReport | tweet_geocoder_new.py:77-92 | the geocoded event is added unless its source event is already present |
| Store.Db.InsertGeocodedSms | sms_geocoder.py:96-118 | the geocoded SMS row is added unless its source key is already present |
| Store.Db.UpdateGeocodedStatus | api_server_new.py:70-73 | only the named event's status changes |
| Store.SetTweetStatus | tweet_classify.py:116-124 | the keys are kept, the named tweet gets the new status and keeps its text, and every other tweet is unchanged |
| Store.MarkGrouped | tweet_grouper.py:91-93 | the keys and the sequence are kept; reports in the id set become `grouped` and every other report is unchanged |
| Store.SetCoords | tweets_geocoder.py:90-92 | the keys and the sequence are kept; rows whose location equals the name get the point, and the other rows are unchanged (the same statement over `processed_sms_reports` in sms_geocoder_1.py) |
| Store.SetGeocodedStatus | api_server_new.py:70-73 | the keys are kept; the named event gets the new status and every other event is unchanged |
| Store.MarkGroupedValid | tweet_grouper.py:88-95 | marking reports grouped keeps the serial table well formed, and keeps its set of source tweet ids |
| Store.SetCoordsValid | tweets_geocoder.py:86-95 | writing coordinates keeps the table well formed and keeps its set of source ids, for any source column the coordinates are not part of |
| Tables.PutAllKeys | twitter_moniter_offline.py:48-68 | a batch of insert-if-absent statements leaves the old keys plus the batch's keys |
| Tables.PutAllKeeps | twitter_moniter_offline.py:51 | a row already present is never overwritten by a batch |
| Tables.PutAllFirstWins | twitter_moniter_offline.py:51 | a new key takes the value of its first occurrence in the batch |
| Tables.PutAllFrom | twitter_moniter_offline.py:51 | every row a batch adds comes from the batch |
| Tables.PutAllPresent | twitter_moniter_offline.py:51 | a batch whose keys are all present changes nothing |
| Tables.PutAllIdempotent | twitter_moniter_offline.py:48-68 | running the same batch twice equals running it once |
| Tables.AppendAllSpec | tweet_grouper.py:54-61 | plain inserts into a serial table number the rows consecutively from the sequence value, in order, keep the old rows, add no other id, and keep the table well formed |
| Tables.SerialPutValid | tweet_processer_1.py:75-78 | one insert-if-absent keeps a serial table well formed, adds the new source key and keeps the old rows |
| Tables.SerialPutAllValid | load_sms_data.py:58-75 | a batch keeps the table well formed, advances the sequence once per attempted row, adds the batch's source keys and keeps the old rows |
| Tables.SerialPutAllFirstWins | load_sms_data.py:61 | the stored row for a new source key is the first row in the batch with that key |
| Tables.SerialPutAllPresent | load_sms_data.py:61 | a batch whose source keys are all present adds no row |
| Tables.SerialPutAllIdempotent | load_sms_data.py:58-75 | re-running a batch adds no row |
| Text.LeadingEndSpec | tweet_classify.py:50 | the scan skips exactly the whitespace before the first non-whitespace character |
| Text.TrailingStartSpec | tweet_classify.py:50 | the backward scan skips exactly the trailing whitespace |
| Text.StripSpec | tweet_classify.py:50 | `strip()` removes only whitespace from the two ends, and the result neither starts nor ends with whitespace |
| Text.StripKeepsTrimmed | tweet_classify.py:50 | a text with no whitespace at either end is unchanged by `strip()` |
| Text.CleanResponseHasNoFence | tweet_classify.py:50 | after the clean-up, the reply contains no three-backtick fence |
| Text.RemoveAllFenceLeavesNoFence | tweet_classify.py:50 | removing every three-backtick fence leaves none, even when removals bring backticks together |
| Text.RemoveAllKeepsTickFree | tweet_classify.py:50 | a text with no backtick is unchanged by either replacement |
| Text.RemoveAllTickFreeHead | tweet_classify.py:50 | a backtick-free prefix passes through a replacement unchanged |
| Text.CleanKeepsPlainJson | tweet_classify.py:50 | an already trimmed reply without backticks is passed to `json.loads` as is |
| Text.CleanFencedJson | tweet_classify.py:50 | a reply fenced as a JSON code block is reduced to its body |
| Text.ShowNatDigits | twitter_moniter_offline.py:58 | the decimal form of a natural number is non-empty, all digits, and reads back as that number |
| Text.ParseUnsigned | twitter_moniter_offline.py:58 | `int()` of a digit string is its decimal value |
| Text.ParseNegative | twitter_moniter_offline.py:58 | `int()` of a minus sign followed by digits is the negated value |
| Text.IntRoundTrip | twitter_moniter_offline.py:58 | `int(str(n)) == n` for every integer |
| Json.TextColumn | twitter_moniter_offline.py:56-66 | a JSON value fits a nullable text column unless it is an object or a non-empty list whose elements Postgres cannot give one type; null is stored as NULL, a string as itself, an integer as its decimal form, a boolean as `true` or `false`, a float as Postgres numeric text, an empty list as `{}`, and any other list as array text that reads back as its elements |
| Json.ArrayText | twitter_moniter_offline.py:56-66 | an empty list is stored as `{}`; a non-empty list is stored exactly when its elements are scalars whose non-null ones share one type, and the stored text reads back as the list's element texts |
| Json.CommonUniform | twitter_moniter_offline.py:56-66 | the element type Postgres settles on element by element exists exactly when the elements are scalars of one type apart from NULLs, and it is that type |
| PgArray.QuotedReadsBack | twitter_moniter_offline.py:56-66 | a quoted array element, escapes included, reads back as the text that was quoted |
| PgArray.ElementReadsBack | twitter_moniter_offline.py:56-66 | every array element as array output writes it, quoted, unquoted or NULL, reads back as that element when followed by a comma or the end |
| PgArray.ItemsReadBack | twitter_moniter_offline.py:56-66 | the comma-separated elements of a non-empty array read back as the element list |
| PgArray.LiteralReadsBack | twitter_moniter_offline.py:56-66 | the text of any one-dimensional array reads back as its element list |
| Json.FromText | twitter_moniter_offline.py:56-66 | every column value comes from some JSON value |
| Json.RequiredText | twitter_moniter_offline.py:59 | a NOT NULL text column rejects exactly nulls and the values a nullable column rejects, and stores the same text as a nullable column |
| Json.NumberColumnReadsBack | twitter_moniter_offline.py:58 | a number stored as text parses back to that number |
| Json.Int | twitter_moniter_offline.py:58 | `int()` keeps an integer, gives 1 or 0 for a boolean, truncates a float toward zero, parses a string, and fails on null, lists and dicts |
| Json.IntOfShownNumber | twitter_moniter_offline.py:58 | `int()` of an id written as a decimal string is that id |
| Json.Truncate | twitter_moniter_offline.py:58 | the quotient rounded toward zero: its magnitude times the divisor is within one divisor below the magnitude of the dividend, and it is zero or has the dividend's sign |
| Json.DigitsValueOf | twitter_moniter_offline.py:56-66 | a fraction written with a fixed number of digits reads back as that number |
| Json.FractionText | twitter_moniter_offline.py:56-66 | the numeric text of a float with a fraction is the truncated value, a point, and the remainder in exactly as many digits as the fraction has |
| Json.FloatTextAgreesWithInt | twitter_moniter_offline.py:56-66 | the text a float leaves in a text column agrees with `int()` of the float: the integer part reads back as the truncated value |
| Llm.Get | tweet_classify.py:52 | `dict.get` gives the stored value when the key is present, and the default otherwise |
| Llm.Decode | tweet_classify.py:48-55 | a call that raised gives no object |
| Llm.DecodeSeesNoFence | tweet_classify.py:50-51 | the parser only ever sees fence-free text, so two parsers that agree on such text decode every reply alike |
| Llm.DecodeFencedReply | tweet_classify.py:50-51 | a reply fenced as a JSON code block is parsed as its body |
| Llm.Extract | tweet_processer_1.py:107-141 | details exist if and only if the reply parsed to a non-empty object; missing keys default to "Extraction Failed" and present keys are copied, null included |
| Llm.Classify | tweet_classify.py:7-55 | the label is the `classification` value, "Error" if the key is missing, and "Error" if the call raised or the reply did not parse |
| Llm.ActionableIff | tweet_classify.py:152 | a tweet counts as actionable if and only if the cleaned reply parsed to an object whose `classification` is "Actionable" |
| Llm.Summarize | tweet_grouper.py:139-153 | summary and location come from the parsed object, defaulting to "Could not generate summary." and "Not specified"; a failed call or parse gives ("Could not generate summary.", "Error") |
| Llm.CleanLocation | sms_geocoder_1.py:25-47 | the stripped model reply, or the input unchanged when no Google key is set or the call raised |
| Geocoder.GetCoordinates | tweets_geocoder.py:21-45 | a point is returned if and only if the key is set, the request succeeded and there is at least one result; it is the first result |
| Geocoder.Query | tweets_geocoder.py:121 | the query is the rendered location followed by the suffix |
| Geocoder.QueryInjective | tweets_geocoder.py:121 | two locations give the same query if and only if they render alike |
| Geocoder.NullLocationQuery | tweet_geocoder_new.py:107-109 | a null location is sent as "None, Vellore", the same query as a location literally named "None" |
| TweetIntake.TweetId | twitter_moniter_offline.py:58 | an id is accepted if and only if `int()` succeeds and the value fits in BIGINT |
| TweetIntake.Timestamp | twitter_moniter_offline.py:60 | a timestamp is accepted only as a string |
| TweetIntake.Row | twitter_moniter_offline.py:56-66 | a record maps to a row if and only if all five required keys exist and every column accepts its value (a list is accepted by the text columns); a missing `geo_data` becomes JSON null, and the status starts `unclassified` |
| TweetIntake.Rows | twitter_moniter_offline.py:56-66 | a file maps to rows if and only if every record does, one row per record in order |
| TweetIntake.RowEncode | twitter_moniter_offline.py:56-66 | every storable tweet has a record that maps back to it |
| TweetIntake.InsertBatch | twitter_moniter_offline.py:68 | the batch statement leaves the table equal to the insert-if-absent fold of the rows |
| TweetIntake.InsertTweets | twitter_moniter_offline.py:41-75 | an empty file inserts nothing; a bad record aborts before any write; otherwise every row is inserted unless its id is present |
| TweetIntake.FirstRecordWins | twitter_moniter_offline.py:51 | for a new id, the stored tweet is the one from its first record in the file |
| TweetIntake.IntakeKeys | twitter_moniter_offline.py:48-68 | after a load, the table's ids are the old ids plus the file's ids |
| SmsIntake.SmsRow | load_sms_data.py:64-71 | a record maps to a row if and only if `from`, `to`, `body` and `messageSid` exist, the NOT NULL columns get non-null values and every column accepts its value (a list is stored as array text); each column holds its field's text |
| SmsIntake.SmsRows | load_sms_data.py:64-71 | a file maps to rows if and only if every record does, one per record in order |
| SmsIntake.SmsRowEncode | load_sms_data.py:64-71 | every message row has a record that maps back to it |
| SmsIntake.InsertBatch | load_sms_data.py:73-75 | the batch statement leaves the table equal to the serial insert-if-absent fold of the rows; the database stays well formed |
| SmsIntake.InsertSmsData | load_sms_data.py:55-79 | a bad record aborts before any write; otherwise every message is inserted unless its `message_sid` is present; the database stays well formed |
| SmsIntake.LoadSmsData | load_sms_data.py:82-100 | no file or an empty file inserts nothing; otherwise the batch is attempted; the database stays well formed |
| SmsIntake.FirstSidWins | load_sms_data.py:61 | for a new `message_sid`, the stored message is its first record in the file |
| SmsIntake.ReloadAddsNothing | load_sms_data.py:58-75 | loading the same file twice stores the same rows as loading it once |
| TweetClassify.Pending | tweet_classify.py:96-104 | a tweet is selected if and only if its status is `unclassified` |
| TweetClassify.SetStatusesSpec | tweet_classify.py:116-124 | after the status updates, the listed tweets have the new status and every other tweet is unchanged |
| TweetClassify.RerunSelectsNothing | tweet_classify.py:101 | after a run, no tweet is selected again |
| TweetClassify.ActionableRowsSound | tweet_classify.py:147-153 | every actionable row is a listed tweet labelled "Actionable", carrying that tweet's text |
| TweetClassify.ActionableRowsKeys | tweet_classify.py:152-153 | the actionable rows are keyed by exactly the listed tweets labelled "Actionable" |
| TweetClassify.ActionableInsertedIff | tweet_classify.py:152-153 | a listed tweet not yet copied is copied if and only if its label is "Actionable" |
| TweetClassify.MarkOne | tweet_classify.py:157 | one status update advances the fold by one tweet |
| TweetClassify.ClassifyOne | tweet_classify.py:149-154 | one classification advances the actionable fold by one tweet |
| TweetClassify.ClassifyAndMark | tweet_classify.py:147-158 | one loop iteration advances both folds by one tweet |
| TweetClassify.ClassifyTweets | tweet_classify.py:127-160 | the run copies exactly the actionable tweets and marks every selected tweet `classified` |
| TweetExtract.Unextracted | tweet_processer_1.py:55-69 | a tweet is selected if and only if it has no incident report |
| TweetExtract.ReportRowsSound | tweet_processer_1.py:130-146 | every report row comes from a listed tweet whose extraction succeeded, with that tweet's text and the extracted details |
| TweetExtract.ReportRowsKeys | tweet_processer_1.py:135-144 | the report rows are keyed by exactly the listed tweets whose extraction succeeded |
| TweetExtract.ExtractOne | tweet_processer_1.py:132-144 | one extraction advances the report fold by one tweet; the database stays well formed |
| TweetExtract.ExtractTweets | tweet_processer_1.py:119-153 | the run's incident table equals the serial insert-if-absent fold of the successful extractions; the database stays well formed |
| TweetExtract.OnlyFailuresReselected | tweet_processer_1.py:59-63 | after a run, the tweets selected again are exactly the listed ones whose extraction failed |
| TweetClassifyProcess.ProcessOne | tweet_classify_processer.py:190-224 | one iteration advances the report, actionable and status folds by one tweet; the database stays well formed |
| TweetClassifyProcess.ProcessEach | tweet_classify_processer.py:190-224 | the loop's tables equal the three folds over the work list; the database stays well formed |
| TweetClassifyProcess.ProcessTweets | tweet_classify_processer.py:174-229 | a run stores the successful extractions, copies the actionable tweets and marks every selected tweet `processed`; the database stays well formed |
| TweetClassifyProcess.FailedExtractionIsDropped | tweet_classify_processer.py:199-224 | a tweet whose extraction failed gets no report, yet is marked `processed`, so it is never selected again |
| SmsExtract.Unextracted | sms_processer.py:54-68 | a message is selected if and only if it has no processed report |
| SmsExtract.ReportRowsSound | sms_processer.py:129-145 | every processed report comes from a listed message whose extraction succeeded, with its body and the extracted details |
| SmsExtract.ReportRowsKeys | sms_processer.py:134-143 | the processed reports are keyed by exactly the listed messages whose extraction succeeded |
| SmsExtract.ProcessOne | sms_processer.py:131-143 | one extraction advances the report fold by one message; the database stays well formed |
| SmsExtract.ProcessSms | sms_processer.py:118-152 | the run's processed table equals the serial insert-if-absent fold of the successful extractions; the database stays well formed |
| SmsExtract.OnlyFailuresReselected | sms_processer.py:58-62 | after a run, the messages selected again are exactly the listed ones whose extraction failed |
| Grouper.Ungrouped | tweet_grouper.py:66-76 | a report is selected if and only if its status is `unprocessed` |
| Grouper.Labels | tweet_grouper.py:165-178 | labels exist only for a non-empty work list, one label per report |
| Grouper.EmbeddingText | tweet_grouper.py:168 | a report's embedding text is its rendered location, then ": ", then its rendered issue |
| Grouper.MembersInOrder | tweet_grouper.py:183-185 | a cluster lists its members in fetch order |
| Grouper.MembersSpec | tweet_grouper.py:183-185 | a cluster's member list holds exactly the reports with that label |
| Grouper.MembersNonEmpty | tweet_grouper.py:178-183 | every label that occurs has at least one member |
| Grouper.MembersDisjoint | tweet_grouper.py:183-185 | no report is a member of two clusters |
| Grouper.CoveredStep | tweet_grouper.py:179-200 | visiting a label marks its members, and visiting the noise label marks nothing |
| Grouper.CoveredAll | tweet_grouper.py:178-181 | after all labels, the marked reports are exactly the clustered ones |
| Grouper.MarkGroupedTwice | tweet_grouper.py:88-95 | marking two id sets one after the other equals marking their union |
| Grouper.EventRowsLength | tweet_grouper.py:179-199 | one event is written per non-noise label visited |
| Grouper.NotNoiseDistinct | tweet_grouper.py:178-181 | for distinct labels, the visited non-noise labels are as many as the distinct non-noise labels |
| Grouper.EventRowsCount | tweet_grouper.py:178-199 | a run writes exactly as many events as there are distinct non-noise labels |
| Grouper.EventRowsComplete | tweet_grouper.py:183-199 | every non-noise label visited has its event among the written rows |
| Grouper.EventRowsSound | tweet_grouper.py:183-199 | every written event is the event of one visited non-noise label: its ids are that cluster, none of them noise, and its count is their number |
| Grouper.ClusteredReportInEvent | tweet_grouper.py:178-199 | when every label is visited, each report not labelled noise is among the ids of an inserted event, the event of its own cluster |
| Grouper.ReportInOwnEventOnly | tweet_grouper.py:183-199 | when no report is fetched twice, a written event that holds a report is the event of that report's own cluster, and the report is not noise |
| Grouper.EventsDisjoint | tweet_grouper.py:183-199 | when no report is fetched twice, two written events that share a report are the same event |
| Grouper.GroupOne | tweet_grouper.py:183-200 | one cluster advances the event and status folds by one label; the database stays well formed |
| Grouper.GroupIncidents | tweet_grouper.py:156-206 | a failed embedding changes nothing; otherwise the events are the cluster events and exactly the clustered reports become `grouped`; the database stays well formed |
| Grouper.NoiseReselected | tweet_grouper.py:180-181 | after a clustering run, the reports selected again are exactly the noise ones |
| EventGeocoder.Ungeocoded | tweet_geocoder_new.py:66-71 | an event is selected if and only if it has no geocoded row |
| EventGeocoder.UngeocodedNamed | tweet_geocoder_1.py:74-84 | an event is selected if and only if it has no geocoded row and has a location other than "Not specified" |
| EventGeocoder.GeoRowsSound | tweet_geocoder_new.py:106-114 | every geocoded row comes from a listed event the geocoder found, with the first result's coordinates and status `reported` |
| EventGeocoder.GeoRowsKeys | tweet_geocoder_new.py:106-114 | the geocoded rows are keyed by exactly the listed events found |
| EventGeocoder.GeocodeOne | tweet_geocoder_new.py:107-114 | one lookup advances the geocoded fold by one event |
| EventGeocoder.GeocodeEvents | tweet_geocoder_new.py:105-115 | the loop's table equals the insert-if-absent fold of the found events |
| EventGeocoder.GeocodeReports | tweet_geocoder_new.py:96-123 | a run over the unselected events stores exactly the found ones |
| EventGeocoder.GeocodeNamedReports | tweet_geocoder_1.py:119-159 | with a key or URL missing nothing changes; otherwise the found named events are stored |
| EventGeocoder.GeocodedIff | tweet_geocoder_new.py:109-114 | a listed event is stored if and only if the lookup of "<location>, Vellore" found it, and then with that event's fields |
| EventGeocoder.OnlyFailuresReselected | tweet_geocoder_new.py:66-71 | after a run, the events selected again are exactly the listed ones not found |
| EventGeocoder.OnlyFailuresReselectedNamed | tweet_geocoder_1.py:74-84 | the same for the named-event variant |
| Store.UncodedNames | tweets_geocoder.py:67-84 | a name is selected if and only if some report without a latitude has it as its location, and it is not "Not specified" (the same query over `processed_sms_reports` in sms_geocoder_1.py) |
| IncidentGeocoder.Located | tweets_geocoder.py:86-95 | geocoding changes only a report's coordinates |
| IncidentGeocoder.CoordsFoldRows | tweets_geocoder.py:118-134 | a run keeps every row and the sequence, and leaves each row as its closed form: the coordinates of the last found name equal to its location |
| IncidentGeocoder.CodedRowsKept | tweets_geocoder.py:86-95 | a row with coordinates whose location was not looked up is unchanged |
| IncidentGeocoder.LocateOne | tweets_geocoder.py:118-134 | one lookup advances the coordinates fold by one name; the database stays well formed |
| IncidentGeocoder.GeocodeLocations | tweets_geocoder.py:99-134 | with a key or URL missing nothing changes; otherwise the table equals the coordinates fold over the names; the database stays well formed |
| IncidentGeocoder.OnlyFailuresReselected | tweets_geocoder.py:75-80 | after a run, the names selected again are exactly the listed names the geocoder did not find |
| SmsLocationGeocoder.CleanerFailureFallsBack | sms_geocoder_1.py:44-47 | when the cleaning call raises, the raw name is what gets geocoded |
| SmsLocationGeocoder.Located | sms_geocoder_1.py:116-125 | geocoding changes only a report's coordinates |
| SmsLocationGeocoder.CoordsFoldRows | sms_geocoder_1.py:143-158 | a run keeps every row and the sequence, and leaves each row as its closed form |
| SmsLocationGeocoder.LocateOne | sms_geocoder_1.py:143-158 | one cleaned lookup advances the coordinates fold by one name; the database stays well formed |
| SmsLocationGeocoder.GeocodeSmsLocations | sms_geocoder_1.py:129-160 | with a key or URL missing nothing changes; otherwise the table equals the coordinates fold over the names; the database stays well formed |
| SmsLocationGeocoder.OnlyFailuresReselected | sms_geocoder_1.py:104-110 | after a run, the names selected again are exactly the listed names whose cleaned lookup failed |
| SmsGeocoder.SchemeKeysUnique | sms_geocoder_2.py:108-114 | both key schemes are unique on a well-formed processed table |
| SmsGeocoder.Ungeocoded | sms_geocoder.py:75-87 | a report is selected if and only if it has a usable location and its key has no geocoded row |
| SmsGeocoder.GeoRowsSound | sms_geocoder.py:135-150 | every geocoded row comes from a listed report that was found, under that report's key, with its fields and the first result |
| SmsGeocoder.GeoRowsKeys | sms_geocoder.py:135-150 | the geocoded rows are keyed by exactly the keys of the reports found |
| SmsGeocoder.GeocodeOne | sms_geocoder.py:137-150 | one lookup advances the geocoded fold by one report, for either script's query |
| SmsGeocoder.GeocodeSms | sms_geocoder.py:122-152 | with a key or URL missing nothing changes; otherwise the found reports are stored |
| SmsGeocoder.GeocodedIff | sms_geocoder_2.py:167-183 | with unique keys, a listed report is stored if and only if it was found, and then with its own fields |
| SmsGeocoder.OnlyFailuresReselected | sms_geocoder.py:84-86 | with unique keys, the reports selected again are exactly the listed ones not found |
| SmsGeocoder.KeySchemesDisagree | sms_geocoder_2.py:108-115 | a concrete report counts as done under `original_sms_id` keys and as pending under row-id keys |

## Left out

- **Outside services** are function parameters, not implementations: the language models
  (Gemini), the embedding service, DBSCAN clustering, `json.loads` and the OpenCage HTTP
  geocoder. Their internal behaviour, prompts and rate limits are outside the model.
- **Timing and output.** `time.sleep`, printed progress messages, the `generated_at` and
  `geocoded_at` defaults, and `rowcount` reporting are not modelled. The intake outcome says only
  whether the batch was attempted.
- **Schema set-up** is not modelled: `CREATE TABLE`, `ALTER TABLE ... ADD COLUMN`, reading
  `.env` and the missing-URL checks. The state starts from the tables as they exist.
- **Flask server plumbing** is not modelled: routing, JSON encoding, `/api/pois` (a constant
  list) and serving the dashboard HTML file.
- **Exceptions part-way through a loop** are not modelled: a database error, a geocoder body
  without `results` or `geometry`, or a non-string value in a parsed reply. The model states
  the state of a run that finishes.
- Llm.Extract: a reply that parses to a JSON value other than an object (a non-empty list, a
  non-empty string, a non-zero number, `true`) makes the caller's `extracted_data.get` raise
  AttributeError outside any `try` (tweet_processer_1.py:135-138, sms_processer.py:134-137,
  tweet_classify_processer.py:201-204), which ends the whole run. The model's `Parser` yields
  only objects or no JSON, so that crash is not modelled. The classify and summarize paths
  catch the same error, and the model's fallbacks for them are the code's.
- Geocoder.GetCoordinates: a result without a `formatted` key raises KeyError in
  `get_coordinates` (tweets_geocoder.py:38, tweet_geocoder_1.py:37, sms_geocoder.py:38,
  sms_geocoder_1.py:68, sms_geocoder_2.py:68), which no `except` there catches. The model's
  reply carries only points, so that crash is not modelled.
- **Grouper partial runs.** Its `final_report` insert and its status update are separate commits,
  so an interruption between them would leave an event whose reports are still `unprocessed`; the
  model does not state that intermediate state.
- **Burned sequence values.** Sequence values used up by a batch that the database rejects part-way are
  not modelled; a rejected record aborts the whole batch before any write.
- **Parsed-reply values.** `json.loads` is modelled as returning an object whose values are strings or
  null. Numbers, booleans and nested values in a model reply are outside the model.
- **JSON intake values.** `int()` on strings with underscores or with non-ASCII decimal digits (such as
  Arabic-Indic digits, which `int()` accepts) is not modelled: the model parses ASCII digits only. Postgres's
  validation of the `created_at` text as a timestamp is not modelled either: any string is accepted.
- Int: a float is truncated on the decimal value of its Python repr. For a float of magnitude 2^53
  or more that value can differ from the binary one `int()` truncates. `NaN` and `Infinity`,
  which `json.load` accepts and on which `int()` raises, are outside the model.
- TextColumn: a float is stored as Postgres numeric text of its repr literal. `NaN` and
  `Infinity`, which psycopg2 sends as float literals, are outside the model.
- TextColumn: a list holding a list, and a list that mixes strings with numbers or booleans, are
  modelled as a failed statement. Postgres accepts some of them: a rectangular nested list becomes a
  multidimensional array, and a string beside numbers is accepted when its text parses as one.
  Lists are modelled as one-dimensional arrays of a single element type.
- **Serial ids.** `actionable_tweets`, `geocoded_tweets` and `geocoded_sms_data` also have a
  `SERIAL id`. Nothing reads it, so those tables are modelled as maps keyed by their unique
  source column.
- **Other files.** `twitter_moniter.py`, `twitter_moniter_3.py` and `api_server.py` are not part
  of this model. They are superseded variants of the intake and the server.
