/**
 * `tweet_grouper.py`: the unprocessed incident reports are embedded, clustered, and every
 * cluster becomes one summarized `final_report` event whose members are marked 'grouped'.
 * Reports DBSCAN labels as noise (-1) stay 'unprocessed' and are offered again next run.
 */
module Grouper {
  import opened Wrappers
  import opened Text
  import opened Tables
  import opened Llm
  import opened Store

  /** The label DBSCAN gives a point that belongs to no cluster. */
  const Noise: int := -1

  /**
   * `get_embeddings` followed by `DBSCAN(...).fit`: one label per text, or `None` when the
   * embedding call raised.
   */
  type Clusterer = seq<string> -> Option<seq<int>>

  /** The summarizer's reply for the texts of one cluster (`None`: the call raised). */
  type SummaryReplies = seq<string> -> Option<string>

  /** DBSCAN labels every sample it is given. */
  ghost predicate LabelsEach(cluster: Clusterer) {
    forall ts :: cluster(ts).Some? ==> |cluster(ts).value| == |ts|
  }

  /** `SELECT ... FROM incident_reports WHERE status = 'unprocessed'`. */
  function Ungrouped(t: Serial<IncidentReport>): (r: set<int>)
    ensures forall id :: id in r <==> id in t.rows && t.rows[id].status == Unprocessed
  {
    set id | id in t.rows && t.rows[id].status == Unprocessed
  }

  /** The text a report is embedded by: its location and issue, a null rendered as "None". */
  function EmbeddingText(r: IncidentReport): (t: string)
    ensures |t| == |Render(r.location)| + 2 + |Render(r.issue)|
    ensures t[..|Render(r.location)|] == Render(r.location)
    ensures t[|Render(r.location)|..|Render(r.location)| + 2] == ": "
    ensures t[|Render(r.location)| + 2..] == Render(r.issue)
  {
    Render(r.location) + ": " + Render(r.issue)
  }

  function EmbeddingTexts(rows: map<int, IncidentReport>, order: seq<int>): seq<string> {
    seq(|order|, k requires 0 <= k < |order| => if order[k] in rows then EmbeddingText(rows[order[k]]) else "")
  }

  /** The labels of a run: none when nothing was fetched or the embedding failed. */
  function Labels(rows: map<int, IncidentReport>, order: seq<int>, cluster: Clusterer): (r: Option<seq<int>>)
    requires LabelsEach(cluster)
    ensures r.Some? ==> order != [] && |r.value| == |order|
  {
    if order == [] then None else cluster(EmbeddingTexts(rows, order))
  }

  /** `[inc['id'] for i, l in enumerate(labels) if l == label]`, in fetch order. */
  function Members(order: seq<int>, labels: seq<int>, l: int): seq<int>
    requires |order| == |labels|
    decreases |labels|
  {
    if labels == [] then []
    else
      Members(order[..|order| - 1], labels[..|labels| - 1], l)
        + (if labels[|labels| - 1] == l then [order[|order| - 1]] else [])
  }

  /** A cluster holds exactly the reports that carry its label. */
  lemma {:induction false} MembersSpec(order: seq<int>, labels: seq<int>, l: int)
    requires |order| == |labels|
    ensures forall i :: 0 <= i < |labels| && labels[i] == l ==> order[i] in Members(order, labels, l)
    ensures forall x :: x in Members(order, labels, l) ==> exists i :: 0 <= i < |labels| && labels[i] == l && order[i] == x
    decreases |labels|
  {
    if labels != [] {
      var n := |labels| - 1;
      MembersSpec(order[..n], labels[..n], l);
      assert forall i :: 0 <= i < n ==> order[..n][i] == order[i] && labels[..n][i] == labels[i];
    }
  }

  /** `x` and `y` are ids of rows labelled `l`, with `x`'s row fetched before `y`'s. */
  predicate FetchedBefore(order: seq<int>, labels: seq<int>, l: int, x: int, y: int) {
    exists i, j :: 0 <= i < j < |order| && j < |labels| && labels[i] == l && labels[j] == l && order[i] == x && order[j] == y
  }

  /** A cluster lists its members in fetch order: earlier members come from earlier rows. */
  lemma {:induction false} MembersInOrder(order: seq<int>, labels: seq<int>, l: int)
    requires |order| == |labels|
    ensures forall a, b :: 0 <= a < b < |Members(order, labels, l)| ==>
      FetchedBefore(order, labels, l, Members(order, labels, l)[a], Members(order, labels, l)[b])
    decreases |labels|
  {
    if labels != [] {
      var n := |labels| - 1;
      var init := Members(order[..n], labels[..n], l);
      MembersInOrder(order[..n], labels[..n], l);
      MembersSpec(order[..n], labels[..n], l);
      assert forall i :: 0 <= i < n ==> order[..n][i] == order[i] && labels[..n][i] == labels[i];
      var ms := Members(order, labels, l);
      assert ms == init + (if labels[n] == l then [order[n]] else []);
      forall a, b | 0 <= a < b < |ms|
        ensures FetchedBefore(order, labels, l, ms[a], ms[b])
      {
        if b < |init| {
          assert ms[a] == init[a] && ms[b] == init[b];
          assert FetchedBefore(order[..n], labels[..n], l, init[a], init[b]);
          var i, j :| 0 <= i < j < n && labels[..n][i] == l && labels[..n][j] == l
            && order[..n][i] == init[a] && order[..n][j] == init[b];
          assert labels[i] == l && labels[j] == l && order[i] == ms[a] && order[j] == ms[b];
        } else {
          assert ms[a] == init[a] && init[a] in init;
          var i :| 0 <= i < n && labels[..n][i] == l && order[..n][i] == init[a];
          assert labels[n] == l && ms[b] == order[n];
          assert 0 <= i < n < |order| && labels[i] == l && order[i] == ms[a] && order[n] == ms[b];
        }
      }
    }
  }

  /** Every label that occurs has a non-empty cluster. */
  lemma MembersNonEmpty(order: seq<int>, labels: seq<int>, l: int)
    requires |order| == |labels| && l in labels
    ensures Members(order, labels, l) != []
  {
    MembersSpec(order, labels, l);
    var i :| 0 <= i < |labels| && labels[i] == l;
    assert order[i] in Members(order, labels, l);
  }

  /** Two clusters of a fetch without repeated ids share no report. */
  lemma MembersDisjoint(order: seq<int>, labels: seq<int>, l1: int, l2: int)
    requires |order| == |labels| && Distinct(order) && l1 != l2
    ensures forall x :: x in Members(order, labels, l1) ==> x !in Members(order, labels, l2)
  {
    MembersSpec(order, labels, l1);
    MembersSpec(order, labels, l2);
  }

  /** The reports whose label is one of `ls` and not noise. */
  function Covered(order: seq<int>, labels: seq<int>, ls: set<int>): set<int> {
    set i | 0 <= i < |labels| && i < |order| && labels[i] in ls && labels[i] != Noise :: order[i]
  }

  /** The reports DBSCAN put in some cluster. */
  function Clustered(order: seq<int>, labels: seq<int>): set<int> {
    set i | 0 <= i < |labels| && i < |order| && labels[i] != Noise :: order[i]
  }

  /** The reports DBSCAN left out as noise. */
  function NoiseIds(order: seq<int>, labels: seq<int>): set<int> {
    set i | 0 <= i < |labels| && i < |order| && labels[i] == Noise :: order[i]
  }

  lemma CoveredUnion(order: seq<int>, labels: seq<int>, ls: set<int>, l: int)
    ensures Covered(order, labels, ls + {l}) == Covered(order, labels, ls) + Covered(order, labels, {l})
  {
    forall x | x in Covered(order, labels, ls + {l}) ensures x in Covered(order, labels, ls) + Covered(order, labels, {l}) {
      var i :| 0 <= i < |labels| && i < |order| && labels[i] in ls + {l} && labels[i] != Noise && order[i] == x;
      if labels[i] == l {
        assert x in Covered(order, labels, {l});
      } else {
        assert x in Covered(order, labels, ls);
      }
    }
  }

  /** The reports of one non-noise label are its cluster. */
  lemma CoveredOne(order: seq<int>, labels: seq<int>, l: int)
    requires |order| == |labels| && l != Noise
    ensures Covered(order, labels, {l}) == Elems(Members(order, labels, l))
  {
    MembersSpec(order, labels, l);
    forall x | x in Elems(Members(order, labels, l)) ensures x in Covered(order, labels, {l}) {
      var i :| 0 <= i < |labels| && labels[i] == l && order[i] == x;
      assert labels[i] in {l};
    }
  }

  lemma CoveredStep(order: seq<int>, labels: seq<int>, ls: set<int>, l: int)
    requires |order| == |labels|
    ensures l != Noise ==> Covered(order, labels, ls + {l}) == Covered(order, labels, ls) + Elems(Members(order, labels, l))
    ensures l == Noise ==> Covered(order, labels, ls + {l}) == Covered(order, labels, ls)
  {
    CoveredUnion(order, labels, ls, l);
    if l != Noise {
      CoveredOne(order, labels, l);
    } else {
      assert Covered(order, labels, {l}) == {};
    }
  }

  lemma CoveredAll(order: seq<int>, labels: seq<int>)
    ensures Covered(order, labels, Elems(labels)) == Clustered(order, labels)
  {
    assert forall i :: 0 <= i < |labels| ==> labels[i] in Elems(labels);
  }

  /** Marking two sets of reports in turn marks their union. */
  lemma MarkGroupedTwice(t: Serial<IncidentReport>, a: set<int>, b: set<int>)
    ensures MarkGrouped(MarkGrouped(t, a), b) == MarkGrouped(t, a + b)
  {
  }

  /** `[inc['original_tweet_text'] for inc in cluster_incidents]`. */
  function TextsOf(rows: map<int, IncidentReport>, ids: seq<int>): seq<string> {
    seq(|ids|, k requires 0 <= k < |ids| => if ids[k] in rows then rows[ids[k]].tweetText else "")
  }

  /** The `final_report` row for one cluster: its summary and location, its ids and their number. */
  function EventFor(rows: map<int, IncidentReport>, order: seq<int>, labels: seq<int>, l: int,
                    replies: SummaryReplies, parse: Parser): Event
    requires |order| == |labels|
  {
    var ids := Members(order, labels, l);
    var s := Summarize(replies(TextsOf(rows, ids)), parse);
    Event(s.0, s.1, ids, |ids|)
  }

  /** The events a run inserts when it visits the labels in the order `visit`. */
  function EventRows(rows: map<int, IncidentReport>, order: seq<int>, labels: seq<int>, visit: seq<int>,
                     replies: SummaryReplies, parse: Parser): seq<Event>
    requires |order| == |labels|
    decreases |visit|
  {
    if visit == [] then []
    else
      var l := visit[|visit| - 1];
      EventRows(rows, order, labels, visit[..|visit| - 1], replies, parse)
        + (if l == Noise then [] else [EventFor(rows, order, labels, l, replies, parse)])
  }

  lemma EventRowsSnoc(rows: map<int, IncidentReport>, order: seq<int>, labels: seq<int>, visit: seq<int>, l: int,
                      replies: SummaryReplies, parse: Parser)
    requires |order| == |labels|
    ensures EventRows(rows, order, labels, visit + [l], replies, parse) == EventRows(rows, order, labels, visit, replies, parse)
      + (if l == Noise then [] else [EventFor(rows, order, labels, l, replies, parse)])
  {
    assert (visit + [l])[..|visit|] == visit;
  }

  /** The number of visited labels that are not noise, repeats included. */
  function NotNoise(visit: seq<int>): nat
    decreases |visit|
  {
    if visit == [] then 0
    else NotNoise(visit[..|visit| - 1]) + (if visit[|visit| - 1] == Noise then 0 else 1)
  }

  /** One event per visited label that is not noise. */
  lemma {:induction false} EventRowsLength(rows: map<int, IncidentReport>, order: seq<int>, labels: seq<int>, visit: seq<int>,
                                           replies: SummaryReplies, parse: Parser)
    requires |order| == |labels|
    ensures |EventRows(rows, order, labels, visit, replies, parse)| == NotNoise(visit)
    decreases |visit|
  {
    if visit != [] {
      EventRowsLength(rows, order, labels, visit[..|visit| - 1], replies, parse);
    }
  }

  /** Adding a label the set lacks adds one to its non-noise part, unless it is noise. */
  lemma NonNoiseAdd(e: set<int>, l: int)
    requires l !in e
    ensures |(e + {l}) - {Noise}| == |e - {Noise}| + (if l == Noise then 0 else 1)
  {
    if l == Noise {
      assert (e + {l}) - {Noise} == e - {Noise};
    } else {
      assert (e + {l}) - {Noise} == (e - {Noise}) + {l};
    }
  }

  /** Without repeats, the visited labels that are not noise are as many as their set. */
  lemma {:induction false} NotNoiseDistinct(visit: seq<int>)
    requires Distinct(visit)
    ensures NotNoise(visit) == |Elems(visit) - {Noise}|
    decreases |visit|
  {
    if visit != [] {
      var init, l := visit[..|visit| - 1], visit[|visit| - 1];
      assert visit == init + [l];
      DistinctInit(visit);
      NotNoiseDistinct(init);
      ElemsSnoc(init, l);
      NonNoiseAdd(Elems(init), l);
    }
  }

  /** One event per distinct label that is not noise, whatever order the labels are visited in. */
  lemma EventRowsCount(rows: map<int, IncidentReport>, order: seq<int>, labels: seq<int>, visit: seq<int>,
                       replies: SummaryReplies, parse: Parser)
    requires |order| == |labels| && Distinct(visit)
    ensures |EventRows(rows, order, labels, visit, replies, parse)| == |Elems(visit) - {Noise}|
  {
    EventRowsLength(rows, order, labels, visit, replies, parse);
    NotNoiseDistinct(visit);
  }

  /** Every visited label that is not noise has its event among those inserted. */
  lemma {:induction false} EventRowsComplete(rows: map<int, IncidentReport>, order: seq<int>, labels: seq<int>, visit: seq<int>,
                                             replies: SummaryReplies, parse: Parser)
    requires |order| == |labels|
    ensures forall l :: l in visit && l != Noise ==>
      EventFor(rows, order, labels, l, replies, parse) in EventRows(rows, order, labels, visit, replies, parse)
    decreases |visit|
  {
    if visit != [] {
      var init, l := visit[..|visit| - 1], visit[|visit| - 1];
      assert visit == init + [l];
      EventRowsComplete(rows, order, labels, init, replies, parse);
      EventRowsSnoc(rows, order, labels, init, l, replies, parse);
    }
  }

  /** `e` is the event of a visited label that is not noise. */
  predicate EventOfVisited(rows: map<int, IncidentReport>, order: seq<int>, labels: seq<int>, visit: seq<int>,
                           replies: SummaryReplies, parse: Parser, e: Event)
    requires |order| == |labels|
  {
    exists l :: l in visit && l != Noise && e == EventFor(rows, order, labels, l, replies, parse)
  }

  /**
   * Every inserted event is the event of one visited cluster: its ids are that cluster, none
   * of them noise, and `number_of_reports` is their number.
   */
  lemma {:induction false} EventRowsSound(rows: map<int, IncidentReport>, order: seq<int>, labels: seq<int>, visit: seq<int>,
                                          replies: SummaryReplies, parse: Parser)
    requires |order| == |labels| && Elems(visit) <= Elems(labels)
    ensures forall e :: e in EventRows(rows, order, labels, visit, replies, parse) ==>
      && EventOfVisited(rows, order, labels, visit, replies, parse, e)
      && e.count == |e.sourceIds| && e.sourceIds != []
      && Elems(e.sourceIds) <= Clustered(order, labels)
    decreases |visit|
  {
    if visit != [] {
      var init, l := visit[..|visit| - 1], visit[|visit| - 1];
      assert visit == init + [l];
      ElemsSnoc(init, l);
      EventRowsSound(rows, order, labels, init, replies, parse);
      EventRowsSnoc(rows, order, labels, init, l, replies, parse);
      forall e | e in EventRows(rows, order, labels, init, replies, parse)
        ensures EventOfVisited(rows, order, labels, visit, replies, parse, e)
      {
        var l' :| l' in init && l' != Noise && e == EventFor(rows, order, labels, l', replies, parse);
        assert l' in visit;
      }
      if l != Noise {
        assert l in Elems(labels);
        MembersNonEmpty(order, labels, l);
        CoveredStep(order, labels, {}, l);
        assert Covered(order, labels, {l}) <= Clustered(order, labels);
        assert EventOfVisited(rows, order, labels, visit, replies, parse, EventFor(rows, order, labels, l, replies, parse));
      }
    }
  }

  /**
   * When no report is fetched twice, an inserted event that holds a clustered report is the
   * event of that report's own cluster: the report is in no other event.
   */
  lemma ReportInOwnEventOnly(rows: map<int, IncidentReport>, order: seq<int>, labels: seq<int>, visit: seq<int>,
                             replies: SummaryReplies, parse: Parser, i: nat)
    requires |order| == |labels| && Distinct(order) && Elems(visit) <= Elems(labels) && i < |labels|
    ensures forall e :: e in EventRows(rows, order, labels, visit, replies, parse) && order[i] in e.sourceIds ==>
      labels[i] != Noise && e == EventFor(rows, order, labels, labels[i], replies, parse)
  {
    EventRowsSound(rows, order, labels, visit, replies, parse);
    forall e | e in EventRows(rows, order, labels, visit, replies, parse) && order[i] in e.sourceIds
      ensures labels[i] != Noise && e == EventFor(rows, order, labels, labels[i], replies, parse)
    {
      var l :| l in visit && l != Noise && e == EventFor(rows, order, labels, l, replies, parse);
      MembersSpec(order, labels, l);
      assert order[i] in Members(order, labels, l);
      var j :| 0 <= j < |labels| && labels[j] == l && order[j] == order[i];
      assert j == i;
    }
  }

  /**
   * When every label is visited, each report the clusterer did not call noise is among the
   * ids of an inserted event: the event of its own cluster.
   */
  lemma ClusteredReportInEvent(rows: map<int, IncidentReport>, order: seq<int>, labels: seq<int>, visit: seq<int>,
                               replies: SummaryReplies, parse: Parser, i: nat)
    requires |order| == |labels| && Elems(labels) <= Elems(visit) && i < |labels|
    ensures labels[i] != Noise ==>
      && EventFor(rows, order, labels, labels[i], replies, parse) in EventRows(rows, order, labels, visit, replies, parse)
      && order[i] in EventFor(rows, order, labels, labels[i], replies, parse).sourceIds
  {
    if labels[i] != Noise {
      assert labels[i] in Elems(labels);
      assert labels[i] in visit;
      EventRowsComplete(rows, order, labels, visit, replies, parse);
      MembersSpec(order, labels, labels[i]);
    }
  }

  /** When no report is fetched twice, two different inserted events share no report. */
  lemma EventsDisjoint(rows: map<int, IncidentReport>, order: seq<int>, labels: seq<int>, visit: seq<int>,
                       replies: SummaryReplies, parse: Parser)
    requires |order| == |labels| && Distinct(order) && Elems(visit) <= Elems(labels)
    ensures forall e1, e2, x ::
      (e1 in EventRows(rows, order, labels, visit, replies, parse)
       && e2 in EventRows(rows, order, labels, visit, replies, parse)
       && x in e1.sourceIds && x in e2.sourceIds) ==> e1 == e2
  {
    var events := EventRows(rows, order, labels, visit, replies, parse);
    EventRowsSound(rows, order, labels, visit, replies, parse);
    forall e1, e2, x | e1 in events && e2 in events && x in e1.sourceIds && x in e2.sourceIds
      ensures e1 == e2
    {
      assert Elems(e1.sourceIds) <= Clustered(order, labels);
      assert x in Elems(e1.sourceIds);
      var i :| 0 <= i < |labels| && i < |order| && labels[i] != Noise && order[i] == x;
      ReportInOwnEventOnly(rows, order, labels, visit, replies, parse, i);
    }
  }

  /** One label more: the grouping state after handling it. */
  lemma GroupStep(t: Serial<IncidentReport>, order: seq<int>, labels: seq<int>, visit: seq<int>, l: int)
    requires |order| == |labels|
    ensures l != Noise ==>
      MarkGrouped(MarkGrouped(t, Covered(order, labels, Elems(visit))), Elems(Members(order, labels, l)))
        == MarkGrouped(t, Covered(order, labels, Elems(visit + [l])))
    ensures l == Noise ==>
      MarkGrouped(t, Covered(order, labels, Elems(visit))) == MarkGrouped(t, Covered(order, labels, Elems(visit + [l])))
  {
    ElemsSnoc(visit, l);
    CoveredStep(order, labels, Elems(visit), l);
    MarkGroupedTwice(t, Covered(order, labels, Elems(visit)), Elems(Members(order, labels, l)));
  }

  /**
   * The loop body for one label: skip noise; otherwise summarize the cluster, insert its
   * event and mark its reports 'grouped'.
   */
  method GroupOne(db: Db, rows: map<int, IncidentReport>, order: seq<int>, labels: seq<int>, visit: seq<int>, k: nat,
                  replies: SummaryReplies, parse: Parser, ghost e0: Serial<Event>, ghost t0: Serial<IncidentReport>)
    requires |order| == |labels| && k < |visit| && visit[k] in labels
    requires db.events == AppendAll(e0, EventRows(rows, order, labels, visit[..k], replies, parse))
    requires db.incidents == MarkGrouped(t0, Covered(order, labels, Elems(visit[..k])))
    requires db.Valid()
    modifies db`events, db`incidents
    ensures db.events == AppendAll(e0, EventRows(rows, order, labels, visit[..k + 1], replies, parse))
    ensures db.incidents == MarkGrouped(t0, Covered(order, labels, Elems(visit[..k + 1])))
    ensures db.Valid()
  {
    var l := visit[k];
    assert visit[..k + 1] == visit[..k] + [l];
    EventRowsSnoc(rows, order, labels, visit[..k], l, replies, parse);
    GroupStep(t0, order, labels, visit[..k], l);
    if l != Noise {
      AppendAllSnoc(e0, EventRows(rows, order, labels, visit[..k], replies, parse), EventFor(rows, order, labels, l, replies, parse));
      var ids := Members(order, labels, l);
      var summary := Summarize(replies(TextsOf(rows, ids)), parse);
      db.InsertFinalEventReport(summary.0, summary.1, ids);
      MembersNonEmpty(order, labels, l);
      db.UpdateIncidentStatus(ids);
    } else {
      assert EventRows(rows, order, labels, visit[..k], replies, parse) + [] == EventRows(rows, order, labels, visit[..k], replies, parse);
    }
  }

  /**
   * The main block of `tweet_grouper.py`. `visit` is the order in which iterating over
   * `set(labels)` yields the labels; the events depend on it only through the ids the
   * sequence hands out.
   */
  method GroupIncidents(db: Db, order: seq<int>, cluster: Clusterer, visit: seq<int>,
                        replies: SummaryReplies, parse: Parser)
    requires LabelsEach(cluster)
    requires Enumerates(order, Ungrouped(db.incidents))
    requires Labels(db.incidents.rows, order, cluster).Some? ==>
      Enumerates(visit, Elems(Labels(db.incidents.rows, order, cluster).value))
    requires db.Valid()
    modifies db`events, db`incidents
    ensures Labels(old(db.incidents).rows, order, cluster).None? ==>
      db.events == old(db.events) && db.incidents == old(db.incidents)
    ensures Labels(old(db.incidents).rows, order, cluster).Some? ==>
      var labels := Labels(old(db.incidents).rows, order, cluster).value;
      && db.events == AppendAll(old(db.events), EventRows(old(db.incidents).rows, order, labels, visit, replies, parse))
      && db.incidents == MarkGrouped(old(db.incidents), Clustered(order, labels))
    ensures db.Valid()
  {
    var rows := db.incidents.rows;
    var result := Labels(rows, order, cluster);
    if result.None? {
      return;
    }
    var labels := result.value;
    var k := 0;
    while k < |visit|
      invariant 0 <= k <= |visit|
      invariant db.Valid()
      invariant db.events == AppendAll(old(db.events), EventRows(rows, order, labels, visit[..k], replies, parse))
      invariant db.incidents == MarkGrouped(old(db.incidents), Covered(order, labels, Elems(visit[..k])))
    {
      assert visit[k] in Elems(visit);
      GroupOne(db, rows, order, labels, visit, k, replies, parse, old(db.events), old(db.incidents));
      k := k + 1;
    }
    assert visit[..k] == visit;
    CoveredAll(order, labels);
  }

  /**
   * After a run that clustered, the reports selected again are exactly the noise ones:
   * every clustered report is 'grouped'.
   */
  lemma NoiseReselected(t: Serial<IncidentReport>, order: seq<int>, labels: seq<int>)
    requires Enumerates(order, Ungrouped(t)) && |labels| == |order|
    ensures Ungrouped(MarkGrouped(t, Clustered(order, labels))) == NoiseIds(order, labels)
  {
    assert forall i :: 0 <= i < |order| ==> order[i] in Elems(order);
    assert forall i :: 0 <= i < |order| && labels[i] != Noise ==> order[i] in Clustered(order, labels);
    assert forall i, j :: 0 <= i < |order| && 0 <= j < |order| && order[i] == order[j] ==> i == j;
    var u := MarkGrouped(t, Clustered(order, labels));
    forall id | id in Ungrouped(u) ensures id in NoiseIds(order, labels) {
      assert id in Elems(order);
      var i :| 0 <= i < |order| && order[i] == id;
      assert labels[i] == Noise;
    }
    forall id | id in NoiseIds(order, labels) ensures id in Ungrouped(u) {
      var i :| 0 <= i < |labels| && i < |order| && labels[i] == Noise && order[i] == id;
      assert id !in Clustered(order, labels);
    }
  }
}
