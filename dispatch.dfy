/**
 * The dashboard's API over `geocoded_tweets`: the list of active incidents, the dispatch
 * toggle, and completion. Whether `get_db_connection` obtained a connection is the input
 * `connected`.
 */
module Dispatch {
  import opened Wrappers
  import opened Store

  const Dispatched: string := "dispatched"
  const Completed: string := "completed"

  /** The dispatch rule: "dispatched" goes back to "reported", every other status to "dispatched". */
  function Toggle(status: string): (r: string)
    ensures r == Reported <==> status == Dispatched
    ensures r == Dispatched <==> status != Dispatched
  {
    if status == Dispatched then Reported else Dispatched
  }

  /** Toggling twice leaves exactly the two toggle states where they were. */
  lemma ToggleTwice(status: string)
    ensures Toggle(Toggle(status)) == status <==> status == Reported || status == Dispatched
  {
  }

  /**
   * What a handler answers: `{success: true}` (with `new_status` for dispatch), the
   * handled `{success: false}` with status 500 when no connection was obtained, or the
   * status 500 Flask sends for an exception the handler did not catch.
   */
  datatype Response = Success(newStatus: Option<string>) | ConnectionFailed | ServerError

  /** The table after a dispatch: the row's status toggled; an unknown id changes nothing. */
  function AfterDispatch(m: map<int, GeocodedEvent>, id: int): (r: map<int, GeocodedEvent>)
    ensures r.Keys == m.Keys
    ensures id in m ==> r[id].status == Toggle(m[id].status)
    ensures forall k :: k in m && (k != id || id !in m) ==> r[k] == m[k]
  {
    if id in m then SetGeocodedStatus(m, id, Toggle(m[id].status)) else m
  }

  /** The table after completion: the row's status is "completed", whatever it was. */
  function AfterComplete(m: map<int, GeocodedEvent>, id: int): (r: map<int, GeocodedEvent>)
    ensures r.Keys == m.Keys
    ensures id in m ==> r[id].status == Completed
    ensures forall k :: k in m && k != id ==> r[k] == m[k]
  {
    SetGeocodedStatus(m, id, Completed)
  }

  /** A row the dashboard shows: both coordinates set and not completed. */
  predicate IsActive(e: GeocodedEvent) {
    e.latitude.Some? && e.longitude.Some? && e.status != Completed
  }

  /** `get_incidents`: the active rows, and nothing when there is no connection. */
  function ActiveIncidents(m: map<int, GeocodedEvent>, connected: bool): (r: map<int, GeocodedEvent>)
    ensures forall id :: id in r <==> connected && id in m && IsActive(m[id])
    ensures forall id :: id in r ==> r[id] == m[id]
  {
    if connected then map id | id in m && IsActive(m[id]) :: m[id] else map[]
  }

  /** `dispatch_incident`. */
  method DispatchIncident(db: Db, connected: bool, id: int) returns (resp: Response)
    modifies db`geocoded
    ensures !connected ==> resp == ConnectionFailed && db.geocoded == old(db.geocoded)
    ensures connected && id !in old(db.geocoded) ==> resp == ServerError && db.geocoded == old(db.geocoded)
    ensures connected && id in old(db.geocoded) ==>
      && resp == Success(Some(Toggle(old(db.geocoded)[id].status)))
      && db.geocoded == AfterDispatch(old(db.geocoded), id)
      && db.geocoded[id].status == resp.newStatus.value
  {
    if !connected {
      return ConnectionFailed;
    }
    if id !in db.geocoded {
      // `fetchone()` is None and `None[0]` raises before the UPDATE
      return ServerError;
    }
    var current := db.geocoded[id].status;
    var newStatus := Toggle(current);
    db.UpdateGeocodedStatus(id, newStatus);
    return Success(Some(newStatus));
  }

  /** `complete_incident`: success even when no row matched. */
  method CompleteIncident(db: Db, connected: bool, id: int) returns (resp: Response)
    modifies db`geocoded
    ensures !connected ==> resp == ConnectionFailed && db.geocoded == old(db.geocoded)
    ensures connected ==> resp == Success(None) && db.geocoded == AfterComplete(old(db.geocoded), id)
  {
    if !connected {
      return ConnectionFailed;
    }
    db.UpdateGeocodedStatus(id, Completed);
    return Success(None);
  }

  /** Two dispatches put a "reported" or "dispatched" row back exactly as it was. */
  lemma DispatchTwiceRestores(m: map<int, GeocodedEvent>, id: int)
    requires id in m && (m[id].status == Reported || m[id].status == Dispatched)
    ensures AfterDispatch(AfterDispatch(m, id), id) == m
  {
    var r := AfterDispatch(AfterDispatch(m, id), id);
    ToggleTwice(m[id].status);
    assert r[id] == m[id];
    assert forall k :: k in m ==> r[k] == m[k];
  }

  /** There is no terminal state: dispatching a completed row makes it "dispatched". */
  lemma DispatchAfterComplete(m: map<int, GeocodedEvent>, id: int)
    requires id in m
    ensures AfterDispatch(AfterComplete(m, id), id)[id].status == Dispatched
  {
  }

  /** Completing is idempotent, and on an unknown id it changes nothing. */
  lemma CompleteIdempotent(m: map<int, GeocodedEvent>, id: int)
    ensures AfterComplete(AfterComplete(m, id), id) == AfterComplete(m, id)
    ensures id !in m ==> AfterComplete(m, id) == m
  {
    var once := AfterComplete(m, id);
    assert forall k :: k in once ==> AfterComplete(once, id)[k] == once[k];
  }

  /** Completing an incident removes exactly that one from the dashboard. */
  lemma ActiveAfterComplete(m: map<int, GeocodedEvent>, id: int)
    ensures ActiveIncidents(AfterComplete(m, id), true).Keys == ActiveIncidents(m, true).Keys - {id}
  {
  }

  /** Dispatching puts a geocoded incident on the dashboard, a completed one included. */
  lemma ActiveAfterDispatch(m: map<int, GeocodedEvent>, id: int)
    requires id in m && m[id].latitude.Some? && m[id].longitude.Some?
    ensures ActiveIncidents(AfterDispatch(m, id), true).Keys == ActiveIncidents(m, true).Keys + {id}
  {
  }
}
