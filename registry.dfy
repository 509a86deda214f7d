/** The servers' timer registry: the `addTimer` and `deleteTimer` socket handlers,
    which are the same in server.js and server.cjs. Each handler is a function from
    the current list and the payload to the new list and the effects it produces. */
module Registry {
  import opened Wrappers
  import opened Timers

  /** The shared secret a delete must carry. */
  const DeleteCode: string := "bernbern"

  const DeniedMessage: string := "Special code incorrect. Delete canceled."

  /** What the server does to the outside world, in the order it does it.
      Save writes the list to timers.json; Update is broadcast to every client;
      Init, DeleteDenied and DeletedSuccess go to the requesting client only;
      Post is a webhook message, tagged with the id of the timer it is about. */
  datatype Effect =
    | Save(snapshot: seq<Timer>)
    | Update(snapshot: seq<Timer>)
    | Init(snapshot: seq<Timer>)
    | DeleteDenied(id: string, message: string)
    | DeletedSuccess(id: string)
    | Post(timerId: string, notice: Notice)

  /** A `deleteTimer` payload; a missing `code` is None. */
  datatype DeleteRequest = DeleteRequest(id: string, code: Option<string>)

  /** The list after a handler ran, and what the handler emitted. */
  datatype Outcome = Outcome(timers: seq<Timer>, effects: seq<Effect>)

  /** The entry `addTimer` stores: the payload with `spawned` forced to false. */
  function Entry(payload: Timer): Timer
  {
    payload.(spawned := false)
  }

  /** `addTimer`: a null payload or a falsy id is dropped; a known id is ignored;
      anything else is appended, saved and broadcast. */
  function AddTimer(ts: seq<Timer>, payload: Option<Timer>): (r: Outcome)
    ensures payload.None? || payload.value.id == "" ==> r == Outcome(ts, [])
    ensures payload.Some? && HasId(ts, payload.value.id) ==> r == Outcome(ts, [])
    ensures payload.Some? && payload.value.id != "" && !HasId(ts, payload.value.id) ==>
      && |r.timers| == |ts| + 1
      && r.timers[..|ts|] == ts
      && r.timers[|ts|].id == payload.value.id
      && !r.timers[|ts|].spawned
      && r.timers[|ts|] == Entry(payload.value)
      && r.effects == [Save(r.timers), Update(r.timers)]
  {
    if payload.None? || payload.value.id == "" then Outcome(ts, [])
    else if HasId(ts, payload.value.id) then Outcome(ts, [])
    else
      var next := ts + [Entry(payload.value)];
      Outcome(next, [Save(next), Update(next)])
  }

  /** The test `timers.filter(t => t.id !== id)` keeps. */
  function KeepOther(id: string): Timer -> bool
  {
    (t: Timer) => t.id != id
  }

  /** `deleteTimer`: a null payload or falsy id is dropped before the code is looked
      at; a wrong code is answered with a denial to the requester alone; the right
      code removes every timer with that id and, only if one was removed, saves,
      broadcasts and confirms to the requester. */
  function DeleteTimer(ts: seq<Timer>, payload: Option<DeleteRequest>): (r: Outcome)
    ensures payload.None? || payload.value.id == "" ==> r == Outcome(ts, [])
    ensures payload.Some? && payload.value.id != "" && payload.value.code != Some(DeleteCode) ==>
      r == Outcome(ts, [DeleteDenied(payload.value.id, DeniedMessage)])
    ensures payload.Some? && payload.value.id != "" && payload.value.code == Some(DeleteCode) ==>
      && (forall t :: t in r.timers <==> t in ts && t.id != payload.value.id)
      && (r.effects == [] <==> !HasId(ts, payload.value.id))
      && (r.effects != [] ==>
            r.effects == [Save(r.timers), Update(r.timers), DeletedSuccess(payload.value.id)])
  {
    if payload.None? || payload.value.id == "" then Outcome(ts, [])
    else if payload.value.code != Some(DeleteCode) then
      Outcome(ts, [DeleteDenied(payload.value.id, DeniedMessage)])
    else
      var id := payload.value.id;
      var next := Filter(ts, KeepOther(id));
      if |next| != |ts| then Outcome(next, [Save(next), Update(next), DeletedSuccess(id)])
      else Outcome(next, [])
  }

  /** Adding keeps the ids distinct. */
  lemma AddKeepsDistinct(ts: seq<Timer>, payload: Option<Timer>)
    requires DistinctIds(ts)
    ensures DistinctIds(AddTimer(ts, payload).timers)
  {
    var r := AddTimer(ts, payload);
    if payload.Some? && payload.value.id != "" && !HasId(ts, payload.value.id) {
      forall i, j | 0 <= i < j < |r.timers| ensures r.timers[i].id != r.timers[j].id {
        if j == |ts| {
          assert r.timers[i] == ts[i];
        } else {
          assert r.timers[i] == ts[i] && r.timers[j] == ts[j];
        }
      }
    }
  }

  /** The list a delete leaves is a subsequence of the old one in the original order:
      deleting from a concatenation deletes from each part. */
  lemma DeleteKeepsOrder(a: seq<Timer>, b: seq<Timer>, id: string)
    requires id != ""
    ensures DeleteTimer(a + b, Some(DeleteRequest(id, Some(DeleteCode)))).timers
         == DeleteTimer(a, Some(DeleteRequest(id, Some(DeleteCode)))).timers
          + DeleteTimer(b, Some(DeleteRequest(id, Some(DeleteCode)))).timers
  {
    FilterAppend(a, b, KeepOther(id));
  }

  /** Filtering a list with distinct ids leaves distinct ids. */
  lemma {:induction false} FilterKeepsDistinct(ts: seq<Timer>, keep: Timer -> bool)
    requires DistinctIds(ts)
    ensures DistinctIds(Filter(ts, keep))
  {
    if ts != [] {
      var rest := ts[1..];
      assert DistinctIds(rest) by {
        forall i, j | 0 <= i < j < |rest| ensures rest[i].id != rest[j].id {
          assert rest[i] == ts[i + 1] && rest[j] == ts[j + 1];
        }
      }
      FilterKeepsDistinct(rest, keep);
      var fr := Filter(rest, keep);
      if keep(ts[0]) {
        var r := [ts[0]] + fr;
        forall i, j | 0 <= i < j < |r| ensures r[i].id != r[j].id {
          if i == 0 {
            assert r[j] in rest;
            var k :| 0 <= k < |rest| && rest[k] == r[j];
            assert ts[k + 1] == r[j];
          } else {
            assert r[i] == fr[i - 1] && r[j] == fr[j - 1];
          }
        }
      }
    }
  }

  /** Deleting keeps the ids distinct. */
  lemma DeleteKeepsDistinct(ts: seq<Timer>, payload: Option<DeleteRequest>)
    requires DistinctIds(ts)
    ensures DistinctIds(DeleteTimer(ts, payload).timers)
  {
    if payload.Some? && payload.value.id != "" && payload.value.code == Some(DeleteCode) {
      FilterKeepsDistinct(ts, KeepOther(payload.value.id));
    }
  }

  /** Sending the same delete twice: the second finds nothing and is silent. */
  lemma DeleteTwiceIsSilent(ts: seq<Timer>, payload: Option<DeleteRequest>)
    ensures var once := DeleteTimer(ts, payload);
            var twice := DeleteTimer(once.timers, payload);
            twice.timers == once.timers
            && (payload.Some? && payload.value.code == Some(DeleteCode) ==> twice.effects == [])
  {
    var once := DeleteTimer(ts, payload);
    if payload.Some? && payload.value.id != "" && payload.value.code == Some(DeleteCode) {
      var id := payload.value.id;
      assert !HasId(once.timers, id) by {
        forall i | 0 <= i < |once.timers| ensures once.timers[i].id != id {
          assert once.timers[i] in once.timers;
        }
      }
    }
  }

  /** Creating two timers with the same id keeps exactly the first. */
  lemma AddSameIdKeepsFirst(ts: seq<Timer>, first: Timer, second: Timer)
    requires first.id == second.id
    ensures var once := AddTimer(ts, Some(first));
            AddTimer(once.timers, Some(second)) == Outcome(once.timers, [])
  {
    var once := AddTimer(ts, Some(first));
    if first.id != "" && !HasId(ts, first.id) {
      assert once.timers[|ts|].id == second.id;
    }
  }

  /** One socket request to the registry. */
  datatype Request = Add(payload: Option<Timer>) | Delete(request: Option<DeleteRequest>)

  /** The list after serving the requests in order. */
  function Replay(ts: seq<Timer>, requests: seq<Request>): seq<Timer>
    decreases |requests|
  {
    if requests == [] then ts
    else
      var next := match requests[0]
        case Add(p) => AddTimer(ts, p).timers
        case Delete(p) => DeleteTimer(ts, p).timers;
      Replay(next, requests[1..])
  }

  /** A list that starts with distinct ids keeps them under any run of adds and deletes. */
  lemma {:induction false} ReplayKeepsDistinct(ts: seq<Timer>, requests: seq<Request>)
    requires DistinctIds(ts)
    ensures DistinctIds(Replay(ts, requests))
    decreases |requests|
  {
    if requests != [] {
      match requests[0]
      case Add(p) =>
        AddKeepsDistinct(ts, p);
        ReplayKeepsDistinct(AddTimer(ts, p).timers, requests[1..]);
      case Delete(p) =>
        DeleteKeepsDistinct(ts, p);
        ReplayKeepsDistinct(DeleteTimer(ts, p).timers, requests[1..]);
    }
  }
}
