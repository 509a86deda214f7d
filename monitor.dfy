/** The servers' periodic respawn check (the `setInterval` body). One tick walks the
    timer list in order; for each timer with a spawn time it posts the 15-minute
    warning and the spawn announcement at most once per id, and marks spawned timers.
    server.js and server.cjs differ in two ways, captured by `Variant`: server.cjs
    also requires `!t.spawned` for the warning, and on a spawn it saves and broadcasts
    before posting, where server.js posts first. */
module Monitor {
  import opened Wrappers
  import opened Timers
  import opened Registry

  datatype Variant = ServerJs | ServerCjs

  /** What a tick reads and changes: the list, the two in-memory sets of ids already
      handled, and the log of effects. */
  datatype TickState = TickState(
    timers: seq<Timer>,
    warned15: set<string>,
    announcedSpawn: set<string>,
    log: seq<Effect>)

  /** The warning condition before the `warned15` test: exactly 15 whole minutes left. */
  predicate WarnDue(v: Variant, t: Timer, now: int)
  {
    t.nextSpawn.Some? && MinutesLeft(t.nextSpawn.value, now) == WarnMinutes
    && (v == ServerJs || !t.spawned)
  }

  /** The spawn condition before the `announcedSpawn` test: no whole minute left. */
  predicate SpawnDue(t: Timer, now: int)
  {
    t.nextSpawn.Some? && MinutesLeft(t.nextSpawn.value, now) <= 0
  }

  /** The in-place update of a spawning timer. */
  function MarkSpawned(t: Timer, now: int): Timer
  {
    t.(spawned := true, spawnedTime := Some(now))
  }

  /** The effects of announcing a spawn, in each variant's order. */
  function SpawnEffects(v: Variant, t: Timer, snapshot: seq<Timer>): seq<Effect>
  {
    var post := Post(t.id, HasSpawned(t.name));
    if v == ServerJs then [post, Save(snapshot), Update(snapshot)]
    else [Save(snapshot), Update(snapshot), post]
  }

  /** The warning post the timer at index `i` gets, if any. */
  function WarnPart(v: Variant, s: TickState, i: nat, now: int): seq<Effect>
    requires i < |s.timers|
  {
    var t := s.timers[i];
    if WarnDue(v, t, now) && t.id !in s.warned15 then [Post(t.id, WarnSoon(t.name))] else []
  }

  /** Whether the timer at index `i` is announced as spawned in this iteration. */
  predicate Spawns(s: TickState, i: nat, now: int)
    requires i < |s.timers|
  {
    SpawnDue(s.timers[i], now) && s.timers[i].id !in s.announcedSpawn
  }

  /** One iteration of the tick's loop, on the timer at index `i`: first the warning
      test, then the spawn test (the warning never touches `announcedSpawn`, so the
      spawn test sees the set as it was). */
  function Visit(v: Variant, s: TickState, i: nat, now: int): (r: TickState)
    requires i < |s.timers|
    ensures |r.timers| == |s.timers|
    ensures forall k :: 0 <= k < |s.timers| && k != i ==> r.timers[k] == s.timers[k]
    ensures r.timers[i] == if Spawns(s, i, now) then MarkSpawned(s.timers[i], now) else s.timers[i]
    ensures r.warned15 == s.warned15 + (if WarnDue(v, s.timers[i], now) then {s.timers[i].id} else {})
    ensures r.announcedSpawn == s.announcedSpawn + (if SpawnDue(s.timers[i], now) then {s.timers[i].id} else {})
  {
    var t := s.timers[i];
    var warn := WarnDue(v, t, now) && t.id !in s.warned15;
    var spawn := Spawns(s, i, now);
    var ts := if spawn then s.timers[i := MarkSpawned(t, now)] else s.timers;
    TickState(
      ts,
      if warn then s.warned15 + {t.id} else s.warned15,
      if spawn then s.announcedSpawn + {t.id} else s.announcedSpawn,
      s.log + WarnPart(v, s, i, now) + (if spawn then SpawnEffects(v, t, ts) else []))
  }

  /** The loop from index `i` to the end of the list: the list keeps its length and
      neither set loses an id. */
  function TickFrom(v: Variant, s: TickState, i: nat, now: int): (r: TickState)
    requires i <= |s.timers|
    ensures |r.timers| == |s.timers|
    ensures s.warned15 <= r.warned15 && s.announcedSpawn <= r.announcedSpawn
    decreases |s.timers| - i
  {
    if i == |s.timers| then s else TickFrom(v, Visit(v, s, i, now), i + 1, now)
  }

  /** A whole tick at clock `now`; an empty list returns at once. The list keeps its
      length and its ids in place, and neither set loses an id. */
  function Tick(v: Variant, s: TickState, now: int): (r: TickState)
    ensures |r.timers| == |s.timers|
    ensures forall k :: 0 <= k < |s.timers| ==> r.timers[k].id == s.timers[k].id
    ensures s.warned15 <= r.warned15 && s.announcedSpawn <= r.announcedSpawn
  {
    if |s.timers| == 0 then s
    else
      TickFromShape(v, s, 0, now);
      TickFrom(v, s, 0, now)
  }

  // ---------------------------------------------------------------------------
  // The list: a tick never adds, removes or reorders timers, and only marks spawns.

  lemma {:induction false} TickFromShape(v: Variant, s: TickState, i: nat, now: int)
    requires i <= |s.timers|
    ensures var r := TickFrom(v, s, i, now);
      && |r.timers| == |s.timers|
      && (forall k :: 0 <= k < i ==> r.timers[k] == s.timers[k])
      && (forall k :: i <= k < |s.timers| ==>
            r.timers[k] == s.timers[k]
            || (r.timers[k] == MarkSpawned(s.timers[k], now) && SpawnDue(s.timers[k], now)
                && s.timers[k].id !in s.announcedSpawn))
    decreases |s.timers| - i
  {
    if i < |s.timers| {
      TickFromShape(v, Visit(v, s, i, now), i + 1, now);
    }
  }

  /** A tick keeps every timer in its place with its id, name, location and times; it
      may only mark a due, not yet announced timer as spawned, and never un-marks one. */
  lemma TickKeepsTimers(v: Variant, s: TickState, now: int)
    ensures var r := Tick(v, s, now);
      && |r.timers| == |s.timers|
      && forall k :: 0 <= k < |s.timers| ==>
           && r.timers[k].id == s.timers[k].id
           && r.timers[k].name == s.timers[k].name
           && r.timers[k].location == s.timers[k].location
           && r.timers[k].acquired == s.timers[k].acquired
           && r.timers[k].nextSpawn == s.timers[k].nextSpawn
           && (s.timers[k].spawned ==> r.timers[k].spawned)
           && (r.timers[k] != s.timers[k] ==>
                 r.timers[k] == MarkSpawned(s.timers[k], now) && SpawnDue(s.timers[k], now)
                 && s.timers[k].id !in s.announcedSpawn)
  {
    if |s.timers| > 0 {
      TickFromShape(v, s, 0, now);
    }
  }

  /** For distinct ids, the loop from index `i` marks exactly the timers from `i` on
      that are due and not yet announced, and leaves every other one as it was. */
  lemma {:induction false} TickFromMarks(v: Variant, s: TickState, i: nat, now: int)
    requires i <= |s.timers|
    requires DistinctIds(s.timers)
    ensures |TickFrom(v, s, i, now).timers| == |s.timers|
    ensures forall k :: i <= k < |s.timers| ==>
              TickFrom(v, s, i, now).timers[k]
              == if SpawnDue(s.timers[k], now) && s.timers[k].id !in s.announcedSpawn
                 then MarkSpawned(s.timers[k], now) else s.timers[k]
    decreases |s.timers| - i
  {
    TickFromShape(v, s, i, now);
    if i < |s.timers| {
      var s' := Visit(v, s, i, now);
      VisitLeavesLaterAlone(v, s, i, now);
      TickFromShape(v, s', i + 1, now);
      TickFromMarks(v, s', i + 1, now);
      assert TickFrom(v, s, i, now) == TickFrom(v, s', i + 1, now);
    }
  }

  /** For distinct ids, a tick marks every due timer whose id was not yet announced
      as spawned at `now`, and changes no other timer. */
  lemma TickMarksDue(v: Variant, s: TickState, now: int)
    requires DistinctIds(s.timers)
    ensures |Tick(v, s, now).timers| == |s.timers|
    ensures forall k :: 0 <= k < |s.timers| ==>
              Tick(v, s, now).timers[k]
              == if SpawnDue(s.timers[k], now) && s.timers[k].id !in s.announcedSpawn
                 then MarkSpawned(s.timers[k], now) else s.timers[k]
  {
    if |s.timers| > 0 {
      TickFromMarks(v, s, 0, now);
    }
  }

  // ---------------------------------------------------------------------------
  // The two sets: exactly the ids whose condition held are added, nothing is removed.

  /** Ids of the timers from index `i` on that meet the warning condition. */
  function WarnIdsFrom(v: Variant, ts: seq<Timer>, i: nat, now: int): set<string>
  {
    set k | i <= k < |ts| && WarnDue(v, ts[k], now) :: ts[k].id
  }

  /** Ids of the timers from index `i` on that meet the spawn condition. */
  function SpawnIdsFrom(ts: seq<Timer>, i: nat, now: int): set<string>
  {
    set k | i <= k < |ts| && SpawnDue(ts[k], now) :: ts[k].id
  }

  lemma WarnIdsStep(v: Variant, ts: seq<Timer>, ts': seq<Timer>, i: nat, now: int)
    requires i < |ts| == |ts'|
    requires forall k :: i < k < |ts| ==> ts'[k] == ts[k]
    ensures WarnIdsFrom(v, ts, i, now)
         == (if WarnDue(v, ts[i], now) then {ts[i].id} else {}) + WarnIdsFrom(v, ts', i + 1, now)
  {
    var here := if WarnDue(v, ts[i], now) then {ts[i].id} else {};
    forall x | x in WarnIdsFrom(v, ts, i, now) ensures x in here + WarnIdsFrom(v, ts', i + 1, now) {
      var k :| i <= k < |ts| && WarnDue(v, ts[k], now) && ts[k].id == x;
      if k > i { assert ts'[k] == ts[k]; }
    }
    forall x | x in WarnIdsFrom(v, ts', i + 1, now) ensures x in WarnIdsFrom(v, ts, i, now) {
      var k :| i + 1 <= k < |ts'| && WarnDue(v, ts'[k], now) && ts'[k].id == x;
      assert ts'[k] == ts[k];
    }
  }

  lemma SpawnIdsStep(ts: seq<Timer>, ts': seq<Timer>, i: nat, now: int)
    requires i < |ts| == |ts'|
    requires forall k :: i < k < |ts| ==> ts'[k] == ts[k]
    ensures SpawnIdsFrom(ts, i, now)
         == (if SpawnDue(ts[i], now) then {ts[i].id} else {}) + SpawnIdsFrom(ts', i + 1, now)
  {
    var here := if SpawnDue(ts[i], now) then {ts[i].id} else {};
    forall x | x in SpawnIdsFrom(ts, i, now) ensures x in here + SpawnIdsFrom(ts', i + 1, now) {
      var k :| i <= k < |ts| && SpawnDue(ts[k], now) && ts[k].id == x;
      if k > i { assert ts'[k] == ts[k]; }
    }
    forall x | x in SpawnIdsFrom(ts', i + 1, now) ensures x in SpawnIdsFrom(ts, i, now) {
      var k :| i + 1 <= k < |ts'| && SpawnDue(ts'[k], now) && ts'[k].id == x;
      assert ts'[k] == ts[k];
    }
  }

  lemma UnionShift(a: set<string>, here: set<string>, rest: set<string>)
    ensures (a + here) + rest == a + (here + rest)
  {
  }

  /** One iteration adds to `warned15` exactly the id the warning set gains at `i`. */
  lemma WarnedStep(v: Variant, s: TickState, i: nat, now: int)
    requires i < |s.timers|
    ensures Visit(v, s, i, now).warned15 + WarnIdsFrom(v, Visit(v, s, i, now).timers, i + 1, now)
         == s.warned15 + WarnIdsFrom(v, s.timers, i, now)
  {
    var s' := Visit(v, s, i, now);
    var here := if WarnDue(v, s.timers[i], now) then {s.timers[i].id} else {};
    WarnIdsStep(v, s.timers, s'.timers, i, now);
    UnionShift(s.warned15, here, WarnIdsFrom(v, s'.timers, i + 1, now));
  }

  /** One iteration adds to `announcedSpawn` exactly the id the spawn set gains at `i`. */
  lemma AnnouncedStep(v: Variant, s: TickState, i: nat, now: int)
    requires i < |s.timers|
    ensures Visit(v, s, i, now).announcedSpawn + SpawnIdsFrom(Visit(v, s, i, now).timers, i + 1, now)
         == s.announcedSpawn + SpawnIdsFrom(s.timers, i, now)
  {
    var s' := Visit(v, s, i, now);
    var here := if SpawnDue(s.timers[i], now) then {s.timers[i].id} else {};
    SpawnIdsStep(s.timers, s'.timers, i, now);
    UnionShift(s.announcedSpawn, here, SpawnIdsFrom(s'.timers, i + 1, now));
  }

  lemma {:induction false} TickFromWarned(v: Variant, s: TickState, i: nat, now: int)
    requires i <= |s.timers|
    ensures TickFrom(v, s, i, now).warned15 == s.warned15 + WarnIdsFrom(v, s.timers, i, now)
    decreases |s.timers| - i
  {
    if i < |s.timers| {
      TickFromWarned(v, Visit(v, s, i, now), i + 1, now);
      WarnedStep(v, s, i, now);
    } else {
      assert WarnIdsFrom(v, s.timers, i, now) == {};
    }
  }

  lemma {:induction false} TickFromAnnounced(v: Variant, s: TickState, i: nat, now: int)
    requires i <= |s.timers|
    ensures TickFrom(v, s, i, now).announcedSpawn == s.announcedSpawn + SpawnIdsFrom(s.timers, i, now)
    decreases |s.timers| - i
  {
    if i < |s.timers| {
      TickFromAnnounced(v, Visit(v, s, i, now), i + 1, now);
      AnnouncedStep(v, s, i, now);
    } else {
      assert SpawnIdsFrom(s.timers, i, now) == {};
    }
  }

  /** After a tick, `warned15` holds exactly the ids it held plus those of the timers
      with 15 whole minutes left, and `announcedSpawn` those plus the ids of the
      timers with no minute left. Both sets only grow. */
  lemma TickSets(v: Variant, s: TickState, now: int)
    ensures Tick(v, s, now).warned15 == s.warned15 + WarnIdsFrom(v, s.timers, 0, now)
    ensures Tick(v, s, now).announcedSpawn == s.announcedSpawn + SpawnIdsFrom(s.timers, 0, now)
  {
    if |s.timers| > 0 {
      TickFromWarned(v, s, 0, now);
      TickFromAnnounced(v, s, 0, now);
    } else {
      assert WarnIdsFrom(v, s.timers, 0, now) == {};
      assert SpawnIdsFrom(s.timers, 0, now) == {};
    }
  }

  // ---------------------------------------------------------------------------
  // The webhook posts of one tick, against an independent reference.

  /** The webhook posts of a log, in order. */
  function Posts(log: seq<Effect>): seq<Effect>
  {
    if log == [] then []
    else if log[0].Post? then [log[0]] + Posts(log[1..])
    else Posts(log[1..])
  }

  lemma {:induction false} PostsAppend(a: seq<Effect>, b: seq<Effect>)
    ensures Posts(a + b) == Posts(a) + Posts(b)
  {
    if |a| == 0 {
      assert a + b == b;
    } else {
      assert (a + b)[1..] == a[1..] + b;
      PostsAppend(a[1..], b);
    }
  }

  /** The posts one timer is owed, given the sets as they were before the tick. */
  function Owed(v: Variant, t: Timer, warned: set<string>, announced: set<string>, now: int): (r: seq<Effect>)
    ensures |r| <= 1
  {
    (if WarnDue(v, t, now) && t.id !in warned then [Post(t.id, WarnSoon(t.name))] else [])
    + (if SpawnDue(t, now) && t.id !in announced then [Post(t.id, HasSpawned(t.name))] else [])
  }

  /** The posts the timers from index `i` on are owed, in list order. */
  function OwedFrom(v: Variant, ts: seq<Timer>, i: nat, warned: set<string>, announced: set<string>, now: int): seq<Effect>
    requires i <= |ts|
    decreases |ts| - i
  {
    if i == |ts| then [] else Owed(v, ts[i], warned, announced, now) + OwedFrom(v, ts, i + 1, warned, announced, now)
  }

  /** What is owed depends on the list only from index `i` on, and on the sets only
      through the ids of those timers. */
  lemma {:induction false} OwedFromAgree(v: Variant, ts1: seq<Timer>, ts2: seq<Timer>, i: nat,
                                         w1: set<string>, a1: set<string>,
                                         w2: set<string>, a2: set<string>, now: int)
    requires i <= |ts1| == |ts2|
    requires forall k :: i <= k < |ts1| ==> ts1[k] == ts2[k]
    requires forall k :: i <= k < |ts1| ==> (ts1[k].id in w1 <==> ts1[k].id in w2)
    requires forall k :: i <= k < |ts1| ==> (ts1[k].id in a1 <==> ts1[k].id in a2)
    ensures OwedFrom(v, ts1, i, w1, a1, now) == OwedFrom(v, ts2, i, w2, a2, now)
    decreases |ts1| - i
  {
    if i < |ts1| {
      OwedFromAgree(v, ts1, ts2, i + 1, w1, a1, w2, a2, now);
    }
  }

  lemma PostsOfSpawnEffects(v: Variant, t: Timer, snapshot: seq<Timer>)
    ensures Posts(SpawnEffects(v, t, snapshot)) == [Post(t.id, HasSpawned(t.name))]
  {
    var p := Post(t.id, HasSpawned(t.name));
    if v == ServerJs {
      PostsAppend([p], [Save(snapshot), Update(snapshot)]);
      assert [p] + [Save(snapshot), Update(snapshot)] == SpawnEffects(v, t, snapshot);
      assert Posts([Update(snapshot)][1..]) == [];
      assert [Save(snapshot), Update(snapshot)][1..] == [Update(snapshot)];
    } else {
      PostsAppend([Save(snapshot), Update(snapshot)], [p]);
      assert [Save(snapshot), Update(snapshot)] + [p] == SpawnEffects(v, t, snapshot);
      assert Posts([Update(snapshot)][1..]) == [];
      assert [Save(snapshot), Update(snapshot)][1..] == [Update(snapshot)];
      assert [p][1..] == [];
    }
  }

  lemma PostsOfVisit(v: Variant, s: TickState, i: nat, now: int)
    requires i < |s.timers|
    ensures Posts(Visit(v, s, i, now).log)
         == Posts(s.log) + Owed(v, s.timers[i], s.warned15, s.announcedSpawn, now)
  {
    var t := s.timers[i];
    var warn := WarnPart(v, s, i, now);
    var spawn := if Spawns(s, i, now) then SpawnEffects(v, t, s.timers[i := MarkSpawned(t, now)]) else [];
    assert Visit(v, s, i, now).log == s.log + warn + spawn;
    PostsAppend(s.log + warn, spawn);
    PostsAppend(s.log, warn);
    if Spawns(s, i, now) {
      PostsOfSpawnEffects(v, t, s.timers[i := MarkSpawned(t, now)]);
    }
  }

  /** One iteration keeps the ids distinct, and for distinct ids it changes neither
      set's verdict on any later timer. */
  lemma VisitLeavesLaterAlone(v: Variant, s: TickState, i: nat, now: int)
    requires i < |s.timers|
    requires DistinctIds(s.timers)
    ensures DistinctIds(Visit(v, s, i, now).timers)
    ensures forall k :: i < k < |s.timers| ==>
              (s.timers[k].id in Visit(v, s, i, now).warned15 <==> s.timers[k].id in s.warned15)
              && (s.timers[k].id in Visit(v, s, i, now).announcedSpawn <==> s.timers[k].id in s.announcedSpawn)
  {
    var s' := Visit(v, s, i, now);
    forall j, k | 0 <= j < k < |s'.timers| ensures s'.timers[j].id != s'.timers[k].id {
      assert s'.timers[j].id == s.timers[j].id && s'.timers[k].id == s.timers[k].id;
    }
  }

  lemma {:induction false} TickFromPosts(v: Variant, s: TickState, i: nat, now: int)
    requires i <= |s.timers|
    requires DistinctIds(s.timers)
    ensures Posts(TickFrom(v, s, i, now).log)
         == Posts(s.log) + OwedFrom(v, s.timers, i, s.warned15, s.announcedSpawn, now)
    decreases |s.timers| - i
  {
    if i < |s.timers| {
      var t := s.timers[i];
      var s' := Visit(v, s, i, now);
      var w, a := s.warned15, s.announcedSpawn;
      VisitLeavesLaterAlone(v, s, i, now);
      var p0, o, rest := Posts(s.log), Owed(v, t, w, a, now), OwedFrom(v, s.timers, i + 1, w, a, now);
      assert Posts(TickFrom(v, s', i + 1, now).log) == Posts(s'.log) + rest by {
        TickFromPosts(v, s', i + 1, now);
        OwedFromAgree(v, s'.timers, s.timers, i + 1, s'.warned15, s'.announcedSpawn, w, a, now);
      }
      assert Posts(s'.log) == p0 + o by {
        PostsOfVisit(v, s, i, now);
      }
      assert OwedFrom(v, s.timers, i, w, a, now) == o + rest;
      assert TickFrom(v, s, i, now) == TickFrom(v, s', i + 1, now);
      ConcatAssoc(p0, o, rest);
    }
  }

  /** For a list with distinct ids, the tick posts exactly what each timer is owed,
      in list order: a warning iff 15 whole minutes are left and the id was not yet
      warned, a spawn message iff no minute is left and the id was not yet announced. */
  lemma TickPosts(v: Variant, s: TickState, now: int)
    requires DistinctIds(s.timers)
    ensures Posts(Tick(v, s, now).log)
         == Posts(s.log) + OwedFrom(v, s.timers, 0, s.warned15, s.announcedSpawn, now)
  {
    if |s.timers| > 0 {
      TickFromPosts(v, s, 0, now);
    } else {
      assert Posts(s.log) + [] == Posts(s.log);
    }
  }

  // ---------------------------------------------------------------------------
  // At most one warning and one spawn message per id for the life of the process.

  /** The set that dedups posts of this kind. */
  function KindSet(n: Notice, warned: set<string>, announced: set<string>): set<string>
  {
    if n.WarnSoon? then warned else announced
  }

  /** Two posts of the same kind for the same timer id. */
  predicate SameAlert(a: Effect, b: Effect)
  {
    a.Post? && b.Post? && a.timerId == b.timerId && a.notice.WarnSoon? == b.notice.WarnSoon?
  }

  /** Every post in the log is recorded in its set, and no alert was posted twice. */
  predicate PostedOnce(log: seq<Effect>, warned: set<string>, announced: set<string>)
  {
    && (forall j :: 0 <= j < |log| && log[j].Post? ==> log[j].timerId in KindSet(log[j].notice, warned, announced))
    && (forall j, k :: 0 <= j < k < |log| ==> !SameAlert(log[j], log[k]))
  }

  lemma AppendOne(log: seq<Effect>, w: set<string>, a: set<string>, w2: set<string>, a2: set<string>, e: Effect)
    requires PostedOnce(log, w, a) && w <= w2 && a <= a2
    requires e.Post? ==> e.timerId !in KindSet(e.notice, w, a) && e.timerId in KindSet(e.notice, w2, a2)
    ensures PostedOnce(log + [e], w2, a2)
  {
  }

  lemma VisitKeepsPostedOnce(v: Variant, s: TickState, i: nat, now: int)
    requires i < |s.timers|
    requires PostedOnce(s.log, s.warned15, s.announcedSpawn)
    ensures var r := Visit(v, s, i, now); PostedOnce(r.log, r.warned15, r.announcedSpawn)
  {
    var t := s.timers[i];
    var w, a := s.warned15, s.announcedSpawn;
    var w1 := if WarnDue(v, t, now) && t.id !in w then w + {t.id} else w;
    var log1 := s.log + WarnPart(v, s, i, now);
    if WarnDue(v, t, now) && t.id !in w {
      AppendOne(s.log, w, a, w1, a, Post(t.id, WarnSoon(t.name)));
    }
    assert PostedOnce(log1, w1, a);
    if Spawns(s, i, now) {
      var ts := s.timers[i := MarkSpawned(t, now)];
      var a2 := a + {t.id};
      var post := Post(t.id, HasSpawned(t.name));
      if v == ServerJs {
        AppendOne(log1, w1, a, w1, a2, post);
        AppendOne(log1 + [post], w1, a2, w1, a2, Save(ts));
        AppendOne(log1 + [post] + [Save(ts)], w1, a2, w1, a2, Update(ts));
        assert log1 + SpawnEffects(v, t, ts) == log1 + [post] + [Save(ts)] + [Update(ts)];
      } else {
        AppendOne(log1, w1, a, w1, a, Save(ts));
        AppendOne(log1 + [Save(ts)], w1, a, w1, a, Update(ts));
        AppendOne(log1 + [Save(ts)] + [Update(ts)], w1, a, w1, a2, post);
        assert log1 + SpawnEffects(v, t, ts) == log1 + [Save(ts)] + [Update(ts)] + [post];
      }
    }
  }

  lemma {:induction false} TickFromKeepsPostedOnce(v: Variant, s: TickState, i: nat, now: int)
    requires i <= |s.timers|
    requires PostedOnce(s.log, s.warned15, s.announcedSpawn)
    ensures var r := TickFrom(v, s, i, now); PostedOnce(r.log, r.warned15, r.announcedSpawn)
    decreases |s.timers| - i
  {
    if i < |s.timers| {
      VisitKeepsPostedOnce(v, s, i, now);
      TickFromKeepsPostedOnce(v, Visit(v, s, i, now), i + 1, now);
    }
  }

  /** A tick keeps the at-most-once guarantee: every alert ever posted is recorded in
      its set, so no later tick posts the same kind of alert for the same id again. */
  lemma TickKeepsPostedOnce(v: Variant, s: TickState, now: int)
    requires PostedOnce(s.log, s.warned15, s.announcedSpawn)
    ensures var r := Tick(v, s, now); PostedOnce(r.log, r.warned15, r.announcedSpawn)
  {
    if |s.timers| > 0 {
      TickFromKeepsPostedOnce(v, s, 0, now);
    }
  }

  // ---------------------------------------------------------------------------
  // The order of save, broadcast and post when a spawn is announced.

  predicate IsSpawnPost(e: Effect)
  {
    e.Post? && e.notice.HasSpawned?
  }

  /** Some timer of the snapshot has this id and is marked spawned. */
  predicate SpawnedIn(snapshot: seq<Timer>, id: string)
  {
    exists k :: 0 <= k < |snapshot| && snapshot[k].id == id && snapshot[k].spawned
  }

  /** At index `j` the list is saved, then the same list is broadcast, and in it the
      timer with this id is marked spawned. */
  predicate SavedThenBroadcast(log: seq<Effect>, j: int, id: string)
  {
    0 <= j && j + 1 < |log| && log[j].Save? && log[j + 1] == Update(log[j].snapshot)
    && SpawnedIn(log[j].snapshot, id)
  }

  /** Every spawn post from index `from` on is followed (server.js) or preceded
      (server.cjs) by saving and broadcasting a list in which that timer is spawned. */
  predicate SpawnOrder(v: Variant, log: seq<Effect>, from: nat)
  {
    forall j :: from <= j < |log| && IsSpawnPost(log[j]) ==>
      if v == ServerJs then SavedThenBroadcast(log, j + 1, log[j].timerId)
      else j >= from + 2 && SavedThenBroadcast(log, j - 2, log[j].timerId)
  }

  lemma ExtendSpawnOrder(v: Variant, log: seq<Effect>, tail: seq<Effect>, from: nat)
    requires from <= |log|
    requires SpawnOrder(v, log, from)
    requires forall j :: 0 <= j < |tail| && IsSpawnPost(tail[j]) ==>
      if v == ServerJs then SavedThenBroadcast(tail, j + 1, tail[j].timerId)
      else j >= 2 && SavedThenBroadcast(tail, j - 2, tail[j].timerId)
    ensures SpawnOrder(v, log + tail, from)
  {
    var l := log + tail;
    forall j | from <= j < |l| && IsSpawnPost(l[j])
      ensures if v == ServerJs then SavedThenBroadcast(l, j + 1, l[j].timerId)
              else j >= from + 2 && SavedThenBroadcast(l, j - 2, l[j].timerId)
    {
      if j < |log| {
        assert l[j] == log[j];
        if v == ServerJs {
          assert SavedThenBroadcast(log, j + 1, log[j].timerId);
          assert l[j + 1] == log[j + 1] && l[j + 2] == log[j + 2];
        } else {
          assert SavedThenBroadcast(log, j - 2, log[j].timerId);
          assert l[j - 2] == log[j - 2] && l[j - 1] == log[j - 1];
        }
      } else {
        var m := j - |log|;
        assert l[j] == tail[m];
        if v == ServerJs {
          assert SavedThenBroadcast(tail, m + 1, tail[m].timerId);
          assert l[j + 1] == tail[m + 1] && l[j + 2] == tail[m + 2];
        } else {
          assert SavedThenBroadcast(tail, m - 2, tail[m].timerId);
          assert l[j - 2] == tail[m - 2] && l[j - 1] == tail[m - 1];
        }
      }
    }
  }

  lemma VisitKeepsSpawnOrder(v: Variant, s: TickState, i: nat, now: int, from: nat)
    requires i < |s.timers| && from <= |s.log|
    requires SpawnOrder(v, s.log, from)
    ensures from <= |Visit(v, s, i, now).log| && SpawnOrder(v, Visit(v, s, i, now).log, from)
  {
    var t := s.timers[i];
    var warn := WarnPart(v, s, i, now);
    ExtendSpawnOrder(v, s.log, warn, from);
    if Spawns(s, i, now) {
      var ts := s.timers[i := MarkSpawned(t, now)];
      var tail := SpawnEffects(v, t, ts);
      assert ts[i].id == t.id && ts[i].spawned;
      assert SpawnedIn(ts, t.id);
      ExtendSpawnOrder(v, s.log + warn, tail, from);
      assert Visit(v, s, i, now).log == s.log + warn + tail;
    } else {
      assert Visit(v, s, i, now).log == s.log + warn;
    }
  }

  lemma {:induction false} TickFromSpawnOrder(v: Variant, s: TickState, i: nat, now: int, from: nat)
    requires i <= |s.timers| && from <= |s.log|
    requires SpawnOrder(v, s.log, from)
    ensures from <= |TickFrom(v, s, i, now).log| && SpawnOrder(v, TickFrom(v, s, i, now).log, from)
    decreases |s.timers| - i
  {
    if i < |s.timers| {
      VisitKeepsSpawnOrder(v, s, i, now, from);
      TickFromSpawnOrder(v, Visit(v, s, i, now), i + 1, now, from);
    }
  }

  /** In a tick of server.js every spawn post is followed by saving and broadcasting a
      list in which that timer is spawned; in server.cjs the save and the broadcast
      come first. */
  lemma TickSpawnOrder(v: Variant, s: TickState, now: int)
    ensures |s.log| <= |Tick(v, s, now).log| && SpawnOrder(v, Tick(v, s, now).log, |s.log|)
  {
    if |s.timers| > 0 {
      TickFromSpawnOrder(v, s, 0, now, |s.log|);
    }
  }

  // ---------------------------------------------------------------------------
  // Consequences of the exact-15 test.

  /** A timer first seen with fewer than 15 whole minutes left is never warned: no
      later tick finds exactly 15 minutes left. */
  lemma LateTimerNeverWarned(v: Variant, t: Timer, firstSeen: int, later: int)
    requires t.nextSpawn.Some? && MinutesLeft(t.nextSpawn.value, firstSeen) < WarnMinutes
    requires firstSeen <= later
    ensures !WarnDue(v, t, later)
  {
    MinutesLeftNeverRises(t.nextSpawn.value, firstSeen, later);
  }

  /** A timer whose spawn is already due gets only the spawn message in that tick,
      never the warning as well. */
  lemma DueTimerOwesOnlySpawn(v: Variant, t: Timer, warned: set<string>, announced: set<string>, now: int)
    requires SpawnDue(t, now) && t.id !in announced
    ensures Owed(v, t, warned, announced, now) == [Post(t.id, HasSpawned(t.name))]
  {
  }
}
