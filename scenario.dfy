/** A timer's life end to end: built on the client for a 24-hour boss, added at the
    server, warned 15 minutes before its respawn and announced once it is due. */
module Scenario {
  import opened Wrappers
  import opened Timers
  import opened Registry
  import opened Bosses
  import opened Monitor

  const Day: int := 24 * 3600000
  const Quarter: int := 15 * 60000

  lemma LiveraIsADay()
    ensures InfoFor("Livera").hours == 24
  {
    assert Table[3] == ("Livera", BossInfo(24, "Protector`s Ruins"));
  }

  /** A tick over a list of one timer, with nothing warned or announced yet, logs the
      warning if 15 minutes are left and the spawn effects if it is due. */
  lemma OneTimerTick(t: Timer, now: int)
    ensures Tick(ServerJs, TickState([t], {}, {}, []), now).log
         == (if WarnDue(ServerJs, t, now) then [Post(t.id, WarnSoon(t.name))] else [])
          + (if SpawnDue(t, now) then SpawnEffects(ServerJs, t, [MarkSpawned(t, now)]) else [])
    ensures Tick(ServerJs, TickState([t], {}, {}, []), now).timers
         == [if SpawnDue(t, now) then MarkSpawned(t, now) else t]
    ensures Tick(ServerJs, TickState([t], {}, {}, []), now).announcedSpawn
         == if SpawnDue(t, now) then {t.id} else {}
  {
    var s := TickState([t], {}, {}, []);
    assert Tick(ServerJs, s, now) == TickFrom(ServerJs, Visit(ServerJs, s, 0, now), 1, now);
    assert [t][0 := MarkSpawned(t, now)] == [MarkSpawned(t, now)];
  }

  /** The timer the client builds for Livera respawns a day after it was taken, and
      the server takes it into an empty list unchanged. */
  lemma LiveraTimer(acquired: int, id: string)
    requires id != []
    ensures MakeTimerObj("Livera", acquired, id).nextSpawn == Some(acquired + Day)
    ensures AddTimer([], Some(MakeTimerObj("Livera", acquired, id))).timers
         == [MakeTimerObj("Livera", acquired, id)]
  {
    LiveraIsADay();
    var t := MakeTimerObj("Livera", acquired, id);
    assert !HasId([], id);
    assert Entry(t) == t;
  }

  /** Added to an empty list, the timer is warned by a tick 15 minutes before it is due,
      and not by the tick a minute earlier. */
  lemma WarnedAtQuarterToSpawn(acquired: int, id: string)
    requires id != []
    ensures var t := MakeTimerObj("Livera", acquired, id);
            var added := AddTimer([], Some(t)).timers;
            && added == [t]
            && Tick(ServerJs, TickState(added, {}, {}, []), acquired + Day - Quarter).log
                 == [Post(id, WarnSoon("Livera"))]
            && Tick(ServerJs, TickState(added, {}, {}, []), acquired + Day - Quarter - 60000).log == []
  {
    LiveraTimer(acquired, id);
    var t := MakeTimerObj("Livera", acquired, id);
    assert MinutesLeft(acquired + Day, acquired + Day - Quarter) == 15;
    OneTimerTick(t, acquired + Day - Quarter);
    assert MinutesLeft(acquired + Day, acquired + Day - Quarter - 60000) == 16;
    OneTimerTick(t, acquired + Day - Quarter - 60000);
  }

  /** Five minutes after its respawn time the tick marks it spawned and announces it,
      and a second tick says nothing more. */
  lemma AnnouncedAfterSpawn(acquired: int, id: string)
    requires id != []
    ensures var t := MakeTimerObj("Livera", acquired, id);
            var now := acquired + Day + 5 * 60000;
            var r := Tick(ServerJs, TickState([t], {}, {}, []), now);
            && r.timers == [MarkSpawned(t, now)]
            && r.log == [Post(id, HasSpawned("Livera")), Save(r.timers), Update(r.timers)]
            && Tick(ServerJs, r, now + 30000).log == r.log
  {
    LiveraTimer(acquired, id);
    var t := MakeTimerObj("Livera", acquired, id);
    var now := acquired + Day + 5 * 60000;
    assert MinutesLeft(acquired + Day, now) == -5;
    DueThenQuiet(t, now, now + 30000);
  }

  /** A due timer alone in the list is announced and marked by the first tick, and a
      later tick emits nothing more. */
  lemma DueThenQuiet(t: Timer, now: int, later: int)
    requires t.nextSpawn.Some? && MinutesLeft(t.nextSpawn.value, now) <= 0 && now <= later
    ensures var r := Tick(ServerJs, TickState([t], {}, {}, []), now);
            && r.timers == [MarkSpawned(t, now)]
            && r.log == [Post(t.id, HasSpawned(t.name)), Save(r.timers), Update(r.timers)]
            && Tick(ServerJs, r, later).log == r.log
  {
    OneTimerTick(t, now);
    var r := Tick(ServerJs, TickState([t], {}, {}, []), now);
    MinutesLeftNeverRises(t.nextSpawn.value, now, later);
    QuietAfterAnnounce(r, later);
  }

  /** Once its id is announced, a single timer with fewer than 15 minutes left makes a
      tick emit nothing. */
  lemma QuietAfterAnnounce(r: TickState, now: int)
    requires |r.timers| == 1 && r.timers[0].nextSpawn.Some?
    requires MinutesLeft(r.timers[0].nextSpawn.value, now) < WarnMinutes
    requires r.timers[0].id in r.announcedSpawn
    ensures Tick(ServerJs, r, now).log == r.log
  {
    assert Tick(ServerJs, r, now) == TickFrom(ServerJs, Visit(ServerJs, r, 0, now), 1, now);
  }
}
