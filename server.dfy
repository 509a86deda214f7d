/** The server process of server.js / server.cjs: the module-level timer list, the
    two in-memory dedup sets and everything the process emits, with the socket
    handlers and the periodic tick as methods that change them in place. */
module Server {
  import opened Wrappers
  import opened Timers
  import opened Registry
  import opened Monitor

  class TimerServer {
    /** Which of the two server files this process runs. */
    const variant: Variant
    var timers: seq<Timer>
    var warned15: set<string>
    var announcedSpawn: set<string>
    /** Every save, socket emit and webhook post, in order. */
    var log: seq<Effect>

    /** Every alert ever posted is recorded in its set, and none was posted twice. */
    ghost predicate Valid()
      reads this
    {
      PostedOnce(log, warned15, announcedSpawn)
    }

    /** The part of the process a tick works on. */
    function State(): TickState
      reads this
    {
      TickState(timers, warned15, announcedSpawn, log)
    }

    /** Start-up with the list loaded from timers.json (empty when there is none). */
    constructor (v: Variant, loaded: seq<Timer>)
      ensures Valid()
      ensures variant == v && timers == loaded
      ensures warned15 == {} && announcedSpawn == {} && log == []
    {
      variant := v;
      timers := loaded;
      warned15, announcedSpawn := {}, {};
      log := [];
    }

    /** A client connects: it alone receives the current list. */
    method Connect()
      requires Valid()
      modifies this`log
      ensures Valid()
      ensures log == old(log) + [Init(timers)]
    {
      log := log + [Init(timers)];
      AppendOne(old(log), warned15, announcedSpawn, warned15, announcedSpawn, Init(timers));
    }

    /** The `addTimer` socket handler. */
    method AddTimer(payload: Option<Timer>)
      requires Valid()
      modifies this`timers, this`log
      ensures Valid()
      ensures timers == Registry.AddTimer(old(timers), payload).timers
      ensures log == old(log) + Registry.AddTimer(old(timers), payload).effects
      ensures DistinctIds(old(timers)) ==> DistinctIds(timers)
    {
      if payload.None? || payload.value.id == "" {
        return;
      }
      if !HasId(timers, payload.value.id) {
        timers := timers + [Entry(payload.value)];
        log := log + [Save(timers)];
        AppendOne(old(log), warned15, announcedSpawn, warned15, announcedSpawn, Save(timers));
        log := log + [Update(timers)];
        AppendOne(old(log) + [Save(timers)], warned15, announcedSpawn, warned15, announcedSpawn, Update(timers));
      }
      if DistinctIds(old(timers)) {
        AddKeepsDistinct(old(timers), payload);
      }
    }

    /** The `deleteTimer` socket handler. */
    method DeleteTimer(payload: Option<DeleteRequest>)
      requires Valid()
      modifies this`timers, this`log
      ensures Valid()
      ensures timers == Registry.DeleteTimer(old(timers), payload).timers
      ensures log == old(log) + Registry.DeleteTimer(old(timers), payload).effects
      ensures DistinctIds(old(timers)) ==> DistinctIds(timers)
    {
      if DistinctIds(timers) {
        DeleteKeepsDistinct(timers, payload);
      }
      if payload.None? || payload.value.id == "" {
        return;
      }
      var id, code := payload.value.id, payload.value.code;
      if code != Some(DeleteCode) {
        log := log + [DeleteDenied(id, DeniedMessage)];
        AppendOne(old(log), warned15, announcedSpawn, warned15, announcedSpawn, DeleteDenied(id, DeniedMessage));
        return;
      }
      var before := |timers|;
      timers := Filter(timers, KeepOther(id));
      if |timers| != before {
        log := log + [Save(timers)];
        AppendOne(old(log), warned15, announcedSpawn, warned15, announcedSpawn, Save(timers));
        log := log + [Update(timers)];
        AppendOne(old(log) + [Save(timers)], warned15, announcedSpawn, warned15, announcedSpawn, Update(timers));
        log := log + [DeletedSuccess(id)];
        AppendOne(old(log) + [Save(timers)] + [Update(timers)], warned15, announcedSpawn, warned15, announcedSpawn, DeletedSuccess(id));
      }
    }

    /** One run of the 30-second respawn check at clock `now`. */
    method Tick(now: int)
      requires Valid()
      modifies this`timers, this`warned15, this`announcedSpawn, this`log
      ensures Valid()
      ensures State() == Monitor.Tick(variant, old(State()), now)
    {
      TickKeepsPostedOnce(variant, State(), now);
      if |timers| == 0 {
        return;
      }
      var i := 0;
      while i < |timers|
        invariant 0 <= i <= |timers| == |old(timers)|
        invariant TickFrom(variant, State(), i, now) == Monitor.Tick(variant, old(State()), now)
      {
        CheckTimer(i, now);
        i := i + 1;
      }
    }

    /** The body of the tick's loop for the timer at index `i`. */
    method CheckTimer(i: nat, now: int)
      requires i < |timers|
      modifies this`timers, this`warned15, this`announcedSpawn, this`log
      ensures State() == Visit(variant, old(State()), i, now)
    {
      var t := timers[i];
      if t.nextSpawn.None? {
        return;
      }
      var minsLeft := MinutesLeft(t.nextSpawn.value, now);
      if minsLeft == WarnMinutes && t.id !in warned15 && (variant == ServerJs || !t.spawned) {
        warned15 := warned15 + {t.id};
        log := log + [Post(t.id, WarnSoon(t.name))];
      }
      assert log == old(log) + WarnPart(variant, old(State()), i, now);
      if minsLeft <= 0 && t.id !in announcedSpawn {
        announcedSpawn := announcedSpawn + {t.id};
        timers := timers[i := MarkSpawned(t, now)];
        if variant == ServerJs {
          log := log + [Post(t.id, HasSpawned(t.name))];
          log := log + [Save(timers)];
          log := log + [Update(timers)];
        } else {
          log := log + [Save(timers)];
          log := log + [Update(timers)];
          log := log + [Post(t.id, HasSpawned(t.name))];
        }
      }
    }
  }
}
