/** The stand-alone Discord notifier: once a minute it fetches the timer list and
    posts a 15-minute warning and a spawn notice per boss name, remembering in two
    sets which names it has already announced. */
module Notifier {
  import opened Wrappers
  import opened Timers

  /** An entry of the fetched list as the notifier reads it: a missing or unusable
      `spawnAt` is None, which makes every comparison on the minutes false. */
  datatype Polled = Polled(name: string, spawnAt: Option<int>, spawned: bool)

  /** What the notifier remembers between checks, and the posts delivered so far. */
  datatype Memory = Memory(notified15: set<string>, notifiedSpawn: set<string>, posted: seq<Notice>)

  /** The state inside one check: the memory, how many more posts will succeed
      (None: all of them) and whether a post has failed, which ends the check. */
  datatype Poll = Poll(mem: Memory, budget: Option<nat>, failed: bool)

  /** One webhook post: it fails when the budget is spent; otherwise it is delivered. */
  function Deliver(p: Poll, n: Notice): (r: Poll)
    requires !p.failed
    ensures r.failed <==> p.budget == Some(0)
    ensures r.failed ==> r.mem == p.mem
    ensures !r.failed ==> r.mem.posted == p.mem.posted + [n]
                          && r.mem.notified15 == p.mem.notified15
                          && r.mem.notifiedSpawn == p.mem.notifiedSpawn
  {
    match p.budget
    case Some(b) =>
      if b == 0 then p.(failed := true)
      else Poll(p.mem.(posted := p.mem.posted + [n]), Some(b - 1), false)
    case None => Poll(p.mem.(posted := p.mem.posted + [n]), None, false)
  }

  /** The minutes the notifier computes, or None when `spawnAt` is missing. */
  function Minutes(t: Polled, now: int): Option<int>
  {
    if t.spawnAt.None? then None else Some(MinutesLeft(t.spawnAt.value, now))
  }

  predicate WarnWanted(m: Memory, t: Polled, now: int)
  {
    !t.spawned && Minutes(t, now) == Some(WarnMinutes) && t.name !in m.notified15
  }

  predicate SpawnWanted(m: Memory, t: Polled, now: int)
  {
    !t.spawned && Minutes(t, now).Some? && Minutes(t, now).value <= 0 && t.name !in m.notifiedSpawn
  }

  /** One entry of the loop: a spawned entry is skipped; a warning is posted and its
      name remembered when the minutes are exactly 15; a spawn notice when they are
      zero or below. The name is remembered only once its post went through. */
  function Visit(p: Poll, t: Polled, now: int): (r: Poll)
    requires !p.failed
    ensures !WarnWanted(p.mem, t, now) && !SpawnWanted(p.mem, t, now) ==> r == p
    ensures r.failed ==> r.mem == p.mem && p.budget == Some(0)
    ensures p.budget.None? ==> !r.failed && r.budget.None?
    ensures !r.failed && WarnWanted(p.mem, t, now) ==>
              r.mem == Memory(p.mem.notified15 + {t.name}, p.mem.notifiedSpawn,
                              p.mem.posted + [WarnSoon(t.name)])
    ensures !r.failed && !WarnWanted(p.mem, t, now) && SpawnWanted(p.mem, t, now) ==>
              r.mem == Memory(p.mem.notified15, p.mem.notifiedSpawn + {t.name},
                              p.mem.posted + [HasSpawned(t.name)])
  {
    if WarnWanted(p.mem, t, now) then
      var q := Deliver(p, WarnSoon(t.name));
      if q.failed then q else q.(mem := q.mem.(notified15 := q.mem.notified15 + {t.name}))
    else if SpawnWanted(p.mem, t, now) then
      var q := Deliver(p, HasSpawned(t.name));
      if q.failed then q else q.(mem := q.mem.(notifiedSpawn := q.mem.notifiedSpawn + {t.name}))
    else p
  }

  /** The loop over the fetched list from its head; a failed post ends it. Neither
      set loses a name. */
  function Run(p: Poll, ts: seq<Polled>, now: int): (r: Poll)
    ensures p.mem.notified15 <= r.mem.notified15 && p.mem.notifiedSpawn <= r.mem.notifiedSpawn
    decreases |ts|
  {
    if ts == [] || p.failed then p else Run(Visit(p, ts[0], now), ts[1..], now)
  }

  /** `checkBosses`: a failed fetch changes nothing; otherwise the loop runs over the
      fetched list, and whatever it did before a failure stays done. */
  function Check(m: Memory, fetched: Option<seq<Polled>>, now: int, budget: Option<nat>): (r: Memory)
    ensures fetched.None? ==> r == m
    ensures m.notified15 <= r.notified15 && m.notifiedSpawn <= r.notifiedSpawn
  {
    if fetched.None? then m else Run(Poll(m, budget, false), fetched.value, now).mem
  }

  // ---------------------------------------------------------------------------
  // Properties.

  /** Memory only grows: both sets keep their names and earlier posts stay. */
  predicate Grows(m: Memory, m': Memory)
  {
    m.notified15 <= m'.notified15 && m.notifiedSpawn <= m'.notifiedSpawn
    && |m.posted| <= |m'.posted| && m'.posted[..|m.posted|] == m.posted
  }

  lemma VisitGrows(p: Poll, t: Polled, now: int)
    requires !p.failed
    ensures Grows(p.mem, Visit(p, t, now).mem)
  {
    var r := Visit(p, t, now);
    if |r.mem.posted| > |p.mem.posted| {
      assert r.mem.posted[..|p.mem.posted|] == p.mem.posted;
    }
  }

  lemma {:induction false} RunGrows(p: Poll, ts: seq<Polled>, now: int)
    ensures Grows(p.mem, Run(p, ts, now).mem)
    decreases |ts|
  {
    if ts != [] && !p.failed {
      var q := Visit(p, ts[0], now);
      VisitGrows(p, ts[0], now);
      RunGrows(q, ts[1..], now);
      var r := Run(q, ts[1..], now).mem;
      assert r.posted[..|q.mem.posted|][..|p.mem.posted|] == r.posted[..|p.mem.posted|];
    }
  }

  /** A check never forgets a name and never takes back a post. */
  lemma CheckGrows(m: Memory, fetched: Option<seq<Polled>>, now: int, budget: Option<nat>)
    ensures Grows(m, Check(m, fetched, now, budget))
  {
    if fetched.Some? {
      RunGrows(Poll(m, budget, false), fetched.value, now);
    }
  }

  /** A notice is warranted by an entry when the entry is not spawned, carries its
      name, and has exactly 15 minutes left for a warning, or none for a spawn. */
  predicate Justifies(t: Polled, n: Notice, now: int)
  {
    !t.spawned && n.name == t.name
    && match n
       case WarnSoon(_) => Minutes(t, now) == Some(WarnMinutes)
       case HasSpawned(_) => Minutes(t, now).Some? && Minutes(t, now).value <= 0
  }

  /** Every notice a run posts is warranted by an entry of the list. */
  lemma {:induction false} RunSound(p: Poll, ts: seq<Polled>, now: int)
    ensures forall j :: |p.mem.posted| <= j < |Run(p, ts, now).mem.posted| ==>
              exists k :: 0 <= k < |ts| && Justifies(ts[k], Run(p, ts, now).mem.posted[j], now)
    decreases |ts|
  {
    if ts != [] && !p.failed {
      var q := Visit(p, ts[0], now);
      var r := Run(q, ts[1..], now);
      assert Run(p, ts, now) == r;
      RunGrows(q, ts[1..], now);
      RunSound(q, ts[1..], now);
      forall j | |p.mem.posted| <= j < |r.mem.posted|
        ensures exists k :: 0 <= k < |ts| && Justifies(ts[k], r.mem.posted[j], now)
      {
        if j < |q.mem.posted| {
          assert r.mem.posted[j] == q.mem.posted[j] by {
            assert r.mem.posted[..|q.mem.posted|][j] == r.mem.posted[j];
          }
          if WarnWanted(p.mem, ts[0], now) {
            assert q.mem.posted == p.mem.posted + [WarnSoon(ts[0].name)];
            assert q.mem.posted[j] == WarnSoon(ts[0].name);
          } else {
            assert SpawnWanted(p.mem, ts[0], now);
            assert q.mem.posted == p.mem.posted + [HasSpawned(ts[0].name)];
            assert q.mem.posted[j] == HasSpawned(ts[0].name);
          }
          assert Justifies(ts[0], r.mem.posted[j], now);
        } else {
          var k :| 0 <= k < |ts[1..]| && Justifies(ts[1..][k], r.mem.posted[j], now);
          assert ts[1..][k] == ts[k + 1];
          assert Justifies(ts[k + 1], r.mem.posted[j], now);
        }
      }
    } else {
      assert Run(p, ts, now) == p;
    }
  }

  /** Every notice a check posts is warranted by an entry of the fetched list. */
  lemma CheckSound(m: Memory, fetched: Option<seq<Polled>>, now: int, budget: Option<nat>)
    ensures forall j :: |m.posted| <= j < |Check(m, fetched, now, budget).posted| ==>
              fetched.Some? && exists k :: 0 <= k < |fetched.value|
                                 && Justifies(fetched.value[k], Check(m, fetched, now, budget).posted[j], now)
  {
    if fetched.Some? {
      var ts := fetched.value;
      var r := Run(Poll(m, budget, false), ts, now).mem;
      assert Check(m, fetched, now, budget) == r;
      RunSound(Poll(m, budget, false), ts, now);
      forall j | |m.posted| <= j < |r.posted|
        ensures exists k :: 0 <= k < |ts| && Justifies(ts[k], r.posted[j], now)
      {
      }
    } else {
      assert Check(m, fetched, now, budget) == m;
    }
  }

  /** What a longer list of posts keeps of a shorter one it extends. */
  lemma PrefixKeeps(a: seq<Notice>, b: seq<Notice>)
    requires |a| <= |b| && b[..|a|] == a
    ensures forall n :: n in a ==> n in b
  {
    forall n | n in a ensures n in b {
      var i :| 0 <= i < |a| && a[i] == n;
      assert b[..|a|][i] == b[i];
    }
  }

  /** An entry due for a warning. */
  predicate WarnDueEntry(t: Polled, now: int)
  {
    !t.spawned && Minutes(t, now) == Some(WarnMinutes)
  }

  /** An entry due for a spawn notice. */
  predicate SpawnDueEntry(t: Polled, now: int)
  {
    !t.spawned && Minutes(t, now).Some? && Minutes(t, now).value <= 0
  }

  /** One entry, when every post goes through: a due entry ends with its name in the
      set, and its notice posted unless the name was there already; a name enters a
      set only together with its notice. */
  lemma VisitComplete(p: Poll, t: Polled, now: int)
    requires p.budget.None? && !p.failed
    ensures var q := Visit(p, t, now);
      && (WarnDueEntry(t, now) ==>
            t.name in q.mem.notified15 && (t.name !in p.mem.notified15 ==> WarnSoon(t.name) in q.mem.posted))
      && (SpawnDueEntry(t, now) ==>
            t.name in q.mem.notifiedSpawn && (t.name !in p.mem.notifiedSpawn ==> HasSpawned(t.name) in q.mem.posted))
      && (forall x :: x in q.mem.notified15 && x !in p.mem.notified15 ==> WarnSoon(x) in q.mem.posted)
      && (forall x :: x in q.mem.notifiedSpawn && x !in p.mem.notifiedSpawn ==> HasSpawned(x) in q.mem.posted)
  {
    var q := Visit(p, t, now);
    if WarnWanted(p.mem, t, now) {
      assert q.mem.posted[|p.mem.posted|] == WarnSoon(t.name);
    } else if SpawnWanted(p.mem, t, now) {
      assert q.mem.posted[|p.mem.posted|] == HasSpawned(t.name);
    }
  }

  /** With every post going through, a run leaves each due entry's name in the
      matching set, with its notice posted unless the name was remembered before. */
  lemma {:induction false} RunComplete(p: Poll, ts: seq<Polled>, now: int)
    requires p.budget.None? && !p.failed
    ensures forall k :: 0 <= k < |ts| && WarnDueEntry(ts[k], now) ==>
              ts[k].name in Run(p, ts, now).mem.notified15
              && (ts[k].name !in p.mem.notified15 ==> WarnSoon(ts[k].name) in Run(p, ts, now).mem.posted)
    ensures forall k :: 0 <= k < |ts| && SpawnDueEntry(ts[k], now) ==>
              ts[k].name in Run(p, ts, now).mem.notifiedSpawn
              && (ts[k].name !in p.mem.notifiedSpawn ==> HasSpawned(ts[k].name) in Run(p, ts, now).mem.posted)
    decreases |ts|
  {
    if ts != [] {
      var q := Visit(p, ts[0], now);
      var r := Run(q, ts[1..], now);
      assert Run(p, ts, now) == r;
      VisitComplete(p, ts[0], now);
      RunComplete(q, ts[1..], now);
      RunGrows(q, ts[1..], now);
      PrefixKeeps(q.mem.posted, r.mem.posted);
      forall k | 0 <= k < |ts| && WarnDueEntry(ts[k], now)
        ensures ts[k].name in r.mem.notified15
                && (ts[k].name !in p.mem.notified15 ==> WarnSoon(ts[k].name) in r.mem.posted)
      {
        if k > 0 { assert ts[k] == ts[1..][k - 1]; }
      }
      forall k | 0 <= k < |ts| && SpawnDueEntry(ts[k], now)
        ensures ts[k].name in r.mem.notifiedSpawn
                && (ts[k].name !in p.mem.notifiedSpawn ==> HasSpawned(ts[k].name) in r.mem.posted)
      {
        if k > 0 { assert ts[k] == ts[1..][k - 1]; }
      }
    }
  }

  /** A check that fetched the list and whose posts all go through leaves every
      unspawned entry with 15 minutes left warned and every due one announced: its
      name is remembered and its notice posted, by this check or an earlier one. */
  lemma CheckComplete(m: Memory, ts: seq<Polled>, now: int)
    requires Consistent(m)
    ensures forall k :: 0 <= k < |ts| && WarnDueEntry(ts[k], now) ==>
              ts[k].name in Check(m, Some(ts), now, None).notified15
              && WarnSoon(ts[k].name) in Check(m, Some(ts), now, None).posted
    ensures forall k :: 0 <= k < |ts| && SpawnDueEntry(ts[k], now) ==>
              ts[k].name in Check(m, Some(ts), now, None).notifiedSpawn
              && HasSpawned(ts[k].name) in Check(m, Some(ts), now, None).posted
  {
    var r := Check(m, Some(ts), now, None);
    RunComplete(Poll(m, None, false), ts, now);
    CheckGrows(m, Some(ts), now, None);
    PrefixKeeps(m.posted, r.posted);
  }

  /** Each name is remembered exactly when its notice was posted, and no notice was
      posted twice. */
  ghost predicate Consistent(m: Memory)
  {
    && (forall name :: name in m.notified15 <==> WarnSoon(name) in m.posted)
    && (forall name :: name in m.notifiedSpawn <==> HasSpawned(name) in m.posted)
    && (forall i, j :: 0 <= i < j < |m.posted| ==> m.posted[i] != m.posted[j])
  }

  lemma EmptyConsistent()
    ensures Consistent(Memory({}, {}, []))
  {
  }

  /** Appending a notice that was not yet posted keeps the posts free of repeats. */
  lemma AppendFresh(s: seq<Notice>, n: Notice)
    requires forall i, j :: 0 <= i < j < |s| ==> s[i] != s[j]
    requires n !in s
    ensures forall i, j :: 0 <= i < j < |s + [n]| ==> (s + [n])[i] != (s + [n])[j]
  {
  }

  lemma VisitConsistent(p: Poll, t: Polled, now: int)
    requires !p.failed && Consistent(p.mem)
    ensures Consistent(Visit(p, t, now).mem)
  {
    var m := p.mem;
    if WarnWanted(m, t, now) {
      var q := Deliver(p, WarnSoon(t.name));
      if !q.failed {
        AppendFresh(m.posted, WarnSoon(t.name));
      }
    } else if SpawnWanted(m, t, now) {
      var q := Deliver(p, HasSpawned(t.name));
      if !q.failed {
        AppendFresh(m.posted, HasSpawned(t.name));
      }
    }
  }

  lemma {:induction false} RunConsistent(p: Poll, ts: seq<Polled>, now: int)
    requires Consistent(p.mem)
    ensures Consistent(Run(p, ts, now).mem)
    decreases |ts|
  {
    if ts != [] && !p.failed {
      VisitConsistent(p, ts[0], now);
      RunConsistent(Visit(p, ts[0], now), ts[1..], now);
    }
  }

  /** Starting from nothing and checking any number of times, each boss name gets at
      most one warning and one spawn notice, and only for names in the sets. */
  lemma CheckConsistent(m: Memory, fetched: Option<seq<Polled>>, now: int, budget: Option<nat>)
    requires Consistent(m)
    ensures Consistent(Check(m, fetched, now, budget))
  {
    if fetched.Some? {
      RunConsistent(Poll(m, budget, false), fetched.value, now);
    }
  }

  /** A spawned entry takes no part in a check. */
  lemma {:induction false} RunSkipsSpawned(p: Poll, ts: seq<Polled>, now: int)
    ensures Run(p, ts, now) == Run(p, Filter(ts, (t: Polled) => !t.spawned), now)
    decreases |ts|
  {
    var keep := (t: Polled) => !t.spawned;
    if ts != [] && !p.failed {
      assert ts == [ts[0]] + ts[1..];
      FilterAppend([ts[0]], ts[1..], keep);
      assert Filter([ts[0]], keep) == if keep(ts[0]) then [ts[0]] else [] by {
        assert [ts[0]][1..] == [];
      }
      RunSkipsSpawned(Visit(p, ts[0], now), ts[1..], now);
      RunSkipsSpawned(p, ts[1..], now);
      if !keep(ts[0]) && !p.failed {
        assert Visit(p, ts[0], now) == p;
      } else if keep(ts[0]) && !p.failed {
        var f := Filter(ts, keep);
        assert f == [ts[0]] + Filter(ts[1..], keep);
        assert f[0] == ts[0] && f[1..] == Filter(ts[1..], keep);
      }
    }
  }

  /** With unlimited posts the loop never fails. */
  lemma {:induction false} RunUnlimited(p: Poll, ts: seq<Polled>, now: int)
    requires p.budget.None? && !p.failed
    ensures !Run(p, ts, now).failed && Run(p, ts, now).budget.None?
    decreases |ts|
  {
    if ts != [] {
      RunUnlimited(Visit(p, ts[0], now), ts[1..], now);
    }
  }

  /** A failing post leaves the check as if the list had ended before the entry it
      was for: the memory equals that of a check with unlimited posts over a prefix. */
  lemma {:induction false} RunPrefix(p: Poll, ts: seq<Polled>, now: int) returns (j: nat)
    requires !p.failed
    ensures j <= |ts|
    ensures Run(p, ts, now).mem == Run(p.(budget := None), ts[..j], now).mem
    ensures p.budget.None? ==> j == |ts|
    decreases |ts|
  {
    if ts == [] {
      j := 0;
    } else {
      var q := Visit(p, ts[0], now);
      var u := Visit(p.(budget := None), ts[0], now);
      if q.failed {
        j := 0;
        assert Run(p, ts, now) == q;
      } else {
        assert u == q.(budget := None);
        var k := RunPrefix(q, ts[1..], now);
        j := k + 1;
        assert ts[..j] == [ts[0]] + ts[1..][..k];
        assert ts[..j][1..] == ts[1..][..k];
      }
    }
  }

  lemma CheckPrefix(m: Memory, ts: seq<Polled>, now: int, budget: Option<nat>) returns (j: nat)
    ensures j <= |ts|
    ensures Check(m, Some(ts), now, budget) == Check(m, Some(ts[..j]), now, None)
    ensures budget.None? ==> j == |ts|
  {
    j := RunPrefix(Poll(m, budget, false), ts, now);
  }

  /** A failed fetch changes nothing. */
  lemma FailedFetchChangesNothing(m: Memory, now: int, budget: Option<nat>)
    ensures Check(m, None, now, budget) == m
  {
  }

  // ---------------------------------------------------------------------------
  // The list the servers publish.

  /** How the notifier reads a server timer: the servers' JSON has `nextSpawn` and no
      `spawnAt`, so the time the notifier reads is missing. */
  function FromServer(t: Timer): Polled
  {
    Polled(t.name, None, t.spawned)
  }

  /** Reading `nextSpawn` instead, as the notifier evidently means to. */
  function FromServerFixed(t: Timer): Polled
  {
    Polled(t.name, t.nextSpawn, t.spawned)
  }

  function ReadAll(ts: seq<Timer>, read: Timer -> Polled): (r: seq<Polled>)
    ensures |r| == |ts| && forall k :: 0 <= k < |ts| ==> r[k] == read(ts[k])
  {
    if ts == [] then [] else [read(ts[0])] + ReadAll(ts[1..], read)
  }

  /** As written, no entry ever wants a post, so no check against the servers' list
      posts anything or remembers any name. */
  lemma {:induction false} AsWrittenNeverPosts(p: Poll, ts: seq<Timer>, now: int)
    ensures Run(p, ReadAll(ts, FromServer), now) == p
    decreases |ts|
  {
    if ts != [] {
      var r := ReadAll(ts, FromServer);
      assert r[1..] == ReadAll(ts[1..], FromServer);
      AsWrittenNeverPosts(p, ts[1..], now);
    }
  }

  lemma AsWrittenCheckIsSilent(m: Memory, ts: seq<Timer>, now: int, budget: Option<nat>)
    ensures Check(m, Some(ReadAll(ts, FromServer)), now, budget) == m
  {
    AsWrittenNeverPosts(Poll(m, budget, false), ts, now);
  }

  /** Read as intended, an unspawned timer 15 minutes from its spawn is announced. */
  lemma FixedWarns(m: Memory, t: Timer, now: int)
    requires !t.spawned && t.nextSpawn.Some? && MinutesLeft(t.nextSpawn.value, now) == WarnMinutes
    requires t.name !in m.notified15
    ensures Check(m, Some(ReadAll([t], FromServerFixed)), now, None).posted == m.posted + [WarnSoon(t.name)]
    ensures t.name in Check(m, Some(ReadAll([t], FromServerFixed)), now, None).notified15
  {
    var r := ReadAll([t], FromServerFixed);
    assert r == [FromServerFixed(t)];
    var p := Poll(m, None, false);
    assert WarnWanted(m, r[0], now);
    assert Run(p, r, now) == Run(Visit(p, r[0], now), r[1..], now);
    assert r[1..] == [];
  }

  /** Read as intended, a due timer is announced as spawned. */
  lemma FixedAnnouncesSpawn(m: Memory, t: Timer, now: int)
    requires !t.spawned && t.nextSpawn.Some? && t.nextSpawn.value <= now
    requires t.name !in m.notifiedSpawn
    ensures Check(m, Some(ReadAll([t], FromServerFixed)), now, None).posted == m.posted + [HasSpawned(t.name)]
  {
    var r := ReadAll([t], FromServerFixed);
    assert r == [FromServerFixed(t)];
    var p := Poll(m, None, false);
    assert !WarnWanted(m, r[0], now) && SpawnWanted(m, r[0], now);
    assert Run(p, r, now) == Run(Visit(p, r[0], now), r[1..], now);
    assert r[1..] == [];
  }

  // ---------------------------------------------------------------------------
  // The notifier process.

  class NotifierProcess {
    var notified15: set<string>
    var notifiedSpawn: set<string>
    var posted: seq<Notice>

    function Mem(): Memory
      reads this
    {
      Memory(notified15, notifiedSpawn, posted)
    }

    ghost predicate Valid()
      reads this
    {
      Consistent(Mem())
    }

    constructor()
      ensures Mem() == Memory({}, {}, []) && Valid()
    {
      notified15, notifiedSpawn, posted := {}, {}, [];
    }

    /** `checkBosses`, with the fetch result, the clock and the number of posts that
        go through as parameters. */
    method CheckBosses(fetched: Option<seq<Polled>>, now: int, budget: Option<nat>)
      requires Valid()
      modifies this
      ensures Mem() == Check(old(Mem()), fetched, now, budget) && Valid()
    {
      CheckConsistent(Mem(), fetched, now, budget);
      if fetched.None? {
        return;
      }
      var ts := fetched.value;
      ghost var start := Poll(Mem(), budget, false);
      var left := budget;
      var i := 0;
      while i < |ts|
        invariant 0 <= i <= |ts|
        invariant Run(start, ts, now) == Run(Poll(Mem(), left, false), ts[i..], now)
      {
        var t := ts[i];
        ghost var before := Poll(Mem(), left, false);
        assert ts[i..][0] == t && ts[i..][1..] == ts[i + 1..];
        if !t.spawned && t.spawnAt.Some? {
          var mins := MinutesLeft(t.spawnAt.value, now);
          if mins == WarnMinutes && t.name !in notified15 {
            if left == Some(0) {
              break;
            }
            posted := posted + [WarnSoon(t.name)];
            left := if left.Some? then Some(left.value - 1) else None;
            notified15 := notified15 + {t.name};
          }
          if mins <= 0 && t.name !in notifiedSpawn {
            if left == Some(0) {
              break;
            }
            posted := posted + [HasSpawned(t.name)];
            left := if left.Some? then Some(left.value - 1) else None;
            notifiedSpawn := notifiedSpawn + {t.name};
          }
        }
        assert Visit(before, t, now) == Poll(Mem(), left, false);
        i := i + 1;
      }
    }
  }
}
