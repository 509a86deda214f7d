/** The timer record shared by the two servers, the browser client and the notifier,
    with the arithmetic and list helpers they have in common. */
module Timers {
  import opened Wrappers

  const MsPerSecond: int := 1000
  const MsPerMinute: int := 60000
  const MsPerHour: int := 3600000

  /** The warning threshold, in whole minutes before the spawn. */
  const WarnMinutes: int := 15

  /** One tracked boss respawn. Timestamps are milliseconds since the epoch.
      `nextSpawn` is None when the field is missing or is not a parseable date;
      an `id` of "" stands for a missing or otherwise falsy id. */
  datatype Timer = Timer(
    id: string,
    name: string,
    location: string,
    acquired: Option<int>,
    nextSpawn: Option<int>,
    spawned: bool,
    spawnedTime: Option<int>)

  /** A webhook message: the 15-minute warning or the spawn announcement for a boss name. */
  datatype Notice = WarnSoon(name: string) | HasSpawned(name: string)

  /** Whole minutes from `now` until `spawnAt`, rounded down as `Math.floor` does,
      also for a spawn time in the past. */
  function MinutesLeft(spawnAt: int, now: int): (m: int)
    ensures m * MsPerMinute <= spawnAt - now < m * MsPerMinute + MsPerMinute
    ensures spawnAt <= now ==> m <= 0
    ensures m <= 0 <==> spawnAt - now < MsPerMinute
  {
    (spawnAt - now) / MsPerMinute
  }

  /** Time only runs forward: a later clock never shows more minutes left. */
  lemma MinutesLeftNeverRises(spawnAt: int, earlier: int, later: int)
    requires earlier <= later
    ensures MinutesLeft(spawnAt, later) <= MinutesLeft(spawnAt, earlier)
  {
    var a, b := MinutesLeft(spawnAt, earlier), MinutesLeft(spawnAt, later);
    assert b * MsPerMinute < a * MsPerMinute + MsPerMinute;
  }

  /** `Array.prototype.filter`: the elements of `s` that `keep` accepts, in order. */
  function Filter<T(==,!new)>(s: seq<T>, keep: T -> bool): (r: seq<T>)
    ensures |r| <= |s|
    ensures forall x :: x in r <==> x in s && keep(x)
    ensures |r| == |s| <==> forall i :: 0 <= i < |s| ==> keep(s[i])
    ensures |r| == |s| ==> r == s
  {
    if s == [] then []
    else
      var rest := Filter(s[1..], keep);
      assert forall x :: x in s <==> x == s[0] || x in s[1..];
      if keep(s[0]) then [s[0]] + rest else rest
  }

  /** Filtering keeps the original order: it distributes over concatenation. */
  lemma {:induction false} FilterAppend<T(!new)>(a: seq<T>, b: seq<T>, keep: T -> bool)
    ensures Filter(a + b, keep) == Filter(a, keep) + Filter(b, keep)
  {
    if a == [] {
      assert a + b == b;
    } else {
      var head := if keep(a[0]) then [a[0]] else [];
      assert (a + b)[0] == a[0] && (a + b)[1..] == a[1..] + b;
      assert Filter(a + b, keep) == head + Filter(a[1..] + b, keep);
      assert Filter(a, keep) == head + Filter(a[1..], keep);
      FilterAppend(a[1..], b, keep);
      ConcatAssoc(head, Filter(a[1..], keep), Filter(b, keep));
    }
  }

  lemma ConcatAssoc<T>(a: seq<T>, b: seq<T>, c: seq<T>)
    ensures (a + b) + c == a + (b + c)
  {
  }

  /** No two timers of the list share an id. */
  predicate DistinctIds(ts: seq<Timer>)
  {
    forall i, j :: 0 <= i < j < |ts| ==> ts[i].id != ts[j].id
  }

  /** Some timer of the list has this id (`timers.find(t => t.id === id)`). */
  predicate HasId(ts: seq<Timer>, id: string)
  {
    exists i :: 0 <= i < |ts| && ts[i].id == id
  }
}
