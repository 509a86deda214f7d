/** The browser client's boss table, the timer object it builds from a boss name and
    an acquired time, and the detection of a boss name in recognised text. */
module Bosses {
  import opened Wrappers
  import opened Timers
  import opened Text

  /** A boss's respawn delay in hours and where it spawns. */
  datatype BossInfo = BossInfo(hours: int, location: string)

  /** `bossReference`, in insertion order (the order `Object.keys` gives). */
  const Table: seq<(string, BossInfo)> := [
    ("Venatus", BossInfo(10, "Corrupted Basin")),
    ("Viorent", BossInfo(10, "Crescent Lake")),
    ("Ego", BossInfo(21, "Ulan Canyon")),
    ("Livera", BossInfo(24, "Protector`s Ruins")),
    ("Araneo", BossInfo(24, "Lower Tomb of Tyriosa 1F")),
    ("Undomiel", BossInfo(24, "Secret Laboratory")),
    ("Lady Dalia", BossInfo(18, "Twilight Hill")),
    ("General Aquleus", BossInfo(29, "Lower Tomb of Tyriosa 2F")),
    ("Amentis", BossInfo(29, "Land of Glory")),
    ("Baron Braudmore", BossInfo(32, "Battlefield of Templar")),
    ("Wannitas", BossInfo(48, "Plateau of Revolution")),
    ("Metus", BossInfo(48, "Plateau of Revolution")),
    ("Duplican", BossInfo(48, "Plateau of Revolution")),
    ("Shuliar", BossInfo(95, "Ruins of the War")),
    ("Gareth", BossInfo(32, "Deadman`s Land District 1")),
    ("Titore", BossInfo(37, "Deadman`s Land District 2")),
    ("Larba", BossInfo(35, "Ruins of the War")),
    ("Catena", BossInfo(35, "Deadman`s Land District 3")),
    ("Secreta", BossInfo(62, "Silvergrass Field")),
    ("Ordo", BossInfo(62, "Silvergrass Field")),
    ("Asta", BossInfo(62, "Silvergrass Field")),
    ("Supore", BossInfo(62, "Silvergrass Field"))
  ]

  /** What `makeTimerObj` falls back to for a name not in the table. */
  const Fallback: BossInfo := BossInfo(24, "Unknown")

  /** Every boss in the table respawns a positive number of hours after it is taken. */
  lemma TableHoursPositive()
    ensures forall k :: 0 <= k < |Table| ==> Table[k].1.hours > 0
  {
  }

  /** The table entry for `name` (`bossReference[name]`). */
  function Lookup(name: string): (r: Option<BossInfo>)
    ensures r.None? <==> forall k :: 0 <= k < |Table| ==> Table[k].0 != name
    ensures r.Some? ==> exists k :: 0 <= k < |Table| && Table[k] == (name, r.value)
  {
    LookupIn(Table, name)
  }

  function LookupIn(entries: seq<(string, BossInfo)>, name: string): (r: Option<BossInfo>)
    ensures r.None? <==> forall k :: 0 <= k < |entries| ==> entries[k].0 != name
    ensures r.Some? ==> exists k :: 0 <= k < |entries| && entries[k] == (name, r.value)
  {
    if entries == [] then None
    else if entries[0].0 == name then Some(entries[0].1)
    else
      var r := LookupIn(entries[1..], name);
      assert r.Some? ==> exists k :: 0 <= k < |entries[1..]| && entries[1..][k] == (name, r.value);
      assert forall k :: 0 <= k < |entries[1..]| ==> entries[1..][k] == entries[k + 1];
      r
  }

  /** The hours and location `makeTimerObj` uses for `name`. */
  function InfoFor(name: string): (info: BossInfo)
    ensures info.hours > 0
    ensures Lookup(name).None? ==> info == Fallback
    ensures Lookup(name).Some? ==> info == Lookup(name).value
  {
    TableHoursPositive();
    match Lookup(name)
    case Some(info) => info
    case None => Fallback
  }

  /** `makeTimerObj(name, acquired)`: the timer the client asks the server to add.
      The clock-and-random id is a parameter. */
  function MakeTimerObj(name: string, acquired: int, id: string): (t: Timer)
    ensures t.id == id && t.name == name && !t.spawned && t.spawnedTime.None?
    ensures t.acquired == Some(acquired)
    ensures t.nextSpawn == Some(acquired + InfoFor(name).hours * MsPerHour)
    ensures t.location == InfoFor(name).location
    ensures t.nextSpawn.value > acquired
  {
    var info := InfoFor(name);
    var next := acquired + info.hours * MsPerHour;
    assert next > acquired by {
      assert info.hours * MsPerHour >= MsPerHour;
    }
    Timer(id, name, info.location, Some(acquired), Some(next), false, None)
  }

  /** A name that is not in the table respawns after 24 hours in "Unknown". */
  lemma UnknownBossDefaults(name: string, acquired: int, id: string)
    requires forall k :: 0 <= k < |Table| ==> Table[k].0 != name
    ensures MakeTimerObj(name, acquired, id).nextSpawn == Some(acquired + 24 * MsPerHour)
    ensures MakeTimerObj(name, acquired, id).location == "Unknown"
  {
  }

  // ---------------------------------------------------------------------------
  // Detection of a boss name in recognised text.

  /** Whether the table name occurs in the lower-cased text, ignoring case. */
  predicate Mentions(lowered: string, name: string)
  {
    Contains(lowered, Lower(name))
  }

  /** The first of the entries, in order, whose name the lower-cased text mentions. */
  function FindBoss(lowered: string, entries: seq<(string, BossInfo)>): (r: Option<string>)
    ensures r.None? <==> forall k :: 0 <= k < |entries| ==> !Mentions(lowered, entries[k].0)
    ensures r.Some? ==> exists k :: 0 <= k < |entries| && entries[k].0 == r.value
                          && Mentions(lowered, r.value)
                          && forall j :: 0 <= j < k ==> !Mentions(lowered, entries[j].0)
  {
    if entries == [] then None
    else if Mentions(lowered, entries[0].0) then Some(entries[0].0)
    else
      var r := FindBoss(lowered, entries[1..]);
      assert forall k :: 0 <= k < |entries[1..]| ==> entries[1..][k] == entries[k + 1];
      if r.Some? then
        var k :| 0 <= k < |entries[1..]| && entries[1..][k].0 == r.value
                 && Mentions(lowered, r.value)
                 && forall j :: 0 <= j < k ==> !Mentions(lowered, entries[1..][j].0);
        assert entries[k + 1].0 == r.value;
        assert forall j :: 0 <= j < k + 1 ==> !Mentions(lowered, entries[j].0) by {
          forall j | 0 <= j < k + 1 ensures !Mentions(lowered, entries[j].0) {
            if j > 0 { assert entries[j] == entries[1..][j - 1]; }
          }
        }
        r
      else r
  }

  /** The boss detected in recognised text: the first table name, in table order,
      whose lower-case form occurs in the lower-cased text, or None. */
  function DetectBoss(text: string): (r: Option<string>)
    ensures r.Some? ==> Mentions(Lower(text), r.value)
  {
    FindBoss(Lower(text), Table)
  }

  /** Nothing is detected exactly when the text mentions no boss of the table. */
  lemma DetectBossNone(text: string)
    ensures DetectBoss(text).None? <==> forall k :: 0 <= k < |Table| ==> !Mentions(Lower(text), Table[k].0)
  {
  }

  /** The detected boss is the earliest table entry the text mentions. */
  lemma DetectBossIsFirst(text: string)
    requires DetectBoss(text).Some?
    ensures exists k :: 0 <= k < |Table| && Table[k].0 == DetectBoss(text).value
                        && forall j :: 0 <= j < k ==> !Mentions(Lower(text), Table[j].0)
  {
  }
}
