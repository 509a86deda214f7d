/** The browser client: the list of timers it shows, the active table it renders
    every second, and the timers it builds from the manual form and from recognised
    text before sending them to the server. */
module ClientView {
  import opened Wrappers
  import opened Timers
  import opened Text
  import opened Bosses
  import opened TimeToken
  import opened Html
  import opened Registry

  // ---------------------------------------------------------------------------
  // Snapshots and the active table.

  function NotSpawned(): Timer -> bool
  {
    (t: Timer) => !t.spawned
  }

  /** What the client keeps of an `init` or `update` snapshot: the unspawned timers,
      in order; a missing snapshot counts as empty. */
  function Visible(data: Option<seq<Timer>>): (r: seq<Timer>)
    ensures forall t :: t in r <==> data.Some? && t in data.value && !t.spawned
  {
    Filter(data.GetOr([]), NotSpawned())
  }

  /** Keeping the visible timers of a list already kept changes nothing. */
  lemma VisibleIdempotent(data: Option<seq<Timer>>)
    ensures Visible(Some(Visible(data))) == Visible(data)
  {
    var r := Visible(data);
    assert forall i :: 0 <= i < |r| ==> NotSpawned()(r[i]) by {
      forall i | 0 <= i < |r| ensures NotSpawned()(r[i]) {
        assert r[i] in r;
      }
    }
  }

  function IsUpcoming(now: int): Timer -> bool
  {
    (t: Timer) => t.nextSpawn.Some? && t.nextSpawn.value > now
  }

  /** The rows of the active table: timers whose next spawn is a valid time still
      in the future. An unparsable time is a None `nextSpawn`. */
  function Rendered(ts: seq<Timer>, now: int): (r: seq<Timer>)
    ensures forall t :: t in r <==> t in ts && t.nextSpawn.Some? && t.nextSpawn.value > now
    ensures forall k :: 0 <= k < |r| ==> r[k].nextSpawn.Some? && r[k].nextSpawn.value > now
  {
    var r := Filter(ts, IsUpcoming(now));
    assert forall k :: 0 <= k < |r| ==> IsUpcoming(now)(r[k]) by {
      forall k | 0 <= k < |r| ensures IsUpcoming(now)(r[k]) {
        assert r[k] in r;
      }
    }
    r
  }

  /** A row rendered later shows a subset of the timers a row rendered earlier did. */
  lemma RenderedShrinks(ts: seq<Timer>, earlier: int, later: int)
    requires earlier <= later
    ensures forall t :: t in Rendered(ts, later) ==> t in Rendered(ts, earlier)
  {
  }

  /** Whole seconds left until `next`, never below zero. */
  function RemainingSeconds(next: int, at: int): (r: nat)
    ensures next - at < 1000 ==> r == 0
    ensures next - at >= 0 ==> r * 1000 <= next - at < r * 1000 + 1000
  {
    var q := (next - at) / 1000;
    if q < 0 then 0 else q
  }

  /** The countdown only goes down as time passes. */
  lemma RemainingNeverRises(next: int, earlier: int, later: int)
    requires earlier <= later
    ensures RemainingSeconds(next, later) <= RemainingSeconds(next, earlier)
  {
  }

  datatype Clock = Clock(hours: nat, minutes: nat, seconds: nat)

  /** The `Hh Mm Ss` cell. */
  function Countdown(rem: nat): (c: Clock)
    ensures c.minutes < 60 && c.seconds < 60
    ensures c.hours * 3600 + c.minutes * 60 + c.seconds == rem
  {
    Clock(rem / 3600, (rem % 3600) / 60, rem % 60)
  }

  /** Hours, minutes under 60 and seconds under 60 are the only way to write a
      number of seconds, so the cell is the one reading of the remaining time. */
  lemma CountdownUnique(rem: nat, c: Clock)
    requires c.minutes < 60 && c.seconds < 60
    requires c.hours * 3600 + c.minutes * 60 + c.seconds == rem
    ensures c == Countdown(rem)
  {
    var d := Countdown(rem);
    assert c.minutes * 60 + c.seconds < 3600;
    assert c.hours == rem / 3600;
    assert c.minutes * 60 + c.seconds == rem % 3600;
    assert c.minutes == (rem % 3600) / 60;
  }

  /** One row of the active table: escaped name and location, the two times, the
      countdown, and the id the Delete button sends. The escaped cells read back as
      the timer's own name and location. */
  datatype Row = Row(name: string, location: string, acquired: Option<int>,
                     nextSpawn: int, left: Clock, deleteId: string)

  function RowFor(t: Timer, at: int): (row: Row)
    requires t.nextSpawn.Some?
    ensures '<' !in row.name && '>' !in row.name && '<' !in row.location && '>' !in row.location
    ensures Unescape(row.name) == t.name && Unescape(row.location) == t.location
    ensures row.nextSpawn == t.nextSpawn.value && row.deleteId == t.id && row.acquired == t.acquired
    ensures row.left == Countdown(RemainingSeconds(t.nextSpawn.value, at))
  {
    EscapeHtmlRoundTrip(t.name);
    EscapeHtmlRoundTrip(t.location);
    Row(EscapeHtml(Some(t.name)), EscapeHtml(Some(t.location)), t.acquired,
        t.nextSpawn.value, Countdown(RemainingSeconds(t.nextSpawn.value, at)), t.id)
  }

  /** The rows of the listed timers, in order. */
  function RowsOf(ts: seq<Timer>, at: int): (rows: seq<Row>)
    requires forall k :: 0 <= k < |ts| ==> ts[k].nextSpawn.Some?
    ensures |rows| == |ts|
    ensures forall k :: 0 <= k < |ts| ==> rows[k] == RowFor(ts[k], at)
  {
    if ts == [] then [] else RowsOf(ts[..|ts| - 1], at) + [RowFor(ts[|ts| - 1], at)]
  }

  /** Every listed timer has its row. */
  lemma RowsCover(ts: seq<Timer>, at: int)
    requires forall k :: 0 <= k < |ts| ==> ts[k].nextSpawn.Some?
    ensures forall t :: t in ts ==> RowFor(t, at) in RowsOf(ts, at)
  {
    var rows := RowsOf(ts, at);
    forall t | t in ts
      ensures RowFor(t, at) in rows
    {
      var k :| 0 <= k < |ts| && ts[k] == t;
      assert rows[k] == RowFor(t, at);
    }
  }

  lemma RowsOfSnoc(ts: seq<Timer>, i: nat, at: int)
    requires i < |ts| && forall k :: 0 <= k < |ts| ==> ts[k].nextSpawn.Some?
    ensures RowsOf(ts[..i + 1], at) == RowsOf(ts[..i], at) + [RowFor(ts[i], at)]
  {
    assert ts[..i + 1][..i] == ts[..i];
  }

  /** The active table lists exactly the upcoming timers, each with its own row. */
  lemma RenderedRows(ts: seq<Timer>, now: int, at: int)
    ensures forall k :: 0 <= k < |RowsOf(Rendered(ts, now), at)| ==> RowsOf(Rendered(ts, now), at)[k].nextSpawn > now
    ensures forall t :: t in ts && t.nextSpawn.Some? && t.nextSpawn.value > now ==>
              RowFor(t, at) in RowsOf(Rendered(ts, now), at)
  {
    RowsCover(Rendered(ts, now), at);
  }

  /** The client's state: the timers of the last snapshot that are not spawned. */
  class ClientState {
    var timers: seq<Timer>

    constructor()
      ensures timers == []
    {
      timers := [];
    }

    /** `renderAll`: the active list is taken at `now`; each row's countdown is
        computed from the clock read while the row is built, `later`. */
    method RenderAll(now: int, later: int) returns (rows: seq<Row>)
      ensures rows == RowsOf(Rendered(timers, now), later)
      ensures |rows| == |Rendered(timers, now)|
      ensures forall k :: 0 <= k < |rows| ==> rows[k].nextSpawn > now
      ensures forall t :: t in timers && t.nextSpawn.Some? && t.nextSpawn.value > now ==>
                RowFor(t, later) in rows
    {
      var active := Rendered(timers, now);
      rows := [];
      var i := 0;
      while i < |active|
        invariant 0 <= i <= |active|
        invariant rows == RowsOf(active[..i], later)
      {
        RowsOfSnoc(active, i, later);
        rows := rows + [RowFor(active[i], later)];
        i := i + 1;
      }
      assert active[..i] == active;
      RenderedRows(timers, now, later);
    }

    /** The `init` and `update` handlers: replace the list by the visible part of the
        snapshot and render it. */
    method OnSnapshot(data: Option<seq<Timer>>, now: int, later: int) returns (rows: seq<Row>)
      modifies this`timers
      ensures timers == Visible(data)
      ensures forall t :: t in timers ==> !t.spawned
      ensures rows == RowsOf(Rendered(timers, now), later)
    {
      timers := Visible(data);
      rows := RenderAll(now, later);
    }
  }

  // ---------------------------------------------------------------------------
  // Building timers on the client.

  function DigitChar(d: nat): (c: char)
    requires d < 10
    ensures IsDigit(c)
  {
    ('0' as int + d) as char
  }

  /** The decimal numeral of `n`. */
  function Decimal(n: nat): (r: string)
    ensures r != [] && forall k :: 0 <= k < |r| ==> IsDigit(r[k])
  {
    (if n < 10 then [] else Decimal(n / 10)) + [DigitChar(n % 10)]
  }

  /** A client-made id: the clock in milliseconds, a dash, and a number below 10000
      drawn at random. Both are parameters here. */
  function MakeId(clock: nat, rand: nat): (id: string)
    ensures id != [] && '-' in id
    ensures forall k :: 0 <= k < |id| && id[k] != '-' ==> IsDigit(id[k])
  {
    var a := Decimal(clock);
    assert (a + "-" + Decimal(rand))[|a|] == '-';
    a + "-" + Decimal(rand)
  }

  /** The manual form: nothing is sent unless a boss and a time are chosen; a time
      the date parser rejects makes building the timer throw, so nothing is sent
      either. */
  function ManualAdd(name: string, timeVal: string, parse: string -> Option<int>,
                     clock: nat, rand: nat): (r: Option<Timer>)
    ensures r.Some? <==> name != [] && timeVal != [] && parse(timeVal).Some?
    ensures r.Some? ==> r.value.name == name && r.value.acquired == parse(timeVal)
                        && r.value.acquired.Some? && r.value.nextSpawn.Some?
                        && r.value.nextSpawn.value > r.value.acquired.value
                        && r.value.id != [] && !r.value.spawned
  {
    if name == [] || timeVal == [] then None
    else match parse(timeVal)
      case None => None
      case Some(acquired) => Some(MakeTimerObj(name, acquired, MakeId(clock, rand)))
  }

  /** The OCR service's reply: an error, or the recognised text (maybe absent). */
  datatype OcrReply = OcrError | OcrText(text: Option<string>)

  /** The trimmed recognised text; an error or a missing text leaves nothing. */
  function OcrTextOf(reply: OcrReply): (r: string)
    ensures reply.OcrError? || reply.text.None? ==> r == []
    ensures reply.OcrText? && reply.text.Some? ==>
              (r == [] <==> forall k :: 0 <= k < |reply.text.value| ==> IsSpace(reply.text.value[k]))
    ensures r != [] ==> !IsSpace(r[0]) && !IsSpace(r[|r| - 1])
  {
    if reply.OcrError? then []
    else
      TrimEmptyIffAllSpace(reply.text.GetOr([]));
      Trim(reply.text.GetOr([]))
  }

  /** The upload handler after the reply arrives: the trimmed text must be non-empty
      and name a boss; the acquired time comes from the text, or is `now`. */
  function OcrAdd(reply: OcrReply, now: int, parse: string -> Option<int>,
                  clock: nat, rand: nat): (r: Option<Timer>)
    ensures r.Some? <==> reply.OcrText? && OcrTextOf(reply) != [] && DetectBoss(OcrTextOf(reply)).Some?
    ensures r.Some? ==> r.value.name == DetectBoss(OcrTextOf(reply)).value
                        && Mentions(Lower(OcrTextOf(reply)), r.value.name)
                        && Lookup(r.value.name).Some?
    ensures r.Some? ==> r.value.acquired == Some(AcquiredTime(OcrTextOf(reply), now, parse))
    ensures r.Some? ==> r.value.id != [] && !r.value.spawned
                        && r.value.nextSpawn.Some? && r.value.acquired.Some?
                        && r.value.nextSpawn.value > r.value.acquired.value
  {
    if reply.OcrError? then None
    else
      var text := OcrTextOf(reply);
      if text == [] then None
      else match DetectBoss(text)
        case None => None
        case Some(boss) =>
          DetectedIsListed(text);
          Some(MakeTimerObj(boss, AcquiredTime(text, now, parse), MakeId(clock, rand)))
  }

  /** A detected boss is a table entry, so its own respawn hours apply. */
  lemma DetectedIsListed(text: string)
    requires DetectBoss(text).Some?
    ensures Lookup(DetectBoss(text).value).Some?
  {
    var boss := DetectBoss(text).value;
    DetectBossIsFirst(text);
    var k :| 0 <= k < |Table| && Table[k].0 == boss;
    assert !(forall j :: 0 <= j < |Table| ==> Table[j].0 != boss);
  }

  /** Text with no clock time in it yields a timer acquired `now`. */
  lemma OcrWithoutClockUsesNow(reply: OcrReply, now: int, parse: string -> Option<int>,
                               clock: nat, rand: nat)
    requires OcrAdd(reply, now, parse, clock, rand).Some?
    requires forall q :: 0 <= q <= |OcrTextOf(reply)| ==> ClockEnd(OcrTextOf(reply), q).None?
    ensures OcrAdd(reply, now, parse, clock, rand).value.acquired == Some(now)
  {
    ChosenIffClock(OcrTextOf(reply));
  }

  /** A timer the client builds is taken by the server unless its id is already
      there: it is appended, not spawned. */
  lemma ClientTimerIsAdded(ts: seq<Timer>, t: Timer)
    requires t.id != [] && !HasId(ts, t.id)
    ensures AddTimer(ts, Some(t)).timers == ts + [t.(spawned := false)]
    ensures Visible(Some(AddTimer(ts, Some(t)).timers)) == Visible(Some(ts)) + [t.(spawned := false)]
  {
    var r := AddTimer(ts, Some(t));
    assert r.timers == ts + [Entry(t)];
    FilterAppend(ts, [Entry(t)], NotSpawned());
  }

  /** The Delete button: a cancelled prompt sends nothing; otherwise the id and the
      typed code are sent. */
  function DeleteClick(id: string, typed: Option<string>): (r: Option<DeleteRequest>)
    ensures r.None? <==> typed.None?
    ensures r.Some? ==> r.value.id == id && r.value.code == typed
  {
    if typed.None? then None else Some(DeleteRequest(id, typed))
  }

  /** Typing the right code on a listed timer's row removes it at the server and from
      the client's next snapshot; a wrong code changes nothing. */
  lemma DeleteClickEffect(ts: seq<Timer>, id: string, typed: string)
    requires id != [] && HasId(ts, id)
    ensures typed == DeleteCode ==>
              forall t :: t in Visible(Some(DeleteTimer(ts, DeleteClick(id, Some(typed))).timers)) ==> t.id != id
    ensures typed != DeleteCode ==> DeleteTimer(ts, DeleteClick(id, Some(typed))).timers == ts
  {
  }
}
