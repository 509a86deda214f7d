# Boss respawn tracker — a Dafny model

The tracker keeps a shared list of boss timers. A timer records when a boss was
killed ("acquired") and when it respawns ("next spawn"). Browsers add timers by hand
or from recognised screenshot text, and they delete timers with a shared code. The
server pushes every change to all connected browsers. Every 30 seconds the server
walks the list: it posts a Discord warning when exactly 15 whole minutes are left,
and a spawn announcement once no whole minute is left. It also marks spawned timers.
A separate notifier script polls the list once a minute and posts the same two
kinds of message.

This model covers the following parts:

- **Registry** (`registry.dfy`): the `addTimer` and `deleteTimer` socket handlers.
  They are functions from the list and the payload to the new list and the ordered
  effects: save to disk, broadcast `update`, reply to the requester, webhook post.
  server.js and server.cjs handle these two events identically.
- **Monitor** (`monitor.dfy`): the periodic tick, as a specification over the list,
  the two in-memory sets of ids already handled, and the effect log. `Variant`
  captures the two ways the servers differ:
  - server.cjs also requires `!t.spawned` before warning.
  - On a spawn, server.js posts before saving and broadcasting, and server.cjs posts
    after.
- **Server** (`server.dfy`): the server process as a class whose fields the
  handlers and the tick update in place. The tick is a loop proved against the
  Monitor specification.
- **Client**:
  - `bosses.dfy`: the boss table, `makeTimerObj` and boss detection.
  - `timetoken.dfy`: the three regular expressions that pick the acquired time out of
    recognised text, as leftmost-match functions.
  - `html.dfy`: `escapeHtml`.
  - `clientview.dfy`: the client's `timers` list as a class, the snapshot handlers,
    `renderAll` as a loop, the countdown arithmetic, the manual and OCR add flows,
    and the delete prompt.
  - `text.dfy`: lower-casing, `includes`, `trim`, and the first-occurrence `replace`.
- **Notifier** (`notifier.dfy`): `checkBosses`, as a specification over its two
  name sets and its posts, plus a class whose loop is proved against it.
- **Scenario** (`scenario.dfy`): a 24-hour timer traced from its creation on the
  client through the ticks that warn and announce it.

Times are integers in milliseconds. A missing or unparsable time is `None`. A
missing or falsy id is the empty string.

Where the design description of the system and the code disagree, the model follows
the code:

- The 15-minute warning fires only when the floor of the remaining minutes is
  exactly 15. It is not an edge-triggered "15 minutes or less" test, so a timer first
  seen with less than 15 minutes left is never warned (`Monitor.LateTimerNeverWarned`).
  A never-ticked timer that is already due gets only the spawn message
  (`Monitor.DueTimerOwesOnlySpawn`).
- The deduplication markers live in in-memory sets keyed by id, not in the stored
  timer. A fresh server starts with empty sets (`Server.TimerServer.constructor`).
- The list is kept in insertion order, not sorted by next spawn.
- The server's `addTimer` checks only for a payload and a non-empty id. It does not
  check the name or that the spawn time follows the acquired time. The client
  guarantees the latter (`Bosses.MakeTimerObj`).

## Model

| member | source | states |
|---|---|---|
| Timers.MinutesLeft | server.js:132-133 | the minutes the tick compares bracket the remaining time: m·60000 ≤ spawn − now < (m+1)·60000; they are ≤ 0 exactly when less than a minute is left (floor division, also for negative differences) |
| Timers.MinutesLeftNeverRises | server.cjs:124 | as the clock advances, the computed minutes never increase |
| Timers.Filter | public/client.js:71 | `Array.prototype.filter`: the result holds exactly the elements that pass, never grows, and equals the input when everything passes |
| Registry.AddTimer | server.js:66-77 | a missing payload or empty id changes nothing; a known id changes nothing; otherwise the payload is appended with `spawned` false, and the list is saved and then broadcast |
| Registry.DeleteTimer | server.js:81-101 | a missing payload or empty id is ignored; a wrong or missing code only sends the denial message to the requester; the right code removes exactly the timers with that id, and saves, broadcasts and confirms if and only if one was removed |
| Registry.AddKeepsDistinct | server.js:70 | adding keeps ids distinct |
| Registry.DeleteKeepsDistinct | server.js:91 | deleting keeps ids distinct |
| Registry.FilterKeepsDistinct | server.cjs:85 | filtering a list of distinct ids keeps them distinct |
| Registry.DeleteKeepsOrder | server.cjs:85 | the delete filter acts on each part of a concatenation separately, so the survivors keep their order |
| Registry.DeleteTwiceIsSilent | server.cjs:84-91 | repeating a delete leaves the list as it is, and with the right code emits nothing |
| Registry.AddSameIdKeepsFirst | server.cjs:67 | adding a second timer with the same id changes nothing and emits nothing |
| Registry.ReplayKeepsDistinct | server.cjs:64-95 | any sequence of add and delete requests keeps the ids distinct |
| Monitor.Visit | server.js:128-155 | one loop iteration changes only the timer at its index, and marks it spawned at `now` exactly when it is due and its id is not yet announced; each set gains that timer's id exactly when its condition holds |
| Monitor.TickFrom | server.js:128-155 | the loop from an index keeps the list's length and never takes an id out of either set |
| Monitor.Tick | server.js:124-156 | a tick keeps the list's length and every id in its place, and neither set loses an id |
| Monitor.TickFromShape | server.js:128 | the loop keeps the list's length, leaves already-visited timers alone and at most marks later ones spawned |
| Monitor.TickKeepsTimers | server.js:124-156 | a tick never adds, removes or reorders timers, keeps each id, name, location and time, never un-marks a spawn, and marks only due, unannounced timers |
| Monitor.TickFromMarks | server.js:128-155 | for distinct ids, the loop from an index marks spawned exactly the timers from there on that are due and not yet announced, and leaves every other timer as it was |
| Monitor.TickMarksDue | server.cjs:138 | for distinct ids, after a tick each timer is marked spawned at `now` if it was due and its id not yet announced, and is otherwise unchanged |
| Monitor.WarnIdsStep | server.js:136-137 | the ids warned from index i on are the current one (if due) plus those from i+1 on |
| Monitor.SpawnIdsStep | server.js:144-145 | the same for announced spawns |
| Monitor.TickFromWarned | server.cjs:121-132 | after the loop from index i, `warned15` is the old set plus the ids of the timers from i on with 15 minutes left |
| Monitor.TickFromAnnounced | server.cjs:121-146 | after the loop from index i, `announcedSpawn` is the old set plus the ids of the due timers from i on |
| Monitor.TickSets | server.cjs:117-147 | after a tick, `warned15` and `announcedSpawn` are the old sets plus exactly the ids that met the warning and spawn conditions |
| Monitor.PostsAppend | server.js:139 | the posts of a concatenated log are the posts of each part |
| Monitor.Owed | server.cjs:127-145 | a timer is owed at most one post per tick |
| Monitor.OwedFromAgree | server.cjs:127 | what a timer is owed depends only on the timer and on whether its own id is in each set |
| Monitor.PostsOfSpawnEffects | server.js:149-152 | a spawn emits exactly one post, the announcement for that id, in both variants |
| Monitor.PostsOfVisit | server.js:136-154 | one iteration posts exactly what its timer is owed |
| Monitor.VisitLeavesLaterAlone | server.js:137-145 | with distinct ids, one iteration keeps the ids distinct and changes neither set's verdict on any later timer |
| Monitor.TickFromPosts | server.js:128-155 | for distinct ids, the loop from i posts exactly the owed posts of the timers from i on, in list order |
| Monitor.TickPosts | server.js:124-156 | for distinct ids, a tick posts exactly, in list order, a warning for each timer with 15 minutes left and not yet warned, and a spawn message for each due timer not yet announced |
| Monitor.AppendOne | server.js:137 | appending a post whose id was not yet in its set, and is then added to it, keeps every alert posted at most once |
| Monitor.VisitKeepsPostedOnce | server.cjs:127-145 | one iteration keeps "every post is recorded in its set and no alert is posted twice" |
| Monitor.TickFromKeepsPostedOnce | server.cjs:121 | the loop keeps it |
| Monitor.TickKeepsPostedOnce | server.cjs:117-147 | a tick keeps it, so each id gets at most one warning and one spawn message for the life of the process |
| Monitor.ExtendSpawnOrder | server.js:150-152 | appending effects that respect the order keeps the ordering property |
| Monitor.VisitKeepsSpawnOrder | server.cjs:138-143 | one iteration keeps the ordering of spawn posts against save and broadcast |
| Monitor.TickFromSpawnOrder | server.cjs:121-146 | the loop keeps it |
| Monitor.TickSpawnOrder | server.js:144-154 | in server.js every spawn post is followed by saving and then broadcasting a list in which that timer is spawned; in server.cjs these come before the post |
| Monitor.LateTimerNeverWarned | server.js:136 | a timer first seen with fewer than 15 whole minutes left is never due a warning later |
| Monitor.DueTimerOwesOnlySpawn | server.cjs:127-135 | a due, unannounced timer is owed only the spawn message, never the warning as well |
| Server.TimerServer.constructor | server.js:23-33 | the process starts with the loaded list, empty sets and no effects |
| Server.TimerServer.Connect | server.js:59 | a connecting client is sent the current list |
| Server.TimerServer.AddTimer | server.cjs:64-73 | the list and effects change as `Registry.AddTimer` says, and distinct ids are kept |
| Server.TimerServer.DeleteTimer | server.cjs:75-95 | the list and effects change as `Registry.DeleteTimer` says, and distinct ids are kept |
| Server.TimerServer.CheckTimer | server.cjs:122-145 | the in-place update of one timer is one `Monitor.Visit` |
| Server.TimerServer.Tick | server.js:124-156 | the in-place loop leaves exactly the state `Monitor.Tick` specifies, and keeps the at-most-once invariant |
| Text.LowerChar | public/client.js:131 | upper-case ASCII letters move to lower case; every other character is unchanged |
| Text.Lower | public/client.js:131 | `toLowerCase` character by character, keeping the length |
| Text.TrimStart | public/client.js:128 | the suffix left after dropping leading white space; it starts with a non-space |
| Text.TrimEnd | public/client.js:128 | the prefix left after dropping trailing white space; it ends with a non-space |
| Text.Trim | public/client.js:128 | `trim`: character for character the input after its leading white space, everything dropped after it is white space, and no white space is left at either end |
| Text.TrimEmptyIffAllSpace | public/client.js:129 | the trimmed text is empty if and only if the input is all white space |
| Text.TrimKeeps | public/client.js:128 | trimming never lengthens the text and brings in no new character |
| Text.ContainsIffOccurs | public/client.js:132 | `includes` holds if and only if the needle occurs at some position of the text |
| Text.IndexOf | public/client.js:136 | the first position holding the character |
| Text.ReplaceFirst | public/client.js:136 | `replace` with a one-character string pattern: without that character the text is unchanged; otherwise only its first occurrence is replaced: the text before it is kept, the replacement stands in its place, and the text after it follows unchanged |
| Bosses.TableHoursPositive | public/client.js:5-28 | every boss in the table has a positive respawn time |
| Bosses.LookupIn | public/client.js:57 | a lookup in a list of entries finds an entry with that name if and only if one exists |
| Bosses.Lookup | public/client.js:57 | a table lookup finds the entry with that name if and only if the name is in the table |
| Bosses.InfoFor | public/client.js:57 | the table entry, or 24 hours at "Unknown" for a name not in the table; the hours are positive either way |
| Bosses.MakeTimerObj | public/client.js:56-67 | the timer carries the given id and name and the boss's location, is not spawned, and respawns that many hours after it was acquired, so strictly later |
| Bosses.UnknownBossDefaults | public/client.js:57 | an unknown name gets 24 hours and location "Unknown" |
| Bosses.FindBoss | public/client.js:132 | the first entry, in order, whose lower-cased name occurs in the text; None if and only if no entry's name occurs |
| Bosses.DetectBoss | public/client.js:131-132 | a detected name is one the lower-cased text mentions, ignoring case |
| Bosses.DetectBossNone | public/client.js:131-132 | nothing is detected if and only if the lower-cased text mentions no table name |
| Bosses.DetectBossIsFirst | public/client.js:132 | the detected boss is the earliest table entry, in declared order, that the text mentions |
| TimeToken.ClockEnd | public/client.js:146 | a match of `\d{1,2}[:.]\d{2}` ends 4 or 5 characters on, and the text there has the clock's shape: one or two digits, a separator, two digits |
| TimeToken.ClockEndFinds | public/client.js:146 | conversely, wherever the text has the clock's shape the clock matches, ending exactly where the shape ends |
| TimeToken.TokenEnd | public/client.js:146 | the full token matches exactly where the clock does, extends it only by an optional space and an optional AM/PM, and adds no '.' |
| TimeToken.TokenEndExact | public/client.js:146 | the token ends exactly where the pattern's greedy choice puts it: a white-space character right after the clock is always taken, and then an AM/PM is taken whenever one follows |
| TimeToken.SkipNonDigits | public/client.js:134 | `[^\d]*` stops at the first digit or at the end |
| TimeToken.LabelledAt | public/client.js:134 | a labelled match starts with the label (ignoring case), has only non-digits between the label and the token, and captures a token match |
| TimeToken.LabelledAtFinds | public/client.js:134 | conversely, a label followed by non-digits and then a token always matches, capturing exactly that token |
| TimeToken.AnyLabelledAt | public/client.js:140 | an alternation of labels captures a token match that starts no earlier than the label |
| TimeToken.AnyLabelledAtIsFirst | public/client.js:140 | the alternation matches if and only if some label does; its match is that of the first label, in order, that matches, and that label stands at the position |
| TimeToken.FindLabelled | public/client.js:134 | the leftmost labelled match: none starts earlier, and None if and only if none exists |
| TimeToken.FindBare | public/client.js:146 | the leftmost bare token match (case-sensitive AM/PM): none starts earlier, and None if and only if none exists |
| TimeToken.TokenLength | public/client.js:146 | a token match starts with a digit and is 4 to 8 characters long |
| TimeToken.ChosenToken | public/client.js:134-153 | the `acquired` pattern is tried first, then `obtained`/`received`, then the bare token; a chosen token starts with a digit and is 4 to 8 characters long |
| TimeToken.LabelledToken | public/client.js:134-142 | the captured group of a labelled match is the text between the token's bounds |
| TimeToken.Normalize | public/client.js:136 | `replace('.', ':').trim()` brings in no character but ':', never lengthens the token and leaves no white space at either end |
| TimeToken.AcquiredTime | public/client.js:133-153 | the acquired time is `now` when no token is chosen or the chosen token does not parse, and otherwise the parsed time |
| TimeToken.ChosenIffClock | public/client.js:134-153 | a time token is chosen if and only if the text contains a clock time somewhere |
| TimeToken.ChosenTokenIsClock | public/client.js:134-153 | the chosen token is a slice of the text that the token pattern matches |
| TimeToken.TokenDots | public/client.js:146 | within a token match, only the clock's separator can be a '.' |
| TimeToken.AtMostOneDot | public/client.js:136 | a chosen token holds at most one '.' |
| TimeToken.MatchDots | public/client.js:146 | every character of a token match other than the separator is not a '.' |
| TimeToken.NormalizedHasNoDot | public/client.js:136 | after `replace('.', ':')` and `trim`, the token contains no '.' |
| Html.ReplaceAll | public/client.js:214 | a global single-character replace removes every occurrence of the character unless the replacement contains it |
| Html.ReplaceAllAppend | public/client.js:214 | a global replace acts on each part of a concatenation separately |
| Html.EscapeHtml | public/client.js:212-215 | the escaped text contains no '<' or '>'; a missing value escapes to the empty string |
| Html.ReplaceOne | public/client.js:214 | a global replace of a one-character string gives the replacement or the character itself |
| Html.ChainOne | public/client.js:214 | the three ordered replacements turn one character into its entity |
| Html.ChainAppend | public/client.js:214 | the three ordered replacements act on each part of a concatenation separately |
| Html.ChainIsPerCharacter | public/client.js:214 | the three ordered replacements ('&' first) escape each character independently |
| Html.EscapeIsPerCharacter | public/client.js:212-215 | `escapeHtml` of a non-empty string is the per-character escape |
| Html.UnescapeOne | public/client.js:214 | reading entities back undoes one escaped character |
| Html.UnescapeEscape | public/client.js:214 | unescaping the per-character escape gives back the original |
| Html.EscapeHtmlRoundTrip | public/client.js:212-215 | `escapeHtml` loses no information: unescaping its result gives back the input, the empty string included |
| ClientView.Visible | public/client.js:70-78 | the client keeps exactly the unspawned timers of a snapshot, and nothing for a missing one |
| ClientView.VisibleIdempotent | public/client.js:76 | filtering an already filtered list changes nothing |
| ClientView.Rendered | public/client.js:187-190 | the active table holds exactly the timers with a valid next spawn strictly after `now` |
| ClientView.RenderedShrinks | public/client.js:189 | at a later clock the active table shows a subset |
| ClientView.RemainingSeconds | public/client.js:195 | whole seconds left, floored and never negative: r·1000 ≤ next − now < (r+1)·1000 when the time is still ahead, and 0 when less than a second is left |
| ClientView.RemainingNeverRises | public/client.js:195 | the countdown only goes down |
| ClientView.Countdown | public/client.js:196-198 | hours, minutes < 60 and seconds < 60 that add up to the remaining seconds |
| ClientView.CountdownUnique | public/client.js:196-198 | that decomposition is the only one, so the cell reads back the remaining time |
| ClientView.RowFor | public/client.js:194-207 | a row shows the name and location with no markup, and unescaping them gives back the timer's own; it shows the times, the countdown to the next spawn, and the timer's id on its Delete button |
| ClientView.RowsOf | public/client.js:193 | one row per timer, in order |
| ClientView.RowsCover | public/client.js:193 | every listed timer has its row |
| ClientView.RowsOfSnoc | public/client.js:208 | appending a timer appends its row |
| ClientView.RenderedRows | public/client.js:185-210 | every row is for a future spawn, and every upcoming timer has a row |
| ClientView.ClientState.constructor | public/client.js:42 | the client starts with an empty list |
| ClientView.ClientState.RenderAll | public/client.js:185-210 | the loop builds one row per upcoming timer, in list order, each for a future spawn, and every upcoming timer appears |
| ClientView.ClientState.OnSnapshot | public/client.js:70-78 | `init` and `update` replace the list with the unspawned part of the snapshot and render it |
| ClientView.DigitChar | public/client.js:61 | a digit below 10 is written as a decimal digit character |
| ClientView.Decimal | public/client.js:61 | the numeral is non-empty and all digits |
| ClientView.MakeId | public/client.js:61 | a client id is never empty; it is digits round a single '-' |
| ClientView.ManualAdd | public/client.js:101-115 | a timer is sent if and only if a boss and a time are chosen and the time parses; it then has that name and acquired time, a non-empty id, is not spawned, and respawns later |
| ClientView.OcrTextOf | public/client.js:127-128 | an error or a missing text gives nothing; a present text is trimmed, and the result is empty if and only if the text is all white space |
| ClientView.OcrAdd | public/client.js:118-169 | a timer is sent if and only if the reply is not an error, its trimmed text is non-empty and names a table boss; the timer then carries the first boss found, the time read from the text (or now), a non-empty id and a later respawn |
| ClientView.DetectedIsListed | public/client.js:132 | a detected boss is in the table, so its own respawn hours apply |
| ClientView.OcrWithoutClockUsesNow | public/client.js:133 | text with no clock time gives a timer acquired at the current time |
| ClientView.ClientTimerIsAdded | public/client.js:110 | a client timer with a fresh id is appended at the server and appears at the end of every client's list |
| ClientView.DeleteClick | public/client.js:177-182 | a cancelled prompt sends nothing; otherwise the id and the typed code are sent |
| ClientView.DeleteClickEffect | public/client.js:177-182 | the right code removes the timer from the server list and from every client's list; a wrong code changes nothing |
| Notifier.Deliver | public/notifier.js:22-24 | a post fails exactly when the budget is spent, and then changes nothing; otherwise it appends the notice |
| Notifier.Visit | public/notifier.js:17-34 | one entry: with nothing wanted nothing changes; a failed post keeps the memory and happens only on a spent budget; a wanted warning (or, failing that, a wanted spawn notice) appends that notice and adds the name to its set; without a budget no post fails |
| Notifier.Run | public/notifier.js:16-35 | the loop never takes a name out of either set |
| Notifier.Check | public/notifier.js:10-39 | a failed fetch changes nothing, and a check never takes a name out of either set |
| Notifier.VisitGrows | public/notifier.js:16-34 | one entry never shrinks either set and never removes a post |
| Notifier.RunGrows | public/notifier.js:16-35 | the loop never shrinks either set and never removes a post |
| Notifier.CheckGrows | public/notifier.js:10-39 | a check never forgets a name and never takes back a post |
| Notifier.RunSound | public/notifier.js:16-35 | every notice the loop posts is warranted by an unspawned entry of the list with that name: 15 minutes left for a warning, no whole minute left for a spawn notice |
| Notifier.CheckSound | public/notifier.js:10-39 | every notice a check posts is warranted by an entry of the fetched list |
| Notifier.PrefixKeeps | public/notifier.js:22-31 | posts only ever extend, so every earlier notice is still among the later ones |
| Notifier.VisitComplete | public/notifier.js:21-34 | when every post goes through, an entry due for a warning or a spawn notice ends with its name in that set and its notice posted |
| Notifier.RunComplete | public/notifier.js:16-35 | when every post goes through, every due entry of the list ends with its name in the set and its notice posted |
| Notifier.CheckComplete | public/notifier.js:10-39 | a check whose fetch succeeds and whose posts all go through leaves every due entry's name in its set and its notice posted, whether it was posted in this check or an earlier one |
| Notifier.EmptyConsistent | public/notifier.js:7-8 | the empty start is consistent |
| Notifier.AppendFresh | public/notifier.js:21 | appending a notice not yet posted keeps posts free of repeats |
| Notifier.VisitConsistent | public/notifier.js:21-34 | one entry keeps "a name is in a set if and only if its notice was posted, and no notice was posted twice" |
| Notifier.RunConsistent | public/notifier.js:16-35 | the loop keeps it |
| Notifier.CheckConsistent | public/notifier.js:10-39 | a check keeps it, so each name gets at most one warning and one spawn notice |
| Notifier.RunSkipsSpawned | public/notifier.js:17 | spawned entries take no part: the loop gives the same result on the list without them |
| Notifier.RunUnlimited | public/notifier.js:16 | when every post goes through, the loop never stops early |
| Notifier.RunPrefix | public/notifier.js:16-38 | a failing post ends the loop as if the list had stopped before that entry; without failures the whole list is processed |
| Notifier.CheckPrefix | public/notifier.js:10-39 | a check with failing posts equals a check without failures over a prefix of the list |
| Notifier.FailedFetchChangesNothing | public/notifier.js:12 | a failed fetch changes nothing |
| Notifier.ReadAll | public/notifier.js:13 | each fetched entry is read in order |
| Notifier.AsWrittenNeverPosts | public/notifier.js:18 | see Findings: reading `spawnAt` from the servers' list, the loop never posts |
| Notifier.AsWrittenCheckIsSilent | public/notifier.js:10-39 | see Findings: no check against the servers' list changes anything |
| Notifier.FixedWarns | public/notifier.js:18-26 | read as intended, an unspawned timer 15 minutes from spawning is warned and its name remembered |
| Notifier.FixedAnnouncesSpawn | public/notifier.js:28-34 | read as intended, a due timer is announced |
| Notifier.NotifierProcess.constructor | public/notifier.js:7-8 | the notifier starts with empty sets and no posts |
| Notifier.NotifierProcess.CheckBosses | public/notifier.js:10-39 | the in-place loop, with `break` on a failed post, leaves exactly the memory `Notifier.Check` specifies and keeps it consistent |
| Scenario.LiveraIsADay | public/client.js:9 | Livera respawns after 24 hours |
| Scenario.OneTimerTick | server.js:124-156 | a first tick over one timer logs the warning exactly when 15 minutes are left and the spawn effects exactly when it is due, and marks it only then |
| Scenario.LiveraTimer | public/client.js:56-67 | the client's Livera timer respawns a day after it was taken, and the server stores it unchanged in an empty list |
| Scenario.WarnedAtQuarterToSpawn | server.js:124-141 | a 24-hour timer added to an empty list is warned by the tick 15 minutes before its respawn, and not by the tick one minute earlier |
| Scenario.AnnouncedAfterSpawn | server.js:144-154 | five minutes after its respawn the tick marks it spawned, posts the announcement, saves and broadcasts; a later tick adds nothing |
| Scenario.DueThenQuiet | server.js:144-154 | a due timer alone in the list is announced and marked by the first tick, with post, save and broadcast in that order, and a later tick emits nothing |
| Scenario.QuietAfterAnnounce | server.js:136-145 | once its id is announced and fewer than 15 minutes are left, a timer makes a tick emit nothing |

## Left out

- Express, static files, the `/api/ocr` placeholder and the viewer-count events are not modelled. They only shuttle data.
- Sockets are not modelled. Broadcasts and replies are entries in an effect log, so
  network delivery, disconnection and interleaving of asynchronous handlers are not
  captured. Each handler and each tick runs to completion, one at a time.
- The `await` on the webhook post inside the tick could let a socket handler run
  between iterations. The model treats the tick as atomic.
- `timers.json` is not modelled: loading it is the constructor's parameter, and
  saving it is a `Save` effect. A failed save is only logged by the source, so it
  changes nothing here.
- Discord and axios are not modelled. A server post is a `Post` effect, and the
  server swallows webhook failures. The notifier's webhook outcome is the `budget`
  parameter (how many posts succeed before one fails), and its fetch is an `Option`
  parameter.
- Message texts are not modelled (emoji and markdown). A post carries the notice
  kind and the boss name, and on the server also the timer id.
- Dates are not modelled as such. The clocks (`Date.now()`) are parameters.
  `new Date(...)` parsing and `toISOString` are a `parse` parameter or an `Option`
  time. `toLocaleString` formatting of the table cells is kept as the raw times.
- Monitor.Visit: the server stamps `spawnedTime` with a second clock reading taken
  inside the loop. The model uses the tick's `now`.
- ClientView.ClientState.RenderAll: the source reads the clock again for every
  row. The model uses one later reading, `later`, for all rows of one render.
- ClientView.MakeId: `Date.now()` and `Math.random()` are parameters. The bound
  below 10000 that `Math.floor(Math.random()*10000)` gives is not needed by any
  contract, so the random part is any natural number.
- ClientView.RowFor: the id is put into the button's `onclick` text without escaping
  (public/client.js:206). The row's `deleteId` is the id as the click handler
  receives it only for ids without `'`, `"`, `\` or `&`. Client ids are always such,
  because they are digits round a dash (`ClientView.MakeId`). The browser's parsing
  of the attribute and of the script is not modelled.
- Text.LowerChar: `toLowerCase` is modelled for ASCII letters only. Unicode case
  mapping is not.
- Text.IsSpace: the white-space set is that of ECMAScript `trim`, listed by code
  point.
- Bosses.Lookup: the lookup does not model names that hit properties inherited by
  plain objects, such as `"constructor"`.
- The status texts shown in the page and the `alert` on a denied delete are not
  modelled. The add functions return whether a timer is sent, not the message.
- ClientView.OcrAdd: a reply with a non-string `text` is not modelled, and neither
  is an exception while uploading.
- Notifier entries that are not objects are not modelled. A `spawnAt` that is not a
  number is modelled as `None`, which makes both minute tests false, as `NaN` does.
- `setInterval` scheduling is not modelled: every 30 seconds on the servers, every
  second for rendering, every minute for the notifier. Each tick, render or check is
  one call.

## Findings

| source | as written | input that shows it | evidently intended | confidence | as-written member | corrected member |
|---|---|---|---|---|---|---|
| public/notifier.js:18 | the notifier computes minutes from `t.spawnAt`, but the servers' `/api/timers` (server.js:44-45) returns timers whose spawn time is in `nextSpawn`; `spawnAt` is undefined, the minutes are `NaN`, and neither `=== 15` nor `<= 0` holds | any list the servers publish, e.g. one unspawned timer with `nextSpawn` 15 minutes ahead | read the spawn time from `nextSpawn` (parsed as a date), so due timers are warned and announced | high that no post is ever made against these servers; not executed | Notifier.AsWrittenCheckIsSilent | Notifier.FixedWarns |
