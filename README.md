# Now Playing applet: a verified model

A Dafny model of the `NowPlaying` desktop applet (`nowplaying.cpp`), which shows
what a media player is playing and forwards transport commands to it. Once the
widget framework is set aside, three pieces of logic are left, and the model
covers all three:

- **The watched player.** The applet watches one source of the "nowplaying" data
  engine. `findPlayer` picks the first source the engine lists. When there is
  none, it resets the state to NoPlayer and drops the watched name and the
  controller; the title, artist, length and layout are kept. `playerAdded` adopts a new source only while the
  watched source is the one named `players`. `playerRemoved` looks again only when
  the watched source goes away. An update from any other source is ignored.
- **Track updates.** When `dataUpdated` gets a non-empty update from the watched
  source, it maps the "State" text to the playback state. It emits `stateChanged`
  only on a change, always publishes the metadata, and detects a new track from
  title and artist, emitting `coverChanged` only then. An empty update makes it
  look for a player again.
- **The time text `m:ss / m:ss`.** Minutes and seconds come from C++'s truncating
  `/` and `%`. The seconds are right-justified to two characters with '0'.

Layout switching (planar or horizontal, chosen by form factor) and the seven
transport commands are modelled as well.

Layout of the project:

- `wrappers.dfy`: `Option`.
- `time_format.dfy` (module `TimeFormat`): the time text as pure functions over
  `int`. This covers C++ truncating division, `QString::number` and
  `rightJustified`. It also has a reference decoder `ParseTimeText`, proved to
  invert the text for every position and every non-zero length.
- `now_playing_spec.dfy` (module `NowPlayingSpec`): the applet's fields as a value
  `Applet`, with one pure transition per slot. Emitted signals and the calls made
  into the data engine and the controller are append-only logs. The invariant
  `Valid` says three things:
  - the controller is the watched source's service;
  - there is no watched name without a controller;
  - the last `stateChanged` and `controllerChanged` signals report the current
    state and controller.

  Every slot keeps `Valid`, so every applet reachable from construction under any
  sequence of host calls satisfies it (`ReachableValid`).
- `now_playing.dfy` (module `NowPlayingApplet`): class `NowPlaying`. It has the
  source's fields, updated step by step in the source's order. Each method's
  postcondition equates the new fields with the matching transition in
  `NowPlayingSpec` and keeps `Valid()`.

How the outside world is represented:

- The data engine's source list (`sources()`) is a `seq<string>` parameter of every
  operation that reads it.
- An update (`Plasma::DataEngine::Data`) is an `EngineData`: a map of text fields
  and a map of integer fields. A key the update does not carry reads as `""` or
  `0`, as a const `QHash` lookup does.
- The controller (the service object from `serviceForSource`) is `Option<string>`,
  naming the source it was created for.
- `connectSource` (with its poll interval) and `startOperationCall` (with the
  operation's name and its "level" or "seconds" entry) are appended to the request
  log.

## Model

| member | source | states |
|---|---|---|
| TimeFormat.MinutesPart | nowplaying.cpp:201-203 | C++ `t / 60`, rounded toward zero: for t ≥ 0, m*60 ≤ t < m*60+60 with m ≥ 0; for t < 0, m*60-60 < t ≤ m*60 with m ≤ 0 |
| TimeFormat.SecondsPart | nowplaying.cpp:202-204 | C++ `t % 60`: `(t/60)*60 + t%60 == t`; in [0, 60) for t ≥ 0 and in (-60, 0] for t < 0 |
| TimeFormat.TruncationAgreesOnNaturals | nowplaying.cpp:201-204 | for non-negative t the C++ quotient and remainder equal Dafny's |
| TimeFormat.Digits | nowplaying.cpp:201-204 | QString::number of a natural: at least one decimal digit, one digit exactly below 10, no leading zero |
| TimeFormat.DigitsRoundTrip | nowplaying.cpp:201-204 | the decimal digits read back as the number they print |
| TimeFormat.NumberText | nowplaying.cpp:201-204 | QString::number of an int: all digits iff non-negative; otherwise '-' followed by the digits of its magnitude |
| TimeFormat.NumberTextRoundTrip | nowplaying.cpp:212 | a printed int, negative ones included, reads back as itself |
| TimeFormat.RightJustified | nowplaying.cpp:202-204 | `rightJustified(width, fill)`: length max(len, width), ends with the input, padding made of the fill character; longer input kept unchanged |
| TimeFormat.Pad2 | nowplaying.cpp:202-204 | `QString::number(x).rightJustified(2, '0')`: at least two characters, reads back as x, no space or colon; for x in [0, 60) exactly two digits whose value is x |
| TimeFormat.Clock | nowplaying.cpp:201-204 | one `m:ss` reading (minutes by truncating `/`, padded seconds by truncating `%`): no space in it, and it reads back as the number of seconds for every int, negative ones included |
| TimeFormat.TimeText | nowplaying.cpp:194-205 | the time text is empty iff the length is 0 |
| TimeFormat.ClockFields | nowplaying.cpp:199-205 | for t ≥ 0 a clock is the decimal minutes, ':' and a seconds field of exactly two digits whose value is below 60; minutes*60 + seconds == t |
| TimeFormat.TimeTextRoundTrip | nowplaying.cpp:194-205 | for every position and every non-zero length, negative ones included, the text `pos/60:pad2(pos%60) / len/60:pad2(len%60)` decodes to exactly (position, length); the empty text of a zero length does not decode |
| TimeFormat.NegativeMinuteClock | nowplaying.cpp:200-204 | with a negative position the truncating operators give a negative quotient and remainder, each printed with its sign: -75 reads "-1:-15" |
| NowPlayingSpec.Initial | nowplaying.cpp:38-46 | construction: no player, no controller, no layout, empty watched name, length 0, empty title and artist, nothing emitted or requested; the invariant holds |
| NowPlayingSpec.EngineData.IsEmpty | nowplaying.cpp:175 | `data.isEmpty()`: the update carries no key of either kind |
| NowPlayingSpec.EngineData.Text | nowplaying.cpp:182-214 | `data[key].toString()` on the const update: a key the update carries reads as its stored text, any other key as the empty string |
| NowPlayingSpec.EngineData.Number | nowplaying.cpp:195-212 | `data[key].toInt()` on the const update: a key the update carries reads as its stored integer, any other key as 0 |
| NowPlayingSpec.LayoutPlanar | nowplaying.cpp:91-108 | afterwards the layout is planar and no other field differs |
| NowPlayingSpec.LayoutHorizontal | nowplaying.cpp:110-130 | afterwards the layout is horizontal and no other field differs |
| NowPlayingSpec.LayoutIdempotent | nowplaying.cpp:93-129 | switching to a layout a second time has no further effect |
| NowPlayingSpec.ApplyFormFactor | nowplaying.cpp:61-72 | a horizontal or vertical form factor selects the horizontal layout, any other the planar one; nothing else changes |
| NowPlayingSpec.ConstraintsEvent | nowplaying.cpp:132-148 | only a form-factor constraint changes the modelled state, and then as the form-factor switch does |
| NowPlayingSpec.Init | nowplaying.cpp:59-89 | layout chosen by form factor, then findPlayer on the engine's sources only if the engine was found |
| NowPlayingSpec.FindPlayer | nowplaying.cpp:272-295 | no sources: NoPlayer, empty name, no controller, stateChanged(NoPlayer) then controllerChanged(none), always emitted; otherwise watch sources[0] with a controller for it, announce it, connect at 999 ms, state kept; layout, length, title and artist never touched |
| NowPlayingSpec.PlayerAdded | nowplaying.cpp:248-262 | unless the watched name is "players" nothing changes; otherwise the new source is watched, gets a controller, is announced and connected at 500 ms |
| NowPlayingSpec.PlayerRemoved | nowplaying.cpp:264-270 | removal of another source changes nothing; removal of the watched source is exactly findPlayer |
| NowPlayingSpec.NoAdoptionAfterNoPlayers | nowplaying.cpp:248-295 | after findPlayer found no source, playerAdded changes nothing, so a newly added player is not adopted |
| NowPlayingSpec.StateFromText | nowplaying.cpp:181-188 | "playing" ↦ Playing, "paused" ↦ Paused, anything else ↦ Stopped (each an iff); never NoPlayer |
| NowPlayingSpec.MetadataOf | nowplaying.cpp:207-214 | the published fields are the update's Artist, Album, Title, Comment, Genre; Time is the time text, empty iff Length is 0; Track number reads back as the update's integer |
| NowPlayingSpec.TrackChanged | nowplaying.cpp:220 | a new track is detected exactly when the published title or artist differs from the stored one |
| NowPlayingSpec.UpdateState | nowplaying.cpp:189-192 | the state becomes the new one; stateChanged is appended exactly when it differs from the old one; nothing else changes |
| NowPlayingSpec.UpdateTrack | nowplaying.cpp:220-229 | title and artist become the given ones; coverChanged is appended exactly when one of them differs from the stored one; nothing else changes |
| NowPlayingSpec.TrackUpdate | nowplaying.cpp:181-229 | a non-empty update sets the state from "State" (never NoPlayer), the length from "Length", and leaves title and artist equal to the update's; watched name, controller, layout and requests unchanged |
| NowPlayingSpec.TrackUpdateSignals | nowplaying.cpp:189-225 | signals of a track update: stateChanged only if the state differs, metadataChanged always, coverChanged iff title or artist differs from the stored one |
| NowPlayingSpec.DataUpdated | nowplaying.cpp:166-179 | an update from a source other than the watched one changes nothing and emits nothing; an empty update from it is exactly findPlayer; otherwise it is the track update |
| NowPlayingSpec.EmptyUpdateIsFindPlayer | nowplaying.cpp:175-179 | an empty update from the watched source equals findPlayer and emits no metadataChanged |
| NowPlayingSpec.RepeatedUpdateOnlyRepublishes | nowplaying.cpp:181-229 | the same non-empty update delivered twice: the second only republishes the metadata, no stateChanged, no coverChanged, no field change |
| NowPlayingSpec.Bound | nowplaying.cpp:334 | qBound(0, v, 100): result in range, equal to v inside it, the nearer bound outside |
| NowPlayingSpec.Command | nowplaying.cpp:297-330 | without a controller nothing happens; with one exactly one operation, addressed to the controller's source, is appended |
| NowPlayingSpec.CommandTargetsWatched | nowplaying.cpp:297-349 | in a consistent applet a command's operation is addressed to the watched source; without a controller nothing is started and no source is watched |
| NowPlayingSpec.SetVolume | nowplaying.cpp:332-340 | no controller: nothing; otherwise exactly one "volume" operation, whose level is the percentage clamped to [0, 100], is appended and nothing else changes |
| NowPlayingSpec.SetPosition | nowplaying.cpp:342-349 | no controller: nothing; otherwise exactly one "seek" operation carrying the position in seconds is appended and nothing else changes |
| NowPlayingSpec.FindPlayerKeepsValid | nowplaying.cpp:272-295 | findPlayer keeps the invariant; with no sources it establishes it from any state |
| NowPlayingSpec.PlayerAddedKeepsValid | nowplaying.cpp:248-262 | playerAdded keeps the invariant |
| NowPlayingSpec.PlayerRemovedKeepsValid | nowplaying.cpp:264-270 | playerRemoved keeps the invariant |
| NowPlayingSpec.TrackUpdateKeepsValid | nowplaying.cpp:181-229 | a track update keeps the invariant (the last stateChanged still reports the state) |
| NowPlayingSpec.DataUpdatedKeepsValid | nowplaying.cpp:166-232 | dataUpdated keeps the invariant |
| NowPlayingSpec.InitKeepsValid | nowplaying.cpp:59-89 | init keeps the invariant |
| NowPlayingSpec.FindPlayerExtendsLogs | nowplaying.cpp:272-295 | findPlayer only appends to the signal and request logs |
| NowPlayingSpec.TrackUpdateExtendsLogs | nowplaying.cpp:181-229 | a track update makes no request and only appends signals |
| NowPlayingSpec.ReachableCommandTargetsWatched | nowplaying.cpp:272-349 | after any sequence of host calls from construction, a transport command reaches exactly the watched source, and is a no-op (with no source watched) when there is no controller |
| NowPlayingSpec.StepExtendsLogs | nowplaying.cpp:166-349 | one host call only appends to the signal and request logs |
| NowPlayingSpec.StepKeepsValid | nowplaying.cpp:59-349 | every host call keeps the invariant |
| NowPlayingSpec.RunKeepsValid | nowplaying.cpp:59-349 | any sequence of host calls keeps the invariant |
| NowPlayingSpec.ReachableValid | nowplaying.cpp:38-349 | every applet reachable from construction satisfies the invariant |
| NowPlayingSpec.RunExtendsLogs | nowplaying.cpp:166-349 | signals and requests are only ever appended, never rewritten |
| NowPlayingApplet.NowPlaying.constructor | nowplaying.cpp:38-46 | the fields are the initial applet |
| NowPlayingApplet.NowPlaying.Init | nowplaying.cpp:59-89 | new fields are `Init` of the old ones; invariant kept |
| NowPlayingApplet.NowPlaying.ApplyFormFactor | nowplaying.cpp:61-72 | new fields are `ApplyFormFactor` of the old ones; invariant kept |
| NowPlayingApplet.NowPlaying.LayoutPlanar | nowplaying.cpp:91-108 | new fields are `LayoutPlanar` of the old ones; invariant kept |
| NowPlayingApplet.NowPlaying.LayoutHorizontal | nowplaying.cpp:110-130 | new fields are `LayoutHorizontal` of the old ones; invariant kept |
| NowPlayingApplet.NowPlaying.ConstraintsEvent | nowplaying.cpp:132-148 | new fields are `ConstraintsEvent` of the old ones; invariant kept |
| NowPlayingApplet.NowPlaying.DataUpdated | nowplaying.cpp:166-232 | new fields are `DataUpdated` of the old ones; invariant kept |
| NowPlayingApplet.NowPlaying.UpdateState | nowplaying.cpp:189-192 | new fields are `UpdateState` of the old ones |
| NowPlayingApplet.NowPlaying.UpdateTrack | nowplaying.cpp:220-229 | new fields are `UpdateTrack` of the old ones |
| NowPlayingApplet.NowPlaying.PlayerAdded | nowplaying.cpp:248-262 | new fields are `PlayerAdded` of the old ones; invariant kept |
| NowPlayingApplet.NowPlaying.PlayerRemoved | nowplaying.cpp:264-270 | new fields are `PlayerRemoved` of the old ones; invariant kept |
| NowPlayingApplet.NowPlaying.FindPlayer | nowplaying.cpp:272-295 | new fields are `FindPlayer` of the old ones; invariant kept |
| NowPlayingApplet.NowPlaying.StartOperation | nowplaying.cpp:297-349 | the shared `startOperationCall(operationDescription(op))`: new fields are `Command` of the old ones, so an operation is requested iff there is a controller; invariant kept |
| NowPlayingApplet.NowPlaying.Play | nowplaying.cpp:297-302 | a "play" operation is started iff there is a controller; nothing else changes |
| NowPlayingApplet.NowPlaying.Pause | nowplaying.cpp:304-309 | a "pause" operation is started iff there is a controller; nothing else changes |
| NowPlayingApplet.NowPlaying.Stop | nowplaying.cpp:311-316 | a "stop" operation is started iff there is a controller; nothing else changes |
| NowPlayingApplet.NowPlaying.Prev | nowplaying.cpp:318-323 | a "previous" operation is started iff there is a controller; nothing else changes |
| NowPlayingApplet.NowPlaying.Next | nowplaying.cpp:325-330 | a "next" operation is started iff there is a controller; nothing else changes |
| NowPlayingApplet.NowPlaying.SetVolume | nowplaying.cpp:332-340 | new fields are `SetVolume` of the old ones (clamped level); invariant kept |
| NowPlayingApplet.NowPlaying.SetPosition | nowplaying.cpp:342-349 | new fields are `SetPosition` of the old ones; invariant kept |

## Left out

- Widgets and geometry: grid and linear layouts, `setMinimumSize`, `setAspectRatioMode`, `resize`, showing and hiding the info panel, tooltip registration, `toolTipAboutToShow`. These are framework UI; only the layout enum is kept.
- The size branch of `constraintsEvent` (nowplaying.cpp:150-163): it computes `qreal` preferred sizes from the contents rectangle.
- The division of the clamped volume by 100 into a `qreal` (nowplaying.cpp:334): floating point. The request carries the clamped integer percentage.
- The artwork pixmap: `m_artwork`, its scaling, and the payload of `coverChanged`. The signal is logged without its pixmap.
- The host's wiring: `init` connects the engine's `sourceAdded`/`sourceRemoved` to `playerAdded`/`playerRemoved` (nowplaying.cpp:78-81), but the call sequences `Step`/`Run` admit those calls at any time, also before `init` or when the engine is missing. This is a superset of what the host can do, so every property proved over all call sequences holds for the real ones.
- `update()` repaint requests, `kDebug` output, `i18n` strings, the signal connections made in the constructor, and the destructor.
- `m_volume`: initialised to 0 by the constructor and never read or written elsewhere in this file.
- `m_textPanel` (`InfoPanel`): infopanel.cpp is not part of this model.
- Data-engine and service internals: `dataEngine`, `serviceForSource`, `connectSource`, `startOperationCall`, `operationDescription` and `KConfigGroup`. These are foreign calls; they appear only as the source list parameter and the request log. Deleting the old controller is modelled as replacing it.
- QVariant conversions: a field is either a text field (`toString`) or an integer field (`toInt`). Converting a text value to a number, or a number to text, is not modelled.
- C++ `int` width: positions, lengths, volumes and track numbers are unbounded integers. No modelled arithmetic can overflow, since the only operations are division and remainder by 60.
