# Athletics results engine in Dafny

A model of the results-recording engine of a small athletics (track and
field) meet application. The engine has three parts, each written inline in
a React Native component:

- **Track timing** (`TrackTimer`): one stopwatch per heat, which is idle or
  running from a start instant. Each lane's finish time is captured against
  it, cleared, or re-captured, and a lane's athlete can be renamed.
  `finalize` ranks the lanes by ascending time, with untimed lanes last. A
  time is displayed as `s.mmm`.
- **Field events** (`FieldEventRecorder`): a grid of attempts, a fixed number
  per athlete. An attempt gets a typed distance or is toggled to a foul.
  After every change the athlete's best mark is recomputed. `finalize` ranks
  the athletes by descending best, with athletes without a best last.
- **Event setup** (`EventSetup`): the form that configures an event. It
  holds the discipline vocabulary of each kind and the participant list,
  with add one, add a batch of six, and remove by id. It validates the name
  and turns the text fields into lane and attempt counts, a wind limit and
  a qualifying-place count.

Files:

- `types.dfy` (module `Types`): the entities. `Athlete`, `LaneAssignment`,
  `Attempt`, `FieldEntry`, `SportEvent` and the enumerations. A numeric
  field of a created event is `Absent`, `NaN` or a number, because the code
  can store JavaScript's NaN there.
- `js_text.dfy` (`JsText`): the JavaScript built-ins the engine relies on.
  These are `trim`, `String(n)` for integers, `padStart`, and the decimal
  forms read by `parseInt` and `parseFloat`. A failed parse (NaN) is `None`.
- `ranking.dfy` (`Ranking`): both `finalize`s sort a copy with
  `Array.prototype.sort` and a subtracting comparator. A missing key counts
  as an infinity, so two missing keys compare as NaN, which counts as equal.
  Section 22.1.3.27 of ECMA-262 (2019 edition) makes that sort stable. The
  model is a stable insertion sort. `StableSortIsUnique` shows that every
  sorted and stable rearrangement is that same sequence, so the ranking
  does not depend on the sort algorithm.
- `track_timer.dfy` (`TrackTiming`): the class `TrackTimer`, with the fields
  `running`, `startTs`, `elapsed` and `lanesState`, plus `Fmt` and
  `Finalize`.
- `field_event.dfy` (`FieldEvents`): the class `FieldEventRecorder`, with
  the fields `entries`, `open` and `currentEdit`, plus the best-mark fold
  and `Finalize`.
- `event_setup.dfy` (`EventSetup`): the class `SetupForm`, plus the preset
  lists, the participant filter and the field builders of `createEvent`.

The wall clock (`Date.now()`) is the parameter `now`, in milliseconds. The
identities `uuidv4()` would generate are parameters: an id, or a function
from a position to an id.

Three behaviours of the code differ from what a reader might expect:

- **Best mark.** The best is not the plain maximum of the valid marks. The
  code folds with `Math.max` from a seed of 0 and stores a result of 0 as
  no best, so an athlete whose marks are all 0 or negative has no best.
  `FieldEvents.BestOfIsPositiveMaxMark` states the exact relation to the
  plain maximum `MaxMark`.
- **Lane and attempt counts.** The defaults of 6 lanes and 3 attempts apply
  only to empty text, not to blank or unreadable text. Text that does not
  start with an integer yields `Math.max(2, NaN)`, which is NaN.
- **Wind limit.** A malformed wind limit does not become "not set". The
  code stores `parseFloat` of any non-empty text, which is NaN when the
  text does not start with a number.

## Model

| member | source | states |
|---|---|---|
| JsText.Trim | components/EventSetup.tsx:49-55 | `String.prototype.trim`: `TrimEnd` after `TrimStart`; its meaning is given by `TrimStartShape`, `TrimEndShape` and `TrimEmptyIff` |
| JsText.ParseInt | components/EventSetup.tsx:59-62 | `parseInt(s, 10)`: optional leading whitespace and sign, then the longest digit run, NaN (none) when that run is empty; `DigitPrefixShape` and `ParseIntReadsIntToString` give its meaning |
| JsText.ParseFloat | components/FieldEventRecorder.tsx:43 | `parseFloat(s)` on decimal text: whitespace, sign, digits, an optional point and fraction, NaN (none) when no digit is read; `ParseFloatReadsIntToString` and `ParseFloatReadsDecimal` give its meaning |
| JsText.TrimStartShape | components/EventSetup.tsx:55 | `trimStart` drops exactly the leading whitespace: the dropped prefix is all whitespace, and what is kept is a suffix of the input that starts with a non-whitespace character or is empty |
| JsText.TrimEndShape | components/EventSetup.tsx:55 | `trimEnd` drops exactly the trailing whitespace, symmetrically |
| JsText.TrimEmptyIff | components/EventSetup.tsx:49-55 | `name.trim()` is empty if and only if every character is whitespace; a non-empty result starts and ends with a non-whitespace character |
| JsText.DigitPrefixShape | components/EventSetup.tsx:59-62 | the digit run `parseInt` reads is the longest prefix made of digits |
| JsText.NatToStringReadsBack | components/TrackTimer.tsx:33-35 | `String(n)` is at least one decimal digit, has no leading zero unless `n` is 0, and reading those digits back gives `n` |
| JsText.PadStartZeros | components/TrackTimer.tsx:35 | `padStart(len, "0")` on digits gives digits of length `max(len, length)` with the same value |
| JsText.ParseIntReadsIntToString | components/EventSetup.tsx:59-60 | `parseInt(String(n)) == n` for every integer, so the default texts "6" and "3" read as 6 and 3 |
| JsText.ParseFloatReadsIntToString | components/FieldEventRecorder.tsx:43 | `parseFloat(String(n)) == n` for every integer |
| JsText.ParseFloatReadsDecimal | components/FieldEventRecorder.tsx:43 | `parseFloat` reads "w.f" as `w + f / 10^(number of digits of f)` |
| Ranking.SortBy | components/TrackTimer.tsx:80 | `slice().sort(cmp)` as a stable insertion sort; `SortByPermutes`, `SortBySorted`, `SortByStable` and `StableSortIsUnique` give its meaning, for both recorders' `finalize` |
| Ranking.SortByPermutes | components/TrackTimer.tsx:80 | the ranking has the same length and the same multiset of elements as its input |
| Ranking.SortBySorted | components/TrackTimer.tsx:80 | the ranking is ordered by key, with the key-less bucket at the end |
| Ranking.SortByStable | components/TrackTimer.tsx:80 | for every key, the ranking lists the elements with that key in their input order |
| Ranking.StableSortIsUnique | components/FieldEventRecorder.tsx:76 | two sequences that are both sorted and list every key's elements in the same order are equal, so any stable sort gives the same ranking |
| TrackTiming.Fmt | components/TrackTimer.tsx:31-36 | `fmt` returns "--" exactly when there is no time |
| TrackTiming.FmtReadsBack | components/TrackTimer.tsx:31-36 | for `ms >= 0`, `fmt` prints digits with no leading zero (except a lone "0"), a point, then exactly three digits, and `seconds * 1000 + fraction == ms` |
| TrackTiming.Finalize | components/TrackTimer.tsx:79-82 | the ranked lanes are a permutation of the lanes; times are non-decreasing; an untimed lane is followed only by untimed lanes; equal times, and all untimed lanes, keep lane order |
| TrackTiming.OnlyTimedLaneRanksFirst | components/TrackTimer.tsx:79-82 | when one lane alone has a time, the ranking is that lane followed by the others in lane order |
| TrackTiming.RecordLaneTwoBeforeStart | components/TrackTimer.tsx:21-65 | four fresh lanes, no start: recording lane 2 gives it 0 ms and leaves the other lanes untimed |
| TrackTiming.LaneTwoRanksFirst | components/TrackTimer.tsx:79-82 | four lanes where only lane 2 is timed rank as lanes 2, 1, 3, 4 |
| TrackTiming.ScenarioRecordBeforeStart | components/TrackTimer.tsx:58-82 | four lanes, no start: recording lane 2 captures 0 ms, and the ranking is lanes 2, 1, 3, 4 |
| TrackTiming.TrackTimer.constructor | components/TrackTimer.tsx:21-28 | exactly `lanes` lanes numbered 1..lanes; lane i+1 holds participant i, or a placeholder "Athlete i+1" with a fresh id; no time, status OK; the clock is idle at 0 |
| TrackTiming.TrackTimer.CurrentElapsed | components/TrackTimer.tsx:58-59 | the clock reading used by `recordForLane` and the display: `now - startTs` while running, `elapsed` when idle; `Start`, `Stop` and `RecordForLane` state its value after each change |
| TrackTiming.TrackTimer.Start | components/TrackTimer.tsx:38-47 | while running nothing changes; otherwise the clock runs from `now` with reading `t - now` at every later instant `t`, elapsed 0; the lanes are untouched |
| TrackTiming.TrackTimer.Stop | components/TrackTimer.tsx:49-56 | while idle nothing changes; otherwise `elapsed = now - startTs`, the clock is idle and keeps the reading it had at `now`; the lanes are untouched |
| TrackTiming.TrackTimer.RecordForLane | components/TrackTimer.tsx:58-65 | only lane `index` changes, and only its time, which becomes the clock's current reading (`elapsed` when idle, so 0 before any start); the clock and the lane count are unchanged |
| TrackTiming.TrackTimer.ClearLane | components/TrackTimer.tsx:67-69 | lane `index`, if it exists, loses its time; every other lane and the clock are unchanged |
| TrackTiming.TrackTimer.SetAthleteName | components/TrackTimer.tsx:71-77 | only lane `index`'s athlete changes: it is renamed with its id and details kept, or created with the fresh id when the lane had none |
| FieldEvents.BestOf | components/FieldEventRecorder.tsx:49-53 | the best recomputed after a change: the `Math.max` fold from 0 over the valid marks, with 0 stored as no best; `BestOfIsPositiveMaxMark` and `BestOfBounds` tie it to the plain maximum `MaxMark` |
| FieldEvents.MaxMarkIsMaximum | components/FieldEventRecorder.tsx:49-53 | the plain maximum of the valid marks is none exactly when no attempt is a valid mark; otherwise it is some valid mark's value and at least every valid mark |
| FieldEvents.FoldBestIsMax | components/FieldEventRecorder.tsx:49-52 | the `reduce` from `acc` ends at `max(acc, largest valid mark)`, or at `acc` when there is no valid mark |
| FieldEvents.BestOfIsPositiveMaxMark | components/FieldEventRecorder.tsx:49-53 | the stored best is the largest valid mark when that is positive, and no best otherwise |
| FieldEvents.BestOfBounds | components/FieldEventRecorder.tsx:49-53 | a stored best is positive, is the value of a valid mark, and is at least every valid mark; there is no best exactly when every valid mark is at most 0 |
| FieldEvents.NoMarkNoBest | components/FieldEventRecorder.tsx:66-70 | an athlete whose attempts are all fouled or empty has no best |
| FieldEvents.OnlyMarkIsBest | components/FieldEventRecorder.tsx:49-53 | a single positive valid mark among attempts that are fouled or empty is the best |
| FieldEvents.Finalize | components/FieldEventRecorder.tsx:75-78 | the ranked entries are a permutation of the entries; bests are non-increasing; an entry without a best is followed only by such entries; ties keep participant order |
| FieldEvents.FinalizeKeepsRankedOrder | components/FieldEventRecorder.tsx:75-78 | entries already in ranking order are returned unchanged |
| FieldEvents.FieldEventRecorder.constructor | components/FieldEventRecorder.tsx:24-29 | one entry per athlete, in order, each with `attemptsPerAthlete` attempts numbered from 1, no value, no foul, no best, status OK; the dialog is closed |
| FieldEvents.FieldEventRecorder.OpenInput | components/FieldEventRecorder.tsx:35-38 | the dialog opens on the given attempt; the entries are unchanged |
| FieldEvents.FieldEventRecorder.Cancel | components/FieldEventRecorder.tsx:128 | the dialog closes and forgets its target; the entries are unchanged |
| FieldEvents.FieldEventRecorder.OnSubmitValue | components/FieldEventRecorder.tsx:40-57 | without a target only the dialog closes; otherwise the target attempt takes `parseFloat(raw)` (no value if that is NaN) and loses its foul, the athlete's best is recomputed, and every other entry is unchanged; the row invariant (foul implies no value, best up to date) is kept |
| FieldEvents.FieldEventRecorder.ToggleFoul | components/FieldEventRecorder.tsx:59-73 | the foul flag of exactly one attempt flips; that attempt ends without a value; the best is recomputed; every other attempt and entry is unchanged; the row invariant is kept |
| FieldEvents.ReadsSevenTwentyFour | components/FieldEventRecorder.tsx:43 | the text "7.24" parses as 7.24 |
| FieldEvents.ReadsSixNinety | components/FieldEventRecorder.tsx:43 | the text "6.90" parses as 6.9 |
| FieldEvents.FoulishIsNotANumber | components/FieldEventRecorder.tsx:43 | "foulish" parses as NaN |
| FieldEvents.RecordFirstSample | components/FieldEventRecorder.tsx:40-73 | submitting 7.24 and "foulish" and fouling the third attempt leaves one valid mark, 7.24, and the other athlete untouched |
| FieldEvents.RecordSecondSample | components/FieldEventRecorder.tsx:40-57 | submitting 6.90 on an untouched row leaves one valid mark, 6.9, and the other athlete untouched |
| FieldEvents.RecordSampleSession | components/FieldEventRecorder.tsx:24-73 | after the sample session the bests are 7.24 and 6.9 |
| FieldEvents.ScenarioTwoAthletes | components/FieldEventRecorder.tsx:24-78 | after the sample session `finalize` ranks the 7.24 athlete ahead of the 6.9 athlete |
| FieldEvents.ScenarioAllFouled | components/FieldEventRecorder.tsx:59-73 | fouling all three attempts of a fresh row leaves no best |
| EventSetup.PresetListForKind | components/EventSetup.tsx:40-46 | the disciplines a kind offers, concatenated from the preset groups in declaration order; `PresetsWellFormed` gives the facts `selectKind` relies on |
| EventSetup.PresetsWellFormed | components/EventSetup.tsx:40-46 | every kind offers at least two disciplines with no repeats, so selecting a kind never falls back to ""; the first discipline of each kind is named |
| EventSetup.WithoutId | components/EventSetup.tsx:36-38 | `p.filter(x => x.id !== id)`; `WithoutIdMembers`, `WithoutIdAppend`, `WithoutAbsentId`, `WithoutIdIdempotent`, `RemoveUniqueId` and `RemoveUndoesAdd` give its meaning |
| EventSetup.WithoutIdMembers | components/EventSetup.tsx:36-38 | an athlete remains after removing an id exactly when it was there and has a different id |
| EventSetup.WithoutIdAppend | components/EventSetup.tsx:36-38 | removal works piecewise over concatenation, so the remaining athletes keep their order |
| EventSetup.WithoutAbsentId | components/EventSetup.tsx:36-38 | removing an id nobody has leaves the list as it is |
| EventSetup.WithoutIdIdempotent | components/EventSetup.tsx:36-38 | removing the same id twice is removing it once |
| EventSetup.RemoveUniqueId | components/EventSetup.tsx:36-38 | with unique ids, removing the id of the athlete at position k drops exactly that athlete |
| EventSetup.RemoveUndoesAdd | components/EventSetup.tsx:30-38 | removing a just-added athlete by its fresh id gives back the previous list |
| EventSetup.CountFromText | components/EventSetup.tsx:59-60 | `Math.max(least, parseInt(text or default))` is the default for empty text, is NaN exactly when non-empty text does not start with an integer, is otherwise the typed count raised to `least` (the count if it is at least `least`, else `least`), and is never below `least` |
| EventSetup.LanesField | components/EventSetup.tsx:59 | lanes are set for track events only: 6 for empty text, NaN exactly for unreadable text, otherwise the typed count raised to 2 (so "1" gives 2), and never below 2 |
| EventSetup.AttemptsField | components/EventSetup.tsx:60 | attempts are set for field events only: 3 for empty text, NaN exactly for unreadable text, otherwise the typed count raised to 1 (so "0" gives 1), and never below 1 |
| EventSetup.WindField | components/EventSetup.tsx:61 | the wind limit is unset exactly when its text is empty; otherwise it is the parsed number, or NaN |
| EventSetup.ByPlaceField | components/EventSetup.tsx:62 | qualifying places are unset exactly when the text is empty; otherwise NaN exactly for unreadable text, else the typed count raised to 0 (so "-3" gives 0), and never below 0 |
| EventSetup.SetupForm.constructor | components/EventSetup.tsx:21-28 | the form starts empty-named, kind track, discipline "100m", texts "6", "6", "2.0", "3", no participants, and the discipline is offered for the kind |
| EventSetup.SetupForm.SelectKind | components/EventSetup.tsx:76 | choosing a kind selects that kind's first discipline and changes nothing else |
| EventSetup.SetupForm.SelectDiscipline | components/EventSetup.tsx:84-85 | choosing an offered discipline selects it and changes nothing else |
| EventSetup.SetupForm.AddParticipant | components/EventSetup.tsx:30-34 | exactly one athlete, named "Athlete n+1" with the fresh id, is appended; existing participants and the other fields are unchanged |
| EventSetup.SetupForm.AddDemoBatch | components/EventSetup.tsx:130-134 | six athletes named "Athlete n+1" to "Athlete n+6" with fresh ids are appended; existing participants are unchanged |
| EventSetup.SetupForm.RemoveParticipant | components/EventSetup.tsx:36-38 | the participants become the filtered list; nothing else changes |
| EventSetup.SetupForm.CreateEvent | components/EventSetup.tsx:48-66 | no event exactly when the name is blank; otherwise the event has the trimmed name (non-empty, no outer whitespace), a discipline offered for its kind, phase Single, the current participants, no qualifying time, and lanes, attempts, wind limit and qualifying places as the field builders state |
| EventSetup.ScenarioBlankNameAndDefaultLanes | components/EventSetup.tsx:48-66 | a name of two spaces creates no event; "Men 100m" with empty lanes text creates an event with 6 lanes |

## Left out

- Rendering, styles, list widgets, the `toFixed(2)` display text, and
  the text-input dialog component. The dialog only forwards a typed string
  to `OnSubmitValue` or `Cancel`.
- The 50 ms `setInterval` display tick of the track timer and its
  `clearInterval`. They only refresh the display. `TrackTimer.CurrentElapsed`
  is the reading they show.
- The real clock and the uuid generator. They are the parameters `now`,
  `freshId` and `attemptId`.
- Callbacks to the enclosing screen (`onFinalize`, `onCreate`, `onCancel`) and
  the "Name required" alert. `Finalize` and `CreateEvent` return their results
  instead.
- React state batching and stale closures. Each handler is one atomic step.
- The screen navigation, the demo fixtures and the JSON export of the
  application screen, and the event dashboard. The dashboard wires
  `lanes ?? 6`, `participants.slice(0, lanes)` and `attemptsPerAthlete ?? 3`
  into the recorders; the recorders' constructors take those arguments as
  given.
- TrackTiming.TrackTimer.constructor: takes the lane count as a natural
  number. A NaN or fractional count, which would make `Array.from` build no
  lanes or truncate the count, is not modelled. The same holds for the
  attempt count of `FieldEvents.FieldEventRecorder.constructor`.
- Parts of JavaScript's `parseInt`, `parseFloat` and `String(n)`, namely
  hexadecimal prefixes, exponents, `Infinity`, and the exponent notation
  of `String(n)` from 10^21 on. Distances are exact rationals, so
  IEEE-754 rounding of `parseFloat` is not modelled either.
- Math.round in `recordForLane`. A reading is a difference of two
  millisecond timestamps, so it is already a whole number and `Math.round`
  keeps it.
- The optional `wind` field of an attempt. No code path sets it.
- Index checks. `RecordForLane`, `SetAthleteName`, `OpenInput` and
  `ToggleFoul` require an index inside the grid, as the buttons that call
  them supply one. `ClearLane` maps over the lanes and accepts any index.
- FieldEvents.FieldEventRecorder.OpenInput: the source does not check
  the indices. The model requires them to lie inside the grid, which the
  row buttons guarantee.
