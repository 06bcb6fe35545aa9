# Beard audio player: a Dafny model

Beard is a small browser audio player: a single controller object (`Beard` in
`app/js/beard.js`) that validates a source URL, keeps the audio object's source,
toggles play and pause on one button, shows a title or an error message, and
renders the playback position as "m:ss of m:ss". This project models that
controller and its two formatting and validation routines, and proves what they
do.

- `AudioFormat` — `parseValidAudioFormat`: a URL is accepted exactly when the
  piece after its last '.', or the whole URL when it has no '.', is "mp3",
  "ogg" or "mp4", compared case-sensitively.
  The split-based definition is proved equal to a suffix reading ("the URL is
  the format, or ends with '.' and the format"). Also proved: the rejection of
  absent, empty and dot-terminated URLs, and the absence of case folding and
  of query-string stripping.
- `TimeFormat` — `parseSecondsToReadableFormat` and the string `displayTime`
  builds. The formatter is modelled branch by branch. Its contract says what
  the display reads back as: seconds `t % 60` of the rounded position `t`, and
  minutes `t / 60`, plus one extra minute in the third branch when the
  unrounded remainder `seconds % 60` is 30 or more. A shown remainder of 30
  that comes from 29.5 <= `seconds % 60` < 30 carries nothing, so 89.5 seconds
  shows "1:30". That extra minute (`Carry`) is the
  rounding quirk of line 114: `Math.round(seconds / 60)` where whole minutes
  were meant. The model reproduces it and proves exactly when the display is
  an exact reading of the position and when it is one minute ahead.
- `Strings` — the JavaScript primitives the two routines depend on:
  `split` with a one-character separator, with `Join` as its proved inverse,
  and the decimal rendering of a non-negative integer (`'' + n`), with a
  parser as its proved inverse.
- `Player` — the controller as a class. The DOM is abstracted into fields:
  the source of the audio object, the text and time elements, the `playing`
  class on the player element, and the texts that pending error timers put
  back.

JavaScript values are mapped as follows:
- `undefined` or `null` is `None`. A NaN duration (unknown) is `None` too.
- Truthiness is written out: `Some(0.0)` as a duration and `Some("")` as a URL
  are falsy.
- `Math.round(x)` is `(x + 0.5).Floor`.
- `x % 60` on a non-negative number is `x - 60 * floor(x / 60)`.
- `('0' + n).slice(-2)` is the last two characters of "0" followed by the
  digits of `n`.

Two facts about the code that the model makes explicit:
- The error text is restored by `setInterval` (lines 67-69). It fires every 3 seconds for ever, so `RestoreFires` leaves the timer in place.
- Equal positive position and duration always give equal halves (`SamePositionAndDuration`); at 0 the duration is falsy and the display is "loading...". The line-114 rounding only makes a half disagree with the number it shows.

## Model

| member | source | states |
|---|---|---|
| AudioFormat.IsValidAudioFormat | app/js/beard.js:118-139 | An absent URL is rejected. A present one is accepted iff it is "mp3", "ogg" or "mp4", or ends with '.' followed by one of them, so the empty string is rejected. |
| AudioFormat.ExtensionIff | app/js/beard.js:129-130 | For a dot-free extension, the last '.'-segment of `url.split('.')` is that extension iff the URL is the extension or ends with '.' and it. |
| AudioFormat.Extension | app/js/beard.js:129-130 | The last element of `url.split('.')` holds no '.', and the URL is that element or ends with '.' and it. |
| AudioFormat.ValidIffExtensionWhitelisted | app/js/beard.js:127-134 | A present URL is accepted iff its last '.'-segment is in the whitelist; the `if(url)` guard rejects nothing more. |
| AudioFormat.RejectsEmptyAndTrailingDot | app/js/beard.js:127-134 | Absent, empty and dot-terminated URLs are rejected. |
| AudioFormat.NoDotValidIffWhitelisted | app/js/beard.js:129-131 | A URL without any '.' is accepted iff it literally equals a whitelisted format. |
| AudioFormat.AcceptsExamples | app/js/beard.js:121-134 | "song.mp3", "a.b.ogg" and the bare "mp4" are accepted. |
| AudioFormat.RejectedByCharacter | app/js/beard.js:131 | A URL is rejected when one of its last three characters differs from that position in all three formats. |
| AudioFormat.RejectsUpperCase | app/js/beard.js:131 | The comparison is case-sensitive: "song.MP3" is rejected. |
| AudioFormat.RejectsQueryString | app/js/beard.js:129-131 | Nothing is stripped after the extension: "song.mp3?x=1" is rejected. |
| Strings.Split | app/js/beard.js:129 | `url.split('.')` always yields at least one part, so the last element taken at line 130 always exists; what the parts are is stated by `JoinSplit` and `SplitJoin`. |
| Strings.JoinSplit | app/js/beard.js:129 | The parts of `split` contain no separator and joined with it give back the string. |
| Strings.SplitJoin | app/js/beard.js:129 | `split` undoes joining whenever no part contains the separator. |
| Strings.SplitAppend | app/js/beard.js:129 | Splitting distributes over one occurrence of the separator. |
| Strings.SplitWithoutSeparator | app/js/beard.js:129 | A string without the separator splits into itself alone. |
| Strings.LastSegmentIsSuffix | app/js/beard.js:130 | The last element of `split` holds no separator, and the string is it or ends with a separator and it. |
| Strings.LastSegmentAfterSeparator | app/js/beard.js:130 | A separator-free tail after the last separator is the last element of `split`. |
| Strings.Digits | app/js/beard.js:111 | The rendering of `n` is non-empty, starts with a digit, has no leading zero, and is one character exactly when `n < 10`. |
| Strings.DigitsAreDigits | app/js/beard.js:111 | Every character of the rendering is a decimal digit. |
| Strings.ParseDigits | app/js/beard.js:111 | Read back as decimal, the rendering of `n` is `n`. |
| Strings.DigitsInjective | app/js/beard.js:111 | Different numbers never share a rendering. |
| TimeFormat.Round | app/js/beard.js:105 | `Math.round` of a non-negative number is within half a unit of it, ties upwards. |
| TimeFormat.RoundUnique | app/js/beard.js:105 | Any integer `n` with `n - 0.5 <= x < n + 0.5` is `Math.round(x)`. |
| TimeFormat.Mod60 | app/js/beard.js:114 | `seconds % 60` lies in [0, 60). |
| TimeFormat.Mod60Unique | app/js/beard.js:114 | Any split of `x` into whole minutes and a remainder below 60 is the one `%` and `/` give. |
| TimeFormat.Pad2 | app/js/beard.js:108 | `('0' + n).slice(-2)` has two characters and, for `n < 100`, reads back as `n`. |
| TimeFormat.Pad2AreDigits | app/js/beard.js:108 | The padded seconds are two decimal digits. |
| TimeFormat.ClockCharacters | app/js/beard.js:108-114 | A display starts with a digit, holds only digits and ':', no space, and has at least four characters. |
| TimeFormat.ClockRoundTrip | app/js/beard.js:108-114 | A display of `m` minutes and `ss < 100` seconds, split on ':', reads back as `(m, ss)`. |
| TimeFormat.Carry | app/js/beard.js:114 | The extra minute is 0 or 1 and arises only in the third branch, where `Math.round(seconds / 60)` is exactly the whole minutes of the rounded position plus it. |
| TimeFormat.FormatSeconds | app/js/beard.js:102-117 | The display shows the whole minutes of the rounded position plus the third branch's carried minute, a colon, and the padded remainder. |
| TimeFormat.FormatSecondsBranches | app/js/beard.js:105-114 | The three branches: under a minute "0:" and padded seconds; a whole minute the minutes and ":00"; otherwise `Math.round(seconds/60)`, ':' and the padded remainder, which is between 1 and 59. |
| TimeFormat.FirstBranchIsClock | app/js/beard.js:108 | The first branch reads zero minutes and the rounded seconds. |
| TimeFormat.SecondBranchIsClock | app/js/beard.js:111 | The second branch reads the whole minutes and zero seconds. |
| TimeFormat.ThirdBranchIsClock | app/js/beard.js:114 | The third branch reads the whole minutes plus the carry and `t % 60` seconds. |
| TimeFormat.RemainderOfRounded | app/js/beard.js:114 | `Math.round(seconds % 60)` is `t % 60` whenever `t % 60` is not 0, and then `seconds / 60` floors to `t / 60`. |
| TimeFormat.RoundedMinutes | app/js/beard.js:114 | `Math.round(seconds / 60)` is the whole minutes plus one exactly when the unrounded remainder `seconds % 60` is at least 30. |
| TimeFormat.MinutesOfThirdBranch | app/js/beard.js:114 | In the third branch the shown minutes are `t / 60`, or one more when the unrounded remainder `seconds % 60` is at least 30 (not when only the rounded remainder `t % 60` is). |
| TimeFormat.FormatSecondsReading | app/js/beard.js:102-117 | Every display reads back as minutes `t / 60` plus the carry and seconds `t % 60`. |
| TimeFormat.ExactIffNoCarry | app/js/beard.js:102-117 | Shown seconds are below 60; the display equals the rounded position iff the third-branch carry does not apply, and otherwise is exactly 60 seconds ahead. |
| TimeFormat.FormatSecondsOf | app/js/beard.js:105-114 | A position rounding to `60m + ss` with `ss < 60` shows `m` (plus the carry) and `ss`. |
| TimeFormat.UnderAMinuteExamples | app/js/beard.js:108 | 5 and 7 seconds show "0:05" and "0:07". |
| TimeFormat.RoundsUpToAMinute | app/js/beard.js:105-111 | 59.5 seconds rounds to a whole minute and shows "1:00". |
| TimeFormat.WholeMinuteExamples | app/js/beard.js:111 | 60 and 120 seconds show "1:00" and "2:00". |
| TimeFormat.RoundedMinutesExample | app/js/beard.js:114 | 90 seconds shows "2:30": the quirk in action. |
| TimeFormat.BoundaryRemainderExample | app/js/beard.js:114 | 89.5 seconds rounds to 90, whose remainder is 30, yet carries nothing and shows "1:30". |
| TimeFormat.TwoMinutesFiveExample | app/js/beard.js:114 | 125 seconds shows "2:05". |
| TimeFormat.FormatSecondsCharacters | app/js/beard.js:102-117 | A formatted time is non-empty, starts with a digit and never contains a space. |
| TimeFormat.TimeString | app/js/beard.js:86-96 | The composed string is "loading..." iff the duration is undefined (NaN) or 0, the values the line-88 truthiness test `Known` rejects; otherwise it starts with a digit, as the formatted position does. |
| TimeFormat.HalvesOfJoined | app/js/beard.js:89-96 | Two space-free halves joined by " of " split back into those halves. |
| TimeFormat.TimeStringReading | app/js/beard.js:83-101 | With an undefined (NaN) or zero duration the display has no " of " halves; otherwise it splits into the formatted position and the formatted duration around "of". |
| TimeFormat.SamePositionAndDuration | app/js/beard.js:86-96 | A positive position equal to the duration shows two equal halves. |
| TimeFormat.LoadingExamples | app/js/beard.js:88-92 | An undefined or zero duration discards the position and shows "loading...". |
| TimeFormat.DisplayUnderAMinute | app/js/beard.js:86-96 | 5 seconds of 125 shows "0:05 of 2:05". |
| TimeFormat.DisplayWholeMinutes | app/js/beard.js:86-96 | 60 seconds of 120 shows "1:00 of 2:00". |
| TimeFormat.DisplayRoundedMinutes | app/js/beard.js:86-96 | 90 seconds of 125 shows "2:30 of 2:05". |
| Player.Beard.Init | app/js/beard.js:15-41 | The player starts stopped. A fresh audio source is empty, and a truthy `data-source` becomes the source without validation. Text, time and class are taken from the markup. No error timers are pending. |
| Player.Beard.SetSource | app/js/beard.js:72-77 | The audio source becomes the URL; nothing else changes. |
| Player.Beard.DisplayText | app/js/beard.js:78-82 | The text element shows the given text; nothing else changes. |
| Player.Beard.Error | app/js/beard.js:58-71 | The text shows "Error: " and the message, and a timer that puts back the text shown before is added. |
| Player.Beard.RestoreFires | app/js/beard.js:66-69 | A firing of a pending timer shows its captured text again and leaves every timer in place. |
| Player.Beard.Pause | app/js/beard.js:159-170 | The playing flag and the `playing` class are both cleared, whatever they were. |
| Player.Beard.Play | app/js/beard.js:140-158 | The button toggles: the flag becomes the opposite of what it was, and the class follows the flag. |
| Player.Beard.Load | app/js/beard.js:42-57 | An invalid URL only shows "Error: Invalid audio url." and adds a timer; source and playback are untouched. A valid one stops playback, shows the new text and becomes the source. |
| Player.Beard.DisplayTime | app/js/beard.js:83-101 | The time element shows the composed time string for the position and duration reported. |
| Player.InitKeepsUnvalidatedSource | app/js/beard.js:29-32 | A player whose markup names "track.wav" keeps that source, which `load` would reject. |
| Player.RepeatedErrorScenario | app/js/beard.js:42-48 | Two rejected loads in a row leave two timers: the first puts back the earlier text, the second the first error message. |
| Player.LoadThenPlay | app/js/beard.js:42-57 | After a valid load and one press of the button the player is playing that source, under the new title. |

## Left out

- DOM and selection-library plumbing (`$(elm)`, `find`, `attr`, `text()`, `addClass`, `removeClass`): the elements are fields of `Beard`, read and written directly.
- The audio engine: `audio.play()` and `audio.pause()` (lines 150, 162) start and stop nothing in the model. Position and duration are parameters of `DisplayTime`.
- Event binding (lines 34-39): `timeupdate`, `canplay` and the click on `.play` are not modelled. A caller invokes `DisplayTime` and `Play` directly.
- Timer mechanics of `setInterval` (lines 67-69): the 3-second period and the interleaving of firings with later events are not modelled. Each pending timer is recorded by the text it restores, and one firing is the `RestoreFires` method.
- `seek` (line 171) is an empty function and has no model.
- The chainable `$.fn` wrappers (lines 174-207) only forward to the controller and return the collection; they are not modelled.
- Floating point: positions are exact reals. IEEE-754 rounding, NaN and infinite positions, and numbers from 1e21 upwards (which JavaScript prints in exponent notation) are not modelled.
- An infinite duration (a live stream) is not modelled. It is truthy, so line 89 would render it as "Infinity:aN". `TimeString` and `DisplayTime` take only finite durations.
- TimeFormat.FormatSeconds: requires a non-negative position, because the audio element never reports a negative one. The same holds for TimeFormat.Round, TimeFormat.Mod60 and Player.Beard.DisplayTime.
- TimeFormat.Pad2: the read-back value is stated only below 100, the only range the formatter passes it.
- Player.Beard.Load: `options.text` is a string. An undefined text, which turns `text()` into a read, is not modelled, and neither are non-string URLs, on which `split` would throw.
- Player.Beard.Init: the initially undefined `Beard.playing` is modelled as `false`. Calling `init` a second time, which would rebind events for a second audio object, is not modelled.
