# Breathing-interval tracker, modelled in Dafny

The Yoga app listens to the microphone through a sound classifier and
watches for one label, "breathing". Each classification result whose
confidence for that label reaches 0.7 counts as a detection. The app keeps
the list of detection instants. From the second detection on, every new
detection closes one interval record holding four things:

- a phase label, "inhale -> exhale" or "exhale -> inhale", chosen by the
  parity of the detection count;
- the gap to the previous detection;
- the time elapsed since the first detection;
- the detection's epoch timestamp, used as the record's identity.

Durations are shown as `MM:SS.mmm`. The list of records can be mailed as an
HTML table with one row per record.

The model has three modules, one per source file, and a small module of
sequence lemmas:

- `ClassifySound` (`classify_sound.dfy`) models the `AppState` object. It is
  a class with the source's four fields: `appConfig`, `detectionTime`,
  `intervals` and `soundDetectionIsRunning`.
  - Its methods are `RestartDetection`, `StopDetection`, the subscription's
    value handler `OnResult` and its completion handler `OnCompletion`.
  - `OnResult` takes the clock reading as a parameter.
  - The class invariant `Valid` is the predicate `Derived`. It says how
    the records follow from the detection instants.
  - The lemmas beside the class state what the invariant gives: alternating
    labels, telescoping elapsed times, monotone and distinct values under a
    monotone clock, and the threshold filter.
- `TimeFormat` (`time_format.dfy`) models `TimeInterval.stringFromTimeInterval`
  as pure functions. It defines Swift's truncating `/` and `%` explicitly and
  replaces `String(format: "%0.2d:%0.2d.%0.3d", …)` with a zero-padding
  function whose correctness is proved. A parser for the printed form gives
  the round trip.
- `Mail` (`mail.dfy`) models `MailView.getMessage` as the same loop over the
  records. It is proved equal to the specification `Message`, and `Message`'s
  own properties are proved as lemmas.
- `Sequences` (`sequences.dfy`) holds generic slicing and concatenation
  lemmas used by the other modules.

Time is held in whole milliseconds. An instant `t` is milliseconds since the
epoch, a duration is a difference of instants, and a record's `id` is
`t / 1000` seconds as a real number, like `Date.timeIntervalSince1970`.

## Model

| member | source | states |
|---|---|---|
| `ClassifySound.IsDetected` | Yoga/Yoga/ClassifySoundApp.swift:88-90 | A result is a detection exactly when it holds the monitored label with confidence at least 0.7, so a missing label is never a detection. |
| `ClassifySound.DetectionDependsOnMonitoredLabelOnly` | Yoga/Yoga/ClassifySoundApp.swift:88-90 | Raising the monitored label's confidence, or adding that label, never turns a detection into a miss; other labels play no part. |
| `ClassifySound.EpochIdOrdered` | Yoga/Yoga/ClassifySoundApp.swift:100-104 | The epoch-seconds identity of an instant preserves both the order and the equality of instants. |
| `ClassifySound.AppState.constructor` | Yoga/Yoga/ClassifySoundApp.swift:34-47 | A new state has the default configuration, empty histories and the running flag off, and it satisfies the invariant. |
| `ClassifySound.AppState.StopDetection` | Yoga/Yoga/ClassifySoundApp.swift:84-86 | Stopping the classifier changes no field of the state, so no history is cleared. |
| `ClassifySound.AppState.RestartDetection` | Yoga/Yoga/ClassifySoundApp.swift:54-82 | After a restart both histories are empty, the running flag is on, the stored configuration is the given one, and the invariant holds. |
| `ClassifySound.AppState.OnResult` | Yoga/Yoga/ClassifySoundApp.swift:64-73 | A miss changes nothing. A hit appends exactly the new instant. A first hit adds no record; any later hit appends exactly the record `Closing(previous history, now)`. The configuration and the running flag never change, and the invariant is kept. |
| `ClassifySound.AppState.OnCompletion` | Yoga/Yoga/ClassifySoundApp.swift:63-63 | Completion turns the running flag off and leaves both histories and the configuration untouched. |
| `ClassifySound.DerivedExtend` | Yoga/Yoga/ClassifySoundApp.swift:65-72 | Appending one instant keeps the records derived from the history: unchanged after the first instant, extended by the closing record after any later one. |
| `ClassifySound.PhasesAlternate` | Yoga/Yoga/ClassifySoundApp.swift:69-69 | Record `k` is labelled "inhale -> exhale" for even `k` and "exhale -> inhale" for odd `k`, so neighbouring records always differ. |
| `ClassifySound.ElapsedIsSumOfIntervals` | Yoga/Yoga/ClassifySoundApp.swift:66-71 | The elapsed time of record `k` equals the sum of the gaps of records `0` to `k`. |
| `ClassifySound.MonotoneClock` | Yoga/Yoga/ClassifySoundApp.swift:70-71 | If the clock never goes back, no gap and no elapsed time is negative, and elapsed times never decrease from one record to the next. |
| `ClassifySound.DistinctIds` | Yoga/Yoga/ClassifySoundApp.swift:93-103 | If the clock always moves forward, record identities strictly increase, so they are pairwise distinct as `Identifiable` expects. |
| `ClassifySound.ThreeDetections` | Yoga/Yoga/ClassifySoundApp.swift:67-71 | Three detections give exactly two records: the first labelled "inhale -> exhale", the second "exhale -> inhale", each with its gap, identity and elapsed time. |
| `ClassifySound.FirstClosing` | Yoga/Yoga/ClassifySoundApp.swift:69-71 | A detection at 2 s after a first one at 0 s closes the record ("inhale -> exhale", 2 s gap, id 2.0, 2 s elapsed). |
| `ClassifySound.FilterScenario` | Yoga/Yoga/ClassifySoundApp.swift:54-90 | A restart followed by results at 0 s, 1 s and 2 s with confidences 0.9, 0.5 and 0.8 keeps the instants 0 and 2000 ms and yields that single record. |
| `TimeFormat.QuotRem` | Yoga/Yoga/Support/DetectSoundsView.swift:31-32 | Swift's truncating quotient and remainder recombine to the dividend. The remainder lies in `0..b-1` for a non-negative dividend and in `-(b-1)..0` for a non-positive one. Both are odd functions of the dividend. |
| `TimeFormat.SecondsOfHour` | Yoga/Yoga/Support/DetectSoundsView.swift:31-32 | For whole seconds `s >= 0`, minutes-of-hour times 60 plus seconds-of-minute is `s % 3600`. |
| `TimeFormat.MillisOfHour` | Yoga/Yoga/Support/DetectSoundsView.swift:29-30 | For `t >= 0` milliseconds, seconds-of-hour times 1000 plus the millisecond remainder is `t % 3600000`. |
| `TimeFormat.FieldsOfNonNegative` | Yoga/Yoga/Support/DetectSoundsView.swift:29-32 | For a non-negative duration, minutes and seconds lie in `0..59` and milliseconds in `0..999`. Minutes times 60 plus seconds is the whole seconds modulo one hour, and milliseconds are the sub-second part. |
| `TimeFormat.FieldsOfNegated` | Yoga/Yoga/Support/DetectSoundsView.swift:29-32 | Negating a duration negates each of its three printed fields. |
| `TimeFormat.HoursDropped` | Yoga/Yoga/Support/DetectSoundsView.swift:32-33 | A non-negative duration and the same duration plus one hour print identically. |
| `TimeFormat.ZeroPadCorrect` | Yoga/Yoga/Support/DetectSoundsView.swift:33-33 | The zero-padded text of `n` is all decimal digits and denotes `n`. It has at least `width` digits, and exactly `width` when `n` fits. |
| `TimeFormat.ZeroPadStep` | Yoga/Yoga/Support/DetectSoundsView.swift:33-33 | Padding to `width > 0` is the padding of `n / 10` to one digit fewer, followed by the last digit of `n`. |
| `TimeFormat.ZeroPadOne` | Yoga/Yoga/Support/DetectSoundsView.swift:33-33 | A value below 10 padded to one digit is exactly its digit. |
| `TimeFormat.ZeroPadTwo` | Yoga/Yoga/Support/DetectSoundsView.swift:33-33 | A value below 100 padded to two digits is its tens digit and then its units digit. |
| `TimeFormat.ZeroPadThree` | Yoga/Yoga/Support/DetectSoundsView.swift:33-33 | A value below 1000 padded to three digits is its hundreds, tens and units digits. |
| `TimeFormat.ClockShape` | Yoga/Yoga/Support/DetectSoundsView.swift:33-33 | Groups of two, two and three characters joined by ':' and '.' make nine characters, with each separator and group at its fixed position. |
| `TimeFormat.FormatShape` | Yoga/Yoga/Support/DetectSoundsView.swift:28-35 | A non-negative duration prints as exactly nine characters `DD:DD.DDD`. Its three digit groups denote the minutes, seconds and milliseconds fields. |
| `TimeFormat.FormatRoundTrip` | Yoga/Yoga/Support/DetectSoundsView.swift:28-35 | Parsing the printed form of a non-negative duration gives it back modulo one hour, so a duration under an hour gives itself back exactly. |
| `TimeFormat.FormatExample` | Yoga/Yoga/Support/DetectSoundsView.swift:28-35 | 125.4 seconds prints as `02:05.400`. |
| `Mail.GetMessage` | Yoga/Yoga/Support/Mail.swift:53-60 | The loop's result is exactly `Message` of the records: `<table>`, one row per record in order, `</table>`. |
| `Mail.MessageBracketed` | Yoga/Yoga/Support/Mail.swift:54-58 | Every message starts with `<table>`, ends with `</table>`, and is at least 15 characters long. |
| `Mail.MessageEmpty` | Yoga/Yoga/Support/Mail.swift:54-59 | No records give exactly `<table></table>`. |
| `Mail.RowsAppend` | Yoga/Yoga/Support/Mail.swift:55-57 | The rows of `a + b` are the rows of `a` followed by the rows of `b`. |
| `Mail.MessageAppend` | Yoga/Yoga/Support/Mail.swift:54-58 | The message of `a + b` is `<table>`, the rows of `a`, the rows of `b`, `</table>`. |
| `Mail.RowsSplit` | Yoga/Yoga/Support/Mail.swift:55-56 | Record `k`'s row sits exactly between the rows of the records before it and the rows of those after it, so there is one row per record, in input order. |
| `Mail.RowLayout` | Yoga/Yoga/Support/Mail.swift:56-56 | For non-negative durations, a row is its label's length plus 74 characters. The label, the markup and the two nine-character durations sit at fixed offsets. |

## Left out

- The Combine plumbing (`PassthroughSubject`, `AnyCancellable`, delivery on the main queue) is not modelled. The value and completion closures become the methods `OnResult` and `OnCompletion`, called one after another with no concurrency.
- `SystemAudioClassifier` is not modelled; it is an audio and machine-learning pipeline outside this code. Starting and stopping it is an opaque effect, so `StopDetection` has no effect on the modelled state.
- `ClassifySound.AppState.OnResult` does not consult the running flag, and neither does the source's closure. Whether results stop arriving after a stop depends on the external classifier, which is not modelled.
- `Date()` is not modelled: the clock reading is the `now` parameter of `OnResult`. `Date.distance(to:)` becomes a difference of millisecond instants, and `timeIntervalSince1970` becomes `t / 1000` as an exact real.
- Floating point is not modelled. Instants and durations are whole milliseconds rather than `Double` seconds. The model therefore does not show the rounding of `truncatingRemainder(dividingBy: 1) * 1000` that can make the millisecond field one less than the decimal digits suggest, nor the trap of `NSInteger(self)` on durations out of range.
- `String(format:)` is not modelled as a Foundation call. `TimeFormat.ZeroPad` and `TimeFormat.PadSigned` model only the `%0.Nd` conversions this format string uses.
- TimeFormat.FormatShape: stated only for non-negative durations. For a negative duration each field prints with its own minus sign (see `TimeFormat.FieldsOfNegated`), and the text is not nine characters long.
- TimeFormat.HoursDropped: stated only for non-negative durations. Between minus one hour and zero the shifted duration is non-negative while the original prints its fields with minus signs, so the two texts differ.
- TimeFormat.FormatRoundTrip: stated only for non-negative durations, for the same reason.
- Mail.RowLayout: stated only for non-negative durations, for the same reason.
- `SoundIdentifier` and `SNClassificationResult` are not modelled as types. A classification result is a map from label names to confidences, and the monitored sound is its label name.
- The SwiftUI, UIKit and MessageUI views are user interface and are not modelled: `ContentView`, `SetupMonitoredSoundsView`, `DetectSoundsView.body`, the `MailView` controller and its coordinator, `MailContentView` and `ClassifySoundApp`.
