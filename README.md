# Face-detection, QR badge and passkey helpers — a Dafny model

This project models the pure and stateful core of four browser scripts of the
identity-verification demo pages:

- **`DetectionScoreManager`** (`libs/js/frp/detection-score-manager.js`). It keeps a FIFO of
  effective per-frame face scores capped at `sampleSize`. It also keeps a running highest
  score, a quality query over the trailing `recentWindow` scores that tolerates up to
  `maxBadScoresInWindow` scores below `threshold`, and a one-shot countdown shown in
  `#animation-container`. Module `DetectionScore`, file `detection_score_manager.dfy`: a class
  with the source's fields. A ghost `history` of every effective score since the last reset
  lets the invariant state that the buffer is the retained suffix of the history and that the
  highest score is its maximum.
- **The earlier `DetectionScoreManager`** (`libs/js/frp/detection-manager.js`). It evicts
  before it appends, judges the whole buffer, and keeps a second FIFO of multiple-face flags
  and a person-active flag. Module `LegacyDetection`, file `detection_manager.dfy`.
- **The QR badge handler** (`libs/js/utils/tulip-qr-scanner.js`, with the pattern configured in
  `libs/js/badge/badge-settings-register-flow.js`). Module `QrPayload` (`qr_payload.dfy`) is a
  hand-written matcher for
  `^user://identiverse\?id=([^&]+)(&firstname=([^&]*))?(&lastname=([^&]*))?`. It is proved
  equal to a declarative reading of the pattern: sound, complete, and unique. Module
  `QrScanner` (`qr_scanner.dfy`) records what a scan does to the page as an append-only log of
  effects: field writes, the success image, and the scheduled submit click.
- **The passkey helpers** (`libs/js/passkey-helper.js`). Module `Base64` (`base64.dfy`) holds
  `btoa` as section 4 of RFC 4648 and `atob` as the forgiving decode of the WHATWG HTML
  standard, whose first step removes ASCII whitespace. Module `Passkey` (`passkey.dfy`) holds:
  - `arrayBufferToBase64Url`, which is base64 put into the URL-safe alphabet of section 5 of
    RFC 4648, with the padding dropped;
  - the reverse mapping applied to the challenge;
  - `String.prototype.trim` and `extractValue`;
  - the early return of `passkeyAuth`;
  - `assertionToObject`.

Shared facts about sample windows (bounded FIFO, bad-score count, running maximum) are in
module `Samples` (`samples.dfy`). `Option` is in module `Wrappers` (`wrappers.dfy`).

Timers are explicit steps:
- `setInterval` in `startCountdown` becomes `Tick`, one firing of the interval.
- `setTimeout` in `handleQrResult` becomes a `ScheduleClick` effect in the log.

`decodeURIComponent` is a parameter of type `string -> Option<string>`. `None` stands for the
`URIError` it throws.

Two details of the code that the model keeps:
- A `recentWindow` of 0 takes the whole buffer, because `slice(-0)` is `slice(0)`.
  `RecentWindow` models that.
- `hasEnoughSamples()` tests `scores.length >= sampleSize`. The buffer never grows past
  `sampleSize`, so this means the buffer is full. `HasEnoughSamples` proves it.

## Model

| member | source | states |
|---|---|---|
| Samples.Retained | libs/js/frp/detection-score-manager.js:15-21 | the buffer after pushes and evictions holds min(count, sampleSize) samples |
| Samples.RetainedPush | libs/js/frp/detection-score-manager.js:15-21 | one push followed by at most one shift keeps exactly the retained suffix of the longer history |
| Samples.BadCount | libs/js/frp/detection-score-manager.js:26 | the `filter(score < threshold).length` count is at most the length of the slice |
| Samples.BadCountIsCardinality | libs/js/frp/detection-score-manager.js:26 | that count equals the number of positions holding a score strictly below the threshold |
| Samples.BadCountZero | libs/js/frp/detection-score-manager.js:26 | the count is zero exactly when every score is at least the threshold |
| Samples.TrueCount | libs/js/frp/detection-manager.js:28 | `filter(Boolean).length` is at most the number of flags |
| Samples.TrueCountAll | libs/js/frp/detection-manager.js:28 | all flags are counted exactly when every flag is set |
| Samples.MaxFrom0 | libs/js/frp/detection-score-manager.js:36-40 | a running maximum started at 0 is never negative |
| Samples.MaxFrom0IsMaximum | libs/js/frp/detection-score-manager.js:36-40 | it bounds every sample seen and is either 0 or one of them |
| Samples.MaxFrom0Grows | libs/js/frp/detection-score-manager.js:36-40 | a new sample raises it to the larger of the two, and it never decreases |
| DetectionScore.Start | libs/js/frp/detection-score-manager.js:50-66 | only an inactive countdown starts: it becomes active and visible with `timeLeft = duration`; an active one is untouched; display coherence is kept |
| DetectionScore.Step | libs/js/frp/detection-score-manager.js:54-63 | one interval firing writes `timeLeft` and counts down, or at `timeLeft <= 0` stops, hides and empties the display; inactive means nothing happens |
| DetectionScore.Cancel | libs/js/frp/detection-score-manager.js:68-76 | an active countdown ends hidden and empty; an inactive one is unchanged |
| DetectionScore.Steps | libs/js/frp/detection-score-manager.js:54-63 | ticks on an inactive countdown change nothing, and ticks keep the display coherent with the active flag |
| DetectionScore.CountdownCounts | libs/js/frp/detection-score-manager.js:53-63 | after a start with duration d >= 0, tick k (1..d) shows d-k+1 and the countdown is still running |
| DetectionScore.CountdownEnds | libs/js/frp/detection-score-manager.js:54-63 | tick d+1 ends the countdown: inactive, hidden, text empty |
| DetectionScore.CountdownEndsAtOnce | libs/js/frp/detection-score-manager.js:54-63 | a negative duration ends on the first tick |
| DetectionScore.EndedStaysEnded | libs/js/frp/detection-score-manager.js:56-58 | once the interval is cleared, later ticks change nothing |
| DetectionScore.EffectiveScore | libs/js/frp/detection-score-manager.js:14 | the stored score is never negative; it is positive exactly for a single-face frame with a positive score, and then equals that score |
| DetectionScore.RecentWindow | libs/js/frp/detection-score-manager.js:25 | `slice(-w)` is the suffix of length w, or the whole buffer when w is 0 or larger than it |
| DetectionScore.EvaluatorExample | libs/js/frp/detection-score-manager.js:24-28 | with threshold 0.7 and window 5, [0.9,0.9,0.5,0.5,0.5] has 3 bad scores and [0.9,0.9,0.9,0.5,0.5] has 2 |
| DetectionScore.AddStep | libs/js/frp/detection-score-manager.js:13-22 | push then shift-if-over keeps the buffer the retained suffix of the history and the highest score its maximum |
| DetectionScore.DetectionScoreManager.constructor | libs/js/frp/detection-score-manager.js:2-11 | empty buffer, highest score 0, no countdown, invariant established |
| DetectionScore.DetectionScoreManager.AddDetection | libs/js/frp/detection-score-manager.js:13-22 | the effective score is appended and the oldest dropped when over `sampleSize`; the highest score becomes max(old, effective); the invariant is kept |
| DetectionScore.DetectionScoreManager.EvaluateScores | libs/js/frp/detection-score-manager.js:24-28 | true exactly when the number of positions below threshold in the trailing window is at most `maxBadScoresInWindow` |
| DetectionScore.DetectionScoreManager.ResetAll | libs/js/frp/detection-score-manager.js:30-34 | buffer and history emptied, highest score 0, countdown cancelled and display hidden |
| DetectionScore.DetectionScoreManager.UpdateHighestScore | libs/js/frp/detection-score-manager.js:36-40 | the highest score becomes max(old, score) and never decreases |
| DetectionScore.DetectionScoreManager.GetHighestScore | libs/js/frp/detection-score-manager.js:42-44 | the value is at least 0, at least every score seen since the reset (evicted ones included), and 0 or one of them |
| DetectionScore.DetectionScoreManager.HasEnoughSamples | libs/js/frp/detection-score-manager.js:46-48 | true exactly when the buffer is full, which is when at least `sampleSize` scores arrived since the reset |
| DetectionScore.DetectionScoreManager.StartCountdown | libs/js/frp/detection-score-manager.js:50-66 | the countdown state becomes `Start(old, duration)`; exactly one interval is live; scores untouched |
| DetectionScore.DetectionScoreManager.Tick | libs/js/frp/detection-score-manager.js:54-63 | one interval firing performs `Step`; the number of live intervals matches the active flag |
| DetectionScore.DetectionScoreManager.ResetCountdown | libs/js/frp/detection-score-manager.js:68-76 | the countdown state becomes `Cancel(old)` and no interval is live |
| LegacyDetection.Shift | libs/js/frp/detection-manager.js:13 | `shift()` drops the first element and leaves an empty array empty |
| LegacyDetection.ScoreCapacity | libs/js/frp/detection-manager.js:11-16 | the buffer bound is exactly `sampleSize` when that is at least 1, and 1 when it is 0, because the new score is always appended |
| LegacyDetection.DetectionScoreManager.constructor | libs/js/frp/detection-manager.js:2-9 | empty windows, highest score 0, no person active |
| LegacyDetection.DetectionScoreManager.AddScore | libs/js/frp/detection-manager.js:11-16 | evicts the oldest score when the buffer is full, then appends; the new score is last, and the buffer never holds more than `sampleSize` scores when `sampleSize >= 1` |
| LegacyDetection.DetectionScoreManager.EvaluateScores | libs/js/frp/detection-manager.js:18-21 | true exactly when the number of scores below threshold in the whole buffer is at most `sampleSize - threshold * sampleSize` |
| LegacyDetection.DetectionScoreManager.CheckMultipleDetections | libs/js/frp/detection-manager.js:23-29 | records `count > 1` in a FIFO of at most `sampleSize` flags; answers false exactly when that window is full and every flag is set |
| LegacyDetection.DetectionScoreManager.ResetScores | libs/js/frp/detection-manager.js:31-36 | both windows emptied, highest score 0, no person active |
| LegacyDetection.DetectionScoreManager.ActivatePersonDetection | libs/js/frp/detection-manager.js:38-40 | a person is marked active |
| LegacyDetection.DetectionScoreManager.DeactivatePersonDetection | libs/js/frp/detection-manager.js:42-46 | no person active and the countdown display hidden |
| LegacyDetection.DetectionScoreManager.UpdateHighestScore | libs/js/frp/detection-manager.js:48-52 | the highest score becomes max(old, score) and never decreases |
| QrPayload.Match | libs/js/utils/tulip-qr-scanner.js:56-60 | a match needs the scheme prefix and a non-empty id; `MatchSound`, `MatchComplete` and `MatchesIff` prove it equal to the pattern's meaning |
| QrPayload.Run | libs/js/badge/badge-settings-register-flow.js:30 | a greedy `[^&]*` takes a prefix without `&` that ends at the end of the text or just before an `&` |
| QrPayload.RunUnique | libs/js/badge/badge-settings-register-flow.js:30 | only one such run exists |
| QrPayload.MatchSound | libs/js/utils/tulip-qr-scanner.js:56-60 | a match the parser returns satisfies the pattern: scheme, non-empty id, optional groups only where their key comes next, maximal runs |
| QrPayload.MatchComplete | libs/js/utils/tulip-qr-scanner.js:56-60 | any reading of the text that satisfies the pattern is the one the parser returns, so groups 1, 3 and 5 are determined by the payload |
| QrPayload.MatchesIff | libs/js/utils/tulip-qr-scanner.js:56-60 | a payload matches exactly when it starts with `user://identiverse?id=` followed by a character that is not `&` |
| QrPayload.LastNameAfterOtherParameter | libs/js/utils/tulip-qr-scanner.js:79-81 | an example of `LastNameOnlyRightAfter`: in `user://identiverse?id=u1&lang=en&lastname=Doe` only the id is captured |
| QrPayload.FirstNameOnlyRightAfterId | libs/js/utils/tulip-qr-scanner.js:76-78 | the first-name group is captured exactly when `&firstname=` comes right after the id |
| QrPayload.LastNameOnlyRightAfter | libs/js/utils/tulip-qr-scanner.js:79-81 | the last-name group is captured exactly when `&lastname=` comes right after the id and the first-name group, if any; after any other parameter it is not |
| QrScanner.Populate | libs/js/utils/tulip-qr-scanner.js:72-82 | filling the form only writes fields, and a non-empty id is written to the user-name field first; `WritesOnSuccess` and `FirstNameDecodeFailure` give the full sequence |
| QrScanner.Handle | libs/js/utils/tulip-qr-scanner.js:56-70 | a payload that does not match has no effect; one that matches first writes its id to the user-name field; `OneClickOnSuccess` and `NonMatchingIsIgnored` carry the click and the no-op |
| QrScanner.PopulateSchedulesNoClick | libs/js/utils/tulip-qr-scanner.js:72-82 | filling the form only writes fields and schedules no click |
| QrScanner.NonMatchingIsIgnored | libs/js/utils/tulip-qr-scanner.js:56-70 | a payload that does not match writes nothing, shows nothing and schedules nothing |
| QrScanner.FinishOneClick | libs/js/utils/tulip-qr-scanner.js:63-66 | after a fill that did not throw, one click is added as the last effect, right after the success image |
| QrScanner.OneClickOnSuccess | libs/js/utils/tulip-qr-scanner.js:60-69 | exactly one submit click when the payload matches and nothing throws, none otherwise; the click comes last, after the success image |
| QrScanner.WritesOnSuccess | libs/js/utils/tulip-qr-scanner.js:72-82 | on success the id goes verbatim to the user-name field, then each non-empty name group decoded to its field, in that order |
| QrScanner.FirstNameDecodeFailure | libs/js/utils/tulip-qr-scanner.js:73-77 | a first name that fails to decode leaves only the user-name write and throws: no image, no click |
| QrScanner.ScannerPage.PopulateInputFieldsFromQrData | libs/js/utils/tulip-qr-scanner.js:72-82 | the log grows by exactly the writes of `Populate`, and the method throws exactly when it does |
| QrScanner.ScannerPage.HandleQrResult | libs/js/utils/tulip-qr-scanner.js:56-70 | the log grows by exactly the effects of `Handle`, and the method throws exactly when it does |
| Base64.StdIndexOfChar | libs/js/passkey-helper.js:112 | reading back the character of a 6-bit value gives the value |
| Base64.StdCharOfIndex | libs/js/passkey-helper.js:154 | a character of the alphabet is the character of its value |
| Base64.JoinSplit | libs/js/passkey-helper.js:112 | regrouping three bytes into four sextets and back loses nothing |
| Base64.ToSextets | libs/js/passkey-helper.js:112 | n bytes give 4(n div 3) sextets, plus 2 or 3 for a final partial group |
| Base64.UnpackToSextets | libs/js/passkey-helper.js:154 | unpacking the sextets of a byte string gives the bytes back |
| Base64.Chars | libs/js/passkey-helper.js:112 | each output character stands for its sextet |
| Base64.Indices | libs/js/passkey-helper.js:154 | succeeds exactly when every character is in the alphabet, and then gives each character's value |
| Base64.IndicesChars | libs/js/passkey-helper.js:154 | reading the characters of a sextet string gives it back |
| Base64.EncodeUnpadded | libs/js/passkey-helper.js:112 | the unpadded encoding has the length of section 4 of RFC 4648 and only alphabet characters |
| Base64.Padding | libs/js/passkey-helper.js:112 | padding is `=` only, enough to complete a group of four |
| Base64.Btoa | libs/js/passkey-helper.js:112 | the output length is 4 * ceil(n / 3) |
| Base64.StripPadding | libs/js/passkey-helper.js:154 | at most two characters are removed, all of them `=`, and only from the end |
| Base64.StripIgnoresPadding | libs/js/passkey-helper.js:154 | stripping removes exactly the padding of an alphabet-only string |
| Base64.DecodeUnpadded | libs/js/passkey-helper.js:154 | `atob` of the unpadded encoding gives the bytes back |
| Base64.Atob | libs/js/passkey-helper.js:154 | `atob` succeeds only when every character is ASCII whitespace, `=` or in the alphabet, so any other character makes it throw; `AtobBtoa`, `AtobSkipsWhitespace` and `AtobRejectsLength` give the round trip, the skipped whitespace and the length rule |
| Base64.AtobBtoa | libs/js/passkey-helper.js:112 | `atob(btoa(b))` is `b` |
| Base64.AtobRejectsLength | libs/js/passkey-helper.js:154 | a length of the form 4k+1, counted after whitespace is removed, makes `atob` throw |
| Base64.AtobSkipsWhitespace | libs/js/passkey-helper.js:154 | a whitespace character anywhere in the text does not change what `atob` gives, so "QU JD" decodes like "QUJD" |
| Base64.RemoveAsciiWhitespace | libs/js/passkey-helper.js:154 | the first step of `atob` drops tab, line feed, form feed, carriage return and space, keeps every other character, and changes nothing in text without them |
| Base64.BtoaVectors | libs/js/passkey-helper.js:112 | the test vectors of section 10 of RFC 4648: "f", "fo" and "foo" encode to `Zg==`, `Zm8=` and `Zm9v` |
| Passkey.ReplaceAll | libs/js/passkey-helper.js:116 | a global single-character replace changes every occurrence and nothing else |
| Passkey.StripTrailing | libs/js/passkey-helper.js:116 | `/=+$/` removes a suffix made only of `=`, and what is left does not end with `=` |
| Passkey.StripTrailingRun | libs/js/passkey-helper.js:116 | a string not ending in `=`, followed by padding, loses exactly the padding |
| Passkey.UrlAlphabetRoundTrip | libs/js/passkey-helper.js:154 | the line-154 mapping undoes the alphabet swap of line 116 on every base64 string |
| Passkey.UrlAlphabetRoundTripBack | libs/js/passkey-helper.js:116 | the swap of line 116 undoes the line-154 mapping on every text without `+` or `/` |
| Passkey.ToUrlAlphabet | libs/js/passkey-helper.js:116 | `+` becomes `-`, `/` becomes `_`, every other character is kept |
| Passkey.FromUrlAlphabet | libs/js/passkey-helper.js:154 | `-` becomes `+`, `_` becomes `/`, every other character is kept |
| Passkey.ArrayBufferToBase64Url | libs/js/passkey-helper.js:111-117 | the result is the unpadded base64 with `+` to `-` and `/` to `_`, no other change; it holds no `+`, `/` or `=`; `Base64UrlRoundTrip` gives its inverse |
| Passkey.Base64UrlDecode | libs/js/passkey-helper.js:154 | the challenge decode succeeds only on text made of `-`, `_`, `=`, ASCII whitespace and base64 alphabet characters |
| Passkey.Base64UrlDecodeSkipsWhitespace | libs/js/passkey-helper.js:154 | whitespace inside the trimmed challenge is skipped as `atob` skips it, so it does not change the decoded challenge |
| Passkey.Base64UrlRoundTrip | libs/js/passkey-helper.js:154 | decoding an encoded buffer gives the buffer back, although the padding was dropped |
| Passkey.Base64UrlNonEmpty | libs/js/passkey-helper.js:111-117 | a non-empty buffer encodes to a non-empty string |
| Passkey.TrimStart | libs/js/passkey-helper.js:66 | removes a prefix made of whitespace; what is left does not start with whitespace |
| Passkey.TrimEnd | libs/js/passkey-helper.js:66 | removes a suffix made of whitespace; what is left does not end with whitespace |
| Passkey.Trim | libs/js/passkey-helper.js:66 | trimmed text is no longer than the text and neither starts nor ends with whitespace; `TrimRemovesSpaceOnly` and `TrimEmptyIff` say what was removed |
| Passkey.TrimRemovesSpaceOnly | libs/js/passkey-helper.js:66 | the trimmed text is a contiguous part of the original, and everything around it is whitespace |
| Passkey.TrimEmptyIff | libs/js/passkey-helper.js:66 | trimming gives the empty string exactly when the text is all whitespace |
| Passkey.TrimKeeps | libs/js/passkey-helper.js:66 | text without whitespace at either end is unchanged |
| Passkey.TrimIdempotent | libs/js/passkey-helper.js:66 | trimming twice is trimming once |
| Passkey.ExtractValue | libs/js/passkey-helper.js:64-67 | null exactly when the element is absent; otherwise exactly the trimmed text, which has no whitespace at either end |
| Passkey.TruthyExtract | libs/js/passkey-helper.js:150 | the extracted value is truthy exactly when the element exists and holds a non-whitespace character |
| Passkey.PasskeyAuthStart | libs/js/passkey-helper.js:140-160 | the decode is reached only with all three elements present; a rejected challenge is one whose trimmed text does not decode; a request carries the decoded challenge and the non-empty trimmed rpId and userVerification |
| Passkey.PasskeyAuthGuard | libs/js/passkey-helper.js:140-152 | no credential request is made exactly when one of the three elements is missing or holds only whitespace |
| Passkey.ChallengeRoundTrip | libs/js/passkey-helper.js:142-160 | a challenge element holding the base64url of a non-empty buffer, up to whitespace, yields a request for exactly that buffer, with the trimmed rpId and userVerification |
| Passkey.AssertionToObject | libs/js/passkey-helper.js:125-137 | `id` and `type` are copied; `rawId` and each response buffer become exactly their `arrayBufferToBase64Url` text, which decodes back to the buffer; `userHandle` is null exactly when the assertion has none, and otherwise its encoding |
| Passkey.AssertionToObjectInjective | libs/js/passkey-helper.js:125-137 | two assertions with the same serialized copy are equal, so no information is lost |

## Left out

- DOM plumbing is not modelled: `populateInputField`, `setNativeValue`, `displaySuccessImage`,
  `clickButtonById`, `observeDOMChanges`, `insertElementBelowAnchor` and the passkey button
  wiring. A field write, the success image and a submit click are abstract effects in
  `QrScanner.Effect`.
- Real timers are not modelled. `setInterval` becomes explicit `Tick` calls, and the
  `setTimeout` of `handleQrResult` becomes a `ScheduleClick` effect with its delay. The
  `setTimeout` of `passkeySubmitForm` is not modelled.
- The camera, `QrScanner.start`, `listCameras` and the camera selector are I/O and are not
  modelled.
- `navigator.credentials.get`, `JSON.stringify`, `btoa` of the JSON text at line 171 and the
  form submit that follows are not modelled. They are foreign calls, and the model stops at
  the request options.
- `console.log` and `console.error` output is not modelled.
- Scores and thresholds are mathematical reals. IEEE rounding, NaN and the float product
  `threshold * sampleSize` of the earlier manager are not modelled.
- DetectionScore.DetectionScoreManager.UpdateHighestScore: treated as internal to
  `addDetection`, so it does not keep the invariant that the highest score is the maximum of
  the history. A direct call can break that half. `ResetAll` therefore requires only the
  countdown half and restores the rest itself.
- DetectionScore.DetectionScoreManager.constructor: the source never touches the display when
  it builds the manager. The model assumes `#animation-container` starts hidden and empty, and
  the invariant relies on that.
- DetectionScore.DetectionScoreManager: the countdown writes into the element passed to
  `startCountdown`, but `resetCountdown` hides `#animation-container`. The model assumes the
  two are the same element.
- DetectionScore.DisplayText: the text a tick writes is `Number(n)`. The decimal rendering of
  `n` is not modelled.
- DetectionScore.DetectionScoreManager.Tick: a countdown started in one session and cleared by
  `resetCountdown` is modelled as cleared at once. A firing already queued by the browser is
  not modelled.
- LegacyDetection.DetectionScoreManager.GetHighestScore and `IsPersonActive` only return a
  field. They carry no contract beyond reading it.
- Passkey.ArrayBufferToBase64Url: the `null` branch is unreachable because `btoa` always
  returns a string, so it is not modelled. The argument-count limit of
  `String.fromCharCode.apply` for very large buffers is not modelled.
- QrScanner.Handle: `decodeURIComponent` is a parameter. Which strings it rejects, and what it
  decodes them to, is not modelled.
- QrPayload.Match: only the pattern configured in
  `libs/js/badge/badge-settings-register-flow.js:30` is modelled. Other patterns supplied
  through `config.qrRegexPattern` are not. Groups 2 and 4 are not returned because the handler
  does not read them.
- The capture loop that would call `evaluateScores` and `hasEnoughSamples` is not part of this
  model. The callers in `libs/js/frp/camera-service.js` only wire a capture button.
