# GN AI Authority dashboard — verified model of its logic

The dashboard is a React application for producing and distributing a civic
broadcast series. Most of it is layout, but its modules and mock services hold
small pieces of exact logic:

- the YouTube upload form's validator, and the gate it puts in front of the upload;
- the playlist bundler;
- the QR-overlay link chooser;
- the chart uploader's input parser;
- the subtitle timeline's looping clock and its caption lookup;
- the diaspora broadcast channel filter;
- the sponsor table;
- the vault archival protocol;
- the outreach broadcast loop;
- the mock upload rule.

This project states each of them in Dafny and proves what they promise.

Layout, one module per component or service:

| file | module | models |
|---|---|---|
| `wrappers.dfy` | `Wrappers` | `Option` and `Result` |
| `js_text.dfy` | `JsText` | the JavaScript built-ins the logic relies on: `trim`, `split` on one character, `toLowerCase`/`toUpperCase`, `includes`, `parseInt`, `parseFloat`, `String(n)` |
| `youtube_service.dfy` | `YoutubeService` | `services/youtubeService.ts` |
| `upload_manager.dfy` | `UploadManager` | the upload form's `validate` and `handleSubmit` |
| `playlist_bundler.dfy` | `PlaylistBundler` | the bundler's `handleSubmit` |
| `qr_overlay.dfy` | `QrOverlay` | `targetUrl` and the check in `handleSubmit` |
| `stat_chart.dfy` | `StatChart` | the chart uploader's parse effect |
| `subtitle_sync.dfy` | `SubtitleSync` | the timeline clock, sync, and `activeSubtitle` |
| `outreach_service.dfy` | `OutreachService` | `services/outreachService.ts` |
| `diaspora_broadcast.dfy` | `DiasporaBroadcast` | the broadcast form's channel filter and `handleSubmit` |
| `sponsor_service.dfy` | `SponsorService` | `services/sponsorService.ts` |
| `vault_service.dfy` | `VaultService` | `services/vaultService.ts` |

State the source mutates in place is modelled imperatively:

- The sponsor table is the class `SponsorStore`, whose `sponsors` field `Link` reassigns.
- The timeline is the class `Timeline`, whose fields `Sync`, `Settle` and `Tick` update.
- The validator fills its error map field by field in the method `Validate`.
- The archival protocol appends its progress lines in the method `ArchiveToVault`.
- The outreach loop appends one report per channel in the method `DiasporaBroadcast`.

Each of these methods is proved against a specification function: `ValidationErrors`, `LinkRows`, `ArchiveLog`, `Reports`, or `NextTime` for the timeline's `Tick`. The lemmas about the service are stated on those functions.

Time is counted in integer deciseconds. One tick is 0.1 s, and the mock recording lasts 200 ticks. The clock tests for the end before it adds, so 200 itself is shown for one tick, and from 0 the clock is back at 0 after 201 ticks.

Randomness, clocks and the network are parameters of the model:

- the Email time-out draw is an oracle `timedOut: nat -> bool`, indexed by the send's position;
- the ISO timestamp, `Date.now()` and the random base-36 suffix are plain arguments of `ArchiveToVault`.

## Model

| member | source | states |
|---|---|---|
| JsText.Trim | components/modules.tsx:53 | `trim` yields the empty string exactly for blank text; otherwise the result neither starts nor ends with whitespace; it is never longer than the input |
| JsText.TrimBothShape | components/modules.tsx:53 | the same facts, stated on leading then trailing trimming |
| JsText.TrimStartShape | components/modules.tsx:53 | leading trim removes a whitespace-only prefix and keeps a suffix of the input |
| JsText.TrimEndShape | components/modules.tsx:53 | trailing trim removes a whitespace-only suffix and keeps a prefix of the input |
| JsText.TrimStartRun | components/modules.tsx:53 | leading trim of a whitespace run followed by text not starting with whitespace gives exactly that text |
| JsText.Split | components/modules.tsx:987 | `split(',')` gives at least one piece, no piece holds the separator, and joining the pieces with it restores the input |
| JsText.SplitJoin | components/modules.tsx:987 | splitting the join of separator-free pieces gives the pieces back (the other round trip) |
| JsText.Before | services/vaultService.ts:39 | `split('T')[0]` is the longest `T`-free prefix: it is a prefix, has no `T`, and is followed by a `T` unless it is the whole string |
| JsText.Lower | services/youtubeService.ts:24 | lower-casing keeps the length and maps each character by itself |
| JsText.Upper | services/vaultService.ts:38 | upper-casing keeps the length and maps each character by itself |
| JsText.Contains | services/youtubeService.ts:24 | `includes`: a pattern can only occur in text at least as long, and the empty pattern occurs in every text |
| JsText.NotContainsWithout | components/modules.tsx:714 | text lacking any one character of a pattern does not contain the pattern |
| JsText.DigitRun | components/modules.tsx:50 | the digit run `parseInt` reads is a prefix of digits of the radix, stopped by a non-digit or the end |
| JsText.NatToString | services/vaultService.ts:38 | the decimal rendering of `n` is non-empty, all decimal digits, without a leading zero; this is what `String(n)` gives for `n < 10^21` |
| JsText.DigitsValueNatToString | services/vaultService.ts:38 | reading the decimal rendering of `n` back gives `n` |
| JsText.ParseInt | components/modules.tsx:50 | `parseInt` of blank text is NaN, and only text whose first non-blank character is a minus parses to a negative number |
| JsText.ParseIntNatToString | components/modules.tsx:50 | `parseInt` of the decimal rendering of a count `n` is `n` |
| JsText.ParseIntAfterSign | components/modules.tsx:50 | after whitespace and sign, a run of decimal digits is read whole, with the sign applied |
| JsText.ParseIntSignedDigits | components/modules.tsx:50 | `parseInt` of an optional minus followed by decimal digits is that signed value |
| JsText.ParseIntNoDigits | components/modules.tsx:50 | `parseInt` of text starting with neither whitespace, sign nor digit is NaN |
| JsText.ParseFloat | components/modules.tsx:988 | `parseFloat` of blank text is NaN, and only text whose first non-blank character is a minus parses to a negative finite number |
| JsText.DecimalPrefix | components/modules.tsx:988 | an unsigned decimal literal never has a negative value |
| JsText.ParseFloatNatToString | components/modules.tsx:988 | `parseFloat` of the decimal rendering of a count `n` is `n` |
| JsText.DecimalPrefixOfDigits | components/modules.tsx:988 | a string of decimal digits is read whole as one plain decimal literal |
| JsText.Exp10Add | components/modules.tsx:988 | powers of ten multiply by adding exponents |
| JsText.ScaledShift | components/modules.tsx:988 | moving `n` decimal places from the exponent into the mantissa keeps the value, for exponents of either sign |
| JsText.ScaledFraction | components/modules.tsx:988 | a mantissa scaled down by `k` places and back up by `10^k` is the mantissa again |
| JsText.DecimalLiteralFraction | components/modules.tsx:988 | `d.f` with digit strings `d` and `f` is read whole as mantissa `df` with exponent minus the length of `f` |
| JsText.DecimalPrefixFraction | components/modules.tsx:988 | the value of `d.f` is the digits `df` divided by 10 to the length of `f` |
| JsText.DecimalPrefixExponent | components/modules.tsx:988 | the value of `de x` (digits, `e`, digits) is `d` times 10 to the `x` |
| JsText.ParseFloatFraction | components/modules.tsx:988 | `parseFloat` of `d.f` with a non-empty integer part is that exact decimal fraction |
| YoutubeService.Upload | services/youtubeService.ts:16-36 | the outcome is either a failure carrying the fixed invalid-format message or success with the id `dQw4w9WgXcQ` |
| YoutubeService.UploadFailsIffMarker | services/youtubeService.ts:24-26 | the upload fails if and only if the name contains `fail` in any mix of letter cases |
| YoutubeService.UploadIgnoresMetadata | services/youtubeService.ts:16-35 | two uploads of the same file with any two metadata records have the same outcome |
| YoutubeService.MarkedNameFails | services/youtubeService.ts:24-26 | a case-insensitive `fail` anywhere in the name makes the upload fail with the fixed message |
| YoutubeService.UploadRejectsAnyCase | services/youtubeService.ts:24 | `FAIL.mp4`, `Fail.mp4` and `fail.mp4` are all rejected |
| YoutubeService.UploadAcceptsNameWithoutF | services/youtubeService.ts:29-35 | a name with no `f` in either case always uploads, to the fixed id |
| YoutubeService.LowerCharIs | services/youtubeService.ts:24 | a character lower-cases to a small letter exactly when it is that letter or its capital |
| UploadManager.Validate | components/modules.tsx:48-61 | the error map holds exactly one key per broken rule, each with its fixed message (a NaN episode number breaks no rule); the result is true if and only if the map is empty; the map equals the rule-by-rule specification |
| UploadManager.FlagIf | components/modules.tsx:50-57 | one rule check: its key is present afterwards if and only if the rule is broken or it was present; other keys are kept; every key keeps carrying its own message |
| UploadManager.HasNoKeys | components/modules.tsx:60 | `Object.keys(m).length === 0` holds exactly for the empty map |
| UploadManager.ValidationErrorsUnique | components/modules.tsx:48-57 | a map whose keys are the broken rules and whose values are their messages is the specification map |
| UploadManager.ValidationErrorsKeys | components/modules.tsx:48-57 | the specification map's keys are exactly the broken rules |
| UploadManager.TrimmedPieces | components/modules.tsx:77 | the uploaded tags are the comma pieces of the input, each trimmed, one per piece |
| UploadManager.HandleSubmit | components/modules.tsx:63-87 | an invalid form only replaces the errors: nothing is uploaded and the active episode is kept; a valid form has a file and is uploaded with it and its metadata; the active episode changes only after a successful upload, to this episode with the returned id; a failed upload shows the service's message and keeps the active episode |
| UploadManager.NonNumericEpisodeNotFlagged | components/modules.tsx:50 | the episode number `abc` parses to NaN and is not flagged |
| UploadManager.EpisodeNumbersFlagged | components/modules.tsx:50 | `0`, `-3` and the empty string are flagged |
| UploadManager.EpNumberRejectedCount | components/modules.tsx:50 | the episode-number rule rejects the decimal rendering of a count exactly when the count is 0 |
| UploadManager.EpisodeNumberAccepted | components/modules.tsx:50 | `56` is not flagged |
| UploadManager.ThreeBrokenRules | components/modules.tsx:48-57 | an empty title, episode `0` and no file, with every other field filled, break the episode-number, title and file rules and no other |
| UploadManager.ThreeErrorKeys | components/modules.tsx:48-57 | an empty title, episode `0` and no file, with every other field filled, give exactly the episode-number, title and file errors |
| UploadManager.ThreeErrorScenario | components/modules.tsx:63-65 | submitting that form shows those three errors, requests no upload and keeps the active episode |
| PlaylistBundler.AddEpisode | components/modules.tsx:210-217 | count, order, ids and names are kept; only playlists with the selected id can change; such a playlist then holds the episode, appended at the end if and only if it was missing |
| PlaylistBundler.AddEpisodeIdempotent | components/modules.tsx:210-217 | adding the same episode to the same playlist twice gives what adding it once gives |
| PlaylistBundler.SelectedName | components/modules.tsx:219 | the recorded name is that of the first playlist with the selected id, as `find` returns it, and empty when there is none |
| PlaylistBundler.Submit | components/modules.tsx:206-222 | an empty selection or episode id changes nothing; otherwise the playlists are updated, the bundling is recorded with the selected playlist's name, and the input is cleared |
| PlaylistBundler.BundleIntoFirstCycle | components/modules.tsx:183-188 | bundling `Ep56_CivicTech` into the first cycle appends it there and leaves the other playlists as they were |
| QrOverlay.TargetUrl | components/modules.tsx:290-299 | the three fixed destinations give `https://example.com/<page>/ep<n>`, `custom` gives the custom URL, and any other name gives the empty string |
| QrOverlay.FixedTargetsDistinct | components/modules.tsx:290-299 | two fixed-destination configurations share a URL only if they have the same destination and episode |
| QrOverlay.SubmitQr | components/modules.tsx:307-318 | a request is withheld if and only if the destination is `custom` with an empty URL; then only the error is set, to the fixed text; otherwise the error and old image are cleared, loading starts and the target URL is requested |
| QrOverlay.RequestedUrlNonEmpty | components/modules.tsx:307-319 | a sent request for a known destination never asks for an empty URL |
| StatChart.Kept | components/modules.tsx:987-988 | the positions `filter` keeps: strictly increasing, each one kept, and every kept position among them |
| StatChart.KeptAll | components/modules.tsx:987-988 | when every position is kept, the kept positions are `0, 1, …` in order |
| StatChart.DropEmpty | components/modules.tsx:987 | `filter(Boolean)` on texts: the result is the non-empty texts, in their original order |
| StatChart.NonBlankTrimmed | components/modules.tsx:987 | label `k` is the trim of the `k`-th non-blank piece, in order; no label is empty or starts or ends with whitespace |
| StatChart.NonBlankTrimmedAll | components/modules.tsx:987 | when no piece is blank, label `i` is piece `i` trimmed, one per piece |
| StatChart.ParsedNumbers | components/modules.tsx:988 | value `k` is the number `parseFloat` gives for the `k`-th piece that parses, in order; NaNs are dropped |
| StatChart.ParsedNumbersAll | components/modules.tsx:988 | when every piece parses, value `i` is piece `i`'s number, one per piece |
| StatChart.Labels | components/modules.tsx:987 | the labels are the trimmed non-blank comma pieces of the label text, in order, none holding a comma |
| StatChart.Values | components/modules.tsx:988 | the values are the numbers of the comma pieces of the value text that parse, in order |
| StatChart.ParseChart | components/modules.tsx:987-1008 | no labels and no values give no error and no data; differing counts give the mismatch error and no data; otherwise datum `i` pairs label `i` with value `i` and colour `i mod 6` |
| StatChart.ErrorIffMismatch | components/modules.tsx:990-1000 | the error is set if and only if the counts differ, and data is drawn only without an error |
| StatChart.DataShape | components/modules.tsx:987-1008 | every drawn datum has a non-empty label not starting with whitespace and a palette colour |
| StatChart.PaletteCycles | components/modules.tsx:1003-1007 | data coloured by position modulo six repeat their colour six data later |
| StatChart.ColorsCycle | components/modules.tsx:1003-1007 | colours repeat exactly every six data |
| StatChart.WellFormedInput | components/modules.tsx:987-1008 | equally many non-blank labels and numeric values are drawn piece by piece |
| SubtitleSync.NextTime | components/modules.tsx:1118-1123 | one tick never takes the clock past the end and keeps a clock inside the recording inside it; before the end it adds one tick, at the end it loops to 0 |
| SubtitleSync.TicksStayInRange | components/modules.tsx:1118-1123 | a clock within the recording stays within `[0, 200]` for any number of ticks |
| SubtitleSync.TicksFromZero | components/modules.tsx:1118-1123 | from 0, after `n` ticks the clock reads `n mod 201` |
| SubtitleSync.WrapsFromZero | components/modules.tsx:1118-1123 | from 0, after `n` ticks the clock has looped `n div 201` times |
| SubtitleSync.TicksBeforeLoop | components/modules.tsx:1118-1123 | for up to 200 ticks from 0 the clock reads the number of ticks |
| SubtitleSync.FullLoops | components/modules.tsx:1118-1123 | after `k` times 201 ticks from 0 the clock is back at 0 having looped exactly `k` times |
| SubtitleSync.Timeline.constructor | components/modules.tsx:1084-1086 | the clock starts at 0, neither syncing nor synced, with no interval |
| SubtitleSync.Timeline.Sync | components/modules.tsx:1104-1108 | a sync resets the clock to 0, marks a sync pending and clears the interval |
| SubtitleSync.Timeline.SettleAsWritten | components/modules.tsx:1109-1112 | completion sets the synced flag, but the interval is armed only if the flag was false before (the effect depends only on that flag) |
| SubtitleSync.Timeline.Settle | components/modules.tsx:1109-1124 | corrected completion: the interval is armed on every completed sync |
| SubtitleSync.Timeline.Tick | components/modules.tsx:1117-1124 | an armed interval advances the clock by one tick, looping at the end; an unarmed one changes nothing; the clock stays within the recording |
| SubtitleSync.ResyncAsWritten | components/modules.tsx:1104-1129 | as written, a second sync leaves the clock frozen at 0 with no interval |
| SubtitleSync.Resync | components/modules.tsx:1104-1129 | with corrected completion the clock runs again after a second sync |
| SubtitleSync.ActiveCaption | components/modules.tsx:1131-1133 | the shown caption is the first one covering the moment, half-open; none is shown if and only if no caption covers it |
| SubtitleSync.AtMostOneCovers | components/modules.tsx:1071-1077 | in sorted, disjoint captions at most one caption covers any moment |
| SubtitleSync.ActiveCaptionIsCovering | components/modules.tsx:1131-1133 | in sorted, disjoint captions the shown caption is the one covering the moment |
| SubtitleSync.MockCaptionsSortedDisjoint | components/modules.tsx:1071-1078 | the mock captions are sorted, disjoint, of positive length and within the recording |
| SubtitleSync.MockCaptionLookups | components/modules.tsx:1071-1077 | the first caption shows for the first 4 s; none shows at 4.2 s or at 20 s |
| OutreachService.SendToChannel | services/outreachService.ts:14-26 | the report names its channel; it fails if and only if the channel is Email and the draw times out, with the SMTP message; otherwise it succeeds naming the channel |
| OutreachService.Reports | services/outreachService.ts:35-38 | one report per channel, report `i` being the send to channel `i` |
| OutreachService.DiasporaBroadcast | services/outreachService.ts:28-41 | the progress calls are exactly one report per channel, in the payload's order, none for no channels |
| OutreachService.ReportsFollowChannels | services/outreachService.ts:35-38 | whatever the draws, the reports name the channels in order: a failure does not stop later sends |
| OutreachService.NoEmailNoFailure | services/outreachService.ts:19-22 | without Email every channel reports success with its message |
| DiasporaBroadcast.SelectedChannels | components/modules.tsx:528-554 | a channel is selected if and only if it is one of the three and checked; selected channels keep declaration order |
| DiasporaBroadcast.NothingSelected | components/modules.tsx:554-555 | nothing is selected if and only if no box is checked |
| DiasporaBroadcast.InitialSelection | components/modules.tsx:528 | the initial choice selects WhatsApp, then Email |
| DiasporaBroadcast.SubmitBroadcast | components/modules.tsx:552-568 | with nothing selected no broadcast starts and the log is untouched; otherwise the log becomes the reports for the selected channels |
| SponsorService.LinkRows | services/sponsorService.ts:34-43 | length, ids, names and order are kept; every row with the id is onboarded and linked, whatever it was before; every other row is unchanged |
| SponsorService.LinkRowsIdempotent | services/sponsorService.ts:34-43 | linking the same sponsor to the same episode twice gives what linking once gives |
| SponsorService.LinkRowsUnknownId | services/sponsorService.ts:34-43 | an id no row has leaves the table unchanged |
| SponsorService.SponsorStore.constructor | services/sponsorService.ts:9-15 | the store starts with the five fixture sponsors |
| SponsorService.SponsorStore.GetSponsors | services/sponsorService.ts:18-22 | returns the current table and changes nothing |
| SponsorService.SponsorStore.Link | services/sponsorService.ts:25-47 | episode `0` fails with the invalid-number message and keeps the table; any other links the sponsor to `Ep<n>` and returns the whole new table |
| SponsorService.LinkTwice | services/sponsorService.ts:9-47 | on the fixture, linking `sp_02` to 57 onboards it with `Ep57` and keeps the other rows, a repeat returns the same table, and episode `0` is rejected |
| VaultService.Hyphenate | services/vaultService.ts:39 | the result has no whitespace, and each of its characters is a hyphen or from the input |
| VaultService.HyphenateNoSpace | services/vaultService.ts:39 | text without whitespace is unchanged |
| VaultService.HyphenateRun | services/vaultService.ts:39 | a whitespace-free word, a whitespace run of any length and text not starting with whitespace: the run becomes one hyphen |
| VaultService.SlugRun | services/vaultService.ts:39 | the same for the slug: the word lower-cased, then one hyphen, then the slug of the rest |
| VaultService.Slug | services/vaultService.ts:39 | the theme's path segment has no whitespace and no capital letters |
| VaultService.SlugIdempotent | services/vaultService.ts:39 | a slug is its own slug |
| VaultService.CivicTechSlug | services/vaultService.ts:39 | `Civic Tech` is archived under `civic-tech` |
| VaultService.DatePart | services/vaultService.ts:39 | `split('T')[0]` of the timestamp: a prefix of it with no `T`, followed by a `T` unless it is the whole timestamp |
| VaultService.VaultPath | services/vaultService.ts:39 | the path starts with `/vault/` followed by the slug, then `/`, the timestamp's date part, `/GN-Ep`, the episode number and `.zip.aes` |
| VaultService.VaultPathSegments | services/vaultService.ts:39 | splitting the path on `/` gives back the empty root, `vault`, the slug, the date part and the file name `GN-Ep<episode>.zip.aes`, when theme, timestamp and episode hold no `/` |
| VaultService.VaultPathJoined | services/vaultService.ts:39 | the path is exactly those five segments joined with `/` |
| VaultService.SlugNoSlash | services/vaultService.ts:39 | lower-casing and hyphenating bring no `/` into the slug |
| VaultService.VaultPathSpaceFree | services/vaultService.ts:39 | the path has no whitespace unless the timestamp or the episode number brought some |
| VaultService.ConfirmationId | services/vaultService.ts:38 | the id starts with `VAULT-CONF-`, then the clock's digits and a hyphen, and holds no lower-case ASCII letter |
| VaultService.ConfirmationIdClock | services/vaultService.ts:38 | the digits between the prefix and the next hyphen read back as the clock value |
| VaultService.ArchiveToVault | services/vaultService.ts:16-53 | the log is the fixed progress sequence; it fails if and only if the episode is `0`, with the rejection message; on success the result carries the confirmation id, the vault path and the one timestamp |
| VaultService.ArchiveLogShape | services/vaultService.ts:23-52 | every archival starts with the connection line; a rejected one has two lines ending with the failure line; an accepted one has four ending with the commit line |
| VaultService.ProgressLinesNotFailed | services/vaultService.ts:23-41 | no progress line contains `FAILED` |
| VaultService.FailureLineFailed | services/vaultService.ts:50 | a failure line contains `FAILED` |
| VaultService.FailedLinesColoured | components/modules.tsx:714 | a log line is coloured as an error if and only if it is the second line of a rejected archival |

## Left out

- JSX, CSS classes, the dashboard and modal wiring, and the application context. The active episode is passed in as a value.
- Timers and delays (`setTimeout`, `setInterval`, the fixed and random sleeps). Awaited steps and interval firings become discrete, sequential steps, and each handler is modelled once its awaited work has settled. The transient `uploading`, `isBroadcasting` and `isArchiving` flags are therefore not modelled. The QR form's `isLoading` is kept, as the `loading` field its submit sets.
- The clock counts exact deciseconds. The code accumulates `prevTime + 0.1` in binary floating point, so after many ticks its value drifts from a multiple of 0.1. That drift can change which caption, if any, is shown near a boundary, and whether the end test fires on the 200th or the 201st tick.
- The QR service call (`fetch`), its response and its error path. The model stops at the request the form makes. Resetting the image on input change is not modelled.
- The Gemini service and the clipboard: foreign calls.
- Bar and pie geometry: floating-point trigonometry.
- Keyword highlighting: it builds a regular expression from user text, so its behaviour depends on the regex engine.
- `console.log` calls.
- The form effects that prefill the episode number or playlist entry from the active episode, and the archive form's own submit handler. They are not part of the modelled logic.
- `Math.random()` and `Date.now()`/`new Date().toISOString()` are parameters, so the model does not constrain the suffix to seven base-36 digits or the timestamp to ISO form.
- JsText.Lower: ASCII letters only; JavaScript's `toLowerCase` maps all Unicode letters. For the upload rule the outcome is the same: the only non-ASCII character that lower-cases to a string holding one of `f`, `a`, `i`, `l` is the dotted capital I, which gives `i` followed by a combining dot, so it cannot be followed directly by `l`.
- JsText.Upper: ASCII letters only, for the same reason. The suffix it is applied to is base-36 and so ASCII anyway.
- JsText.ParseFloat: values are exact reals; JavaScript rounds to the nearest double and overflows very large literals to `Infinity`, and `-0` is not distinguished from `0`.
- JsText.NatToString: plain decimal digits for every `n`; JavaScript writes numbers from 10^21 up in exponent form, and integers beyond 2^53 are not represented exactly.
- JsText.ParseInt: values are exact integers; JavaScript rounds digit strings beyond 2^53 to the nearest double. The optional radix argument is not modelled, because the source never passes one.
- YoutubeService.Upload: the uploaded file is reduced to its name, which is all the rule reads.

## Findings

| source | as written | input that shows it | evidently intended | confidence | as-written member | corrected member |
|---|---|---|---|---|---|---|
| components/modules.tsx:1104-1129 | `handleSync` clears the running interval, but the interval is re-armed only by an effect that depends on `isSynced` alone, and a completed sync that finds `isSynced` already true does not change it | press Sync, let it complete, press Sync again: the clock is reset to 0 and never advances again | every completed sync restarts the clock from 0 | not executed | SubtitleSync.ResyncAsWritten | SubtitleSync.Resync |
