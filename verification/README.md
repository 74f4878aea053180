# Verified models of the core algorithms

This project models the self-contained algorithms and small state machines of the repository in
Dafny and proves what they promise, for all inputs and over all runs. `dafny verify dfyconfig.toml`
checks all of it.

| module | models | main results |
|---|---|---|
| `PairNotify`, `PairNotifyRuns`, `PairNotifyLaws` | the pairing notifier's state file, its poll and its commands | no double delivery, one-shots fire in one poll and only for requests from their arming on, distinct keys, exact `changed` |
| `Calendar`, `ReleaseCheck`, `ReleaseProblems` | dates after section 21.4.1 of ECMA-262 and the CalVer release gate | accepted versions, tags and distances, and each reported problem, both directions |
| `ImportGraph`, `ImportMeaning`, `IsolatedCopy`, `IsolatedCopyLosses` | the import worklist, the common ancestor and the isolated copy | which file an import means, exact closure, exact ancestor condition, the copy keeps exactly the tame imports |
| `QrImage` | the rasteriser loops over a flat RGBA buffer | the buffer is the scaled matrix, pixel by pixel |
| `Utf16` | surrogate-safe slicing | the slice is what a walk over code points keeps |
| `SortedText`, `PhoneControl`, `PhoneControlRuns` | temporary allow and deny lists with an undo record | disarming and expiry, at its time, restore the lists before the last arming, and earlier ones exactly when |
| `ShellSplit` | the quote and escape automaton | splitting inverts writing arguments bare or quoted, and splits concatenations |
| `ThreadOwnership` | the mention cache and the claim protocol of several agents | the cache is the live mentions, one agent per thread, exactly when |
| `MarkedBlock` | replacing the lines between two markers | the text around is kept; last write wins, exactly when |
| `LabelBatches` | paging and batching of open issues | the batches are the first items of the listing, in batches of 500 |
| `SetupCode` | the unpadded base64url setup code | six bits a symbol; decoding and encoding are inverse |
| `SparkleBuild`, `Appcast`, `AppcastMeaning` | build numbers of CalVer versions and the feed check | an order embedding, order-free errors, which errors and what acceptance guarantees |
| `CronUsage`, `CronUsageMeaning`, `CronUsageTotals` | adding up usage by job and model | which lines count, the sums in plain numbers, grouping, conservation and independence of order, exactly when |
| `Text`, `Sequences` | text, numbers and lists of the runtime | |

Strings are sequences of characters (of UTF-16 code units in `Utf16`). Numbers are integers or
reals; where an unbounded digit string is read, the result is rounded to a double (`Text.ToDouble`).
Classes and loops stand where the program updates objects and variables: such a method is tied to a
function or relation on values, and the lemmas are about that.

Where a promise does not hold as one would first state it, the exact condition is proved, with an
input on which it fails:

* A request id that is blank after trimming is not remembered by the state file and is delivered
  again at once (`BlankIdIsDeliveredTwice`); for all other ids `DeliveredOnce` holds. A request id
  that every object inherits, such as `constructor`, counts as seen and is not sent
  (`InheritedIsNeverSent`).
* Subscriber keys stay distinct for targets whose account and thread survive trimming
  (`KeysStayDistinct`); every other target can be stored twice (`UnstableTargetIsStoredTwice`). Two
  chats can share a key exactly when one continues the other after its bars (`ChatsShareKeyIff`,
  `BarIsAmbiguous`), and then the second is not stored (`SecondChatIsDropped`).
* `Date.UTC` reads the years 0 to 99 as 1900 to 1999, so dates of those years are refused, and the
  day distance is moved for them (`DistanceIsDayDifferenceIff`, `DistanceAcrossCentury`).
* A beta number is read into a double: the number read is the written one exactly when that has at
  most 53 significant bits (`ParsedFieldsIff`, `BetaAboveExactLimit`), and one that overflows is
  refused (`ParseReleaseVersionIff`).
* `resolveCommonAncestor` does not see a relative path that is a bare `..`, so a later path that is a
  proper ancestor of the first can be missed (`ParentIsMissed`); `CommonAncestorCorrect` gives the
  exact inputs on which it is right, and `FilesAreBelowRoot` shows that the copy only uses such inputs.
* An import that climbs above the copied root and comes back, or that names the root itself, can
  change meaning in the copy (`ClimbingImportIsLost`, `RootImportIsLost`); `ImportKeptIff` gives the
  exact imports that keep theirs.
* Arming twice and disarming once restores the first lists exactly when the first arming had no
  effect (`RearmedListsIff`, `RearmingLeavesGroupAllowed`).
* Quoted empty arguments are lost by the splitter (`QuotingRoundTripIff`, `EmptyArgumentIsLost`).
* Replacing a block twice differs from replacing it once when the end marker occurs in the start
  marker or in an indented line (`LastWriteWinsIff`, `LastWriteLoses`).
* Two agents with one id, and every agent without one has the id `unknown`, can both send to a
  thread (`OneAgentIff`, `SharedIdBothSend`). A mention in one channel silences a thread of another
  exactly when one channel continues the other with a colon (`ChannelSilencesIff`, `ColonIsSilenced`);
  apart from that the cache is about threads (`CachedIffThreadIsLive`).
* The usage report looks jobs and models up in plain objects. A line with an inherited job id makes
  it throw (`InheritedJobThrows`), one with an inherited model is counted for its job and for no
  model (`ModelsAddUpIff`, `ConstructorIsLost`), and one with the model `__proto__` leaves NaN
  properties on every object, after which other lines throw or count differently
  (`OrderDoesNotMatter`, `MovesFreelyIff`, `OrderNeverMattersIff`).

## Model

| member | source | states |
|---|---|---|
| PairNotify.RereadSubscriber | extensions/device-pair/notify.ts:90-121 | one stored subscriber read back: dropped without a target, else trimmed and otherwise unchanged |
| PairNotify.WriteThenRead | extensions/device-pair/notify.ts:81-150 | a written state read back has trimmed targets and exactly the marks of ids that are neither blank nor `__proto__`, with positive times |
| PairNotify.ResolveNotifyTarget | extensions/device-pair/notify.ts:166-182 | the target is the first of sender, from and to that is not blank, trimmed, with the account unless it is empty and the thread; it is missing exactly when all three are blank |
| PairNotify.FindKey | extensions/device-pair/notify.ts:190-190 | the first position with the key, or the length of the list |
| PairNotify.PairNotifier.constructor | extensions/device-pair/notify.ts:137-144 | the notifier starts without a state file |
| PairNotify.PairNotifier.Prune | extensions/device-pair/notify.ts:292-297 | the loop keeps exactly the marks of pending requests of at most 24 hours, and flags a change exactly when it drops one |
| PairNotify.PairNotifier.Offer | extensions/device-pair/notify.ts:307-321 | the inner loop sends to the due subscribers and reports delivery and the one-shot keys reached |
| PairNotify.PairNotifier.Deliver | extensions/device-pair/notify.ts:300-327 | the outer loop marks what was delivered and skips what is marked |
| PairNotify.PairNotifier.NotifyPending | extensions/device-pair/notify.ts:281-342 | a whole poll: its sends and the new state file, rewritten only when the state changed |
| PairNotify.PairNotifier.RemoveKeys | extensions/device-pair/notify.ts:330-332 | the filter drops exactly the subscribers with a given key and keeps the order |
| PairNotify.PairNotifier.FindIndex | extensions/device-pair/notify.ts:417-419 | findIndex: the first position with the key, or -1 |
| PairNotify.PairNotifier.Upsert | extensions/device-pair/notify.ts:184-206 | appends, replaces or leaves a subscriber, and says whether it did; what is stored has the time of the call (`PairNotifyLaws.CommandStores`) |
| PairNotify.PairNotifier.HandleCommand | extensions/device-pair/notify.ts:364-437 | on, off and once: the new state file, written only when the list changed |
| PairNotifyRuns.PollSends | extensions/device-pair/notify.ts:300-322 | a poll sends exactly the due pairs of request and subscriber, each once |
| PairNotifyRuns.OneShotGetsNewRequests | extensions/device-pair/notify.ts:237-250 | whatever is sent to a one-shot subscriber is from the stored time on, which `PairNotifyLaws.SubscriberIsSent` ties to the time of the arming |
| PairNotifyRuns.PollRemovesReachedKeys | extensions/device-pair/notify.ts:328-336 | a poll removes exactly the subscribers whose key is that of a one-shot some send reached, and keeps the order of the others |
| PairNotifyRuns.ReachedKeyIsReachedOneShot | extensions/device-pair/notify.ts:328-336 | with distinct keys those are exactly the reached one-shots, never a persistent subscriber |
| PairNotifyRuns.InheritedIsNeverSent | extensions/device-pair/notify.ts:300-305 | a request whose id is an inherited name is sent only if the file has a mark for it |
| PairNotifyRuns.DeliveredIsMarked | extensions/device-pair/notify.ts:302-326 | a delivered request is marked with the time of the poll and had no fresh mark before |
| PairNotifyRuns.ChangedIsExact | extensions/device-pair/notify.ts:290-341 | a poll's `changed` flag is set if and only if the state differs from what was read |
| PairNotifyRuns.CommandChangedIsExact | extensions/device-pair/notify.ts:368-424 | a command writes the file if and only if the state differs |
| PairNotifyRuns.CommandEffect | extensions/device-pair/notify.ts:405-437 | whatever the list, off removes one subscriber with the key if there is one, on and once add one if there is none and leave one in the mode asked for, and the subscribers with other keys keep their number and order |
| PairNotifyLaws.StoredSubscriber | extensions/device-pair/notify.ts:90-121 | a stored entry is a subscriber exactly when it is an object with a chat that is not blank; its texts are trimmed, its numbers whole, it is a one-shot only when it says so, and one without a time counts as added now |
| PairNotifyLaws.StoredMarks | extensions/device-pair/notify.ts:123-132 | a stored mark is read exactly when its id is not blank and its time positive, and its time is cut to a whole number |
| PairNotifyLaws.PollSendsNews | extensions/device-pair/notify.ts:292-327 | a poll sends, once each, exactly the requests that are news to it to the subscribers that want them: persistent ones any request, a one-shot those with a time of at least 1 and at least its own |
| PairNotifyLaws.PollMarks | extensions/device-pair/notify.ts:292-327 | after a poll a request is marked with its time when it was news and got through, and other marks stay exactly while their request is pending and they are at most 24 hours old |
| PairNotifyLaws.CommandStores | extensions/device-pair/notify.ts:184-206 | on and once store the target with the mode and the time of the command, unless some subscriber with the key has the mode |
| PairNotifyLaws.RepeatChangesNothing | extensions/device-pair/notify.ts:200-203 | with distinct keys repeating a command changes nothing, not even the time |
| PairNotifyLaws.SubscriptionHolds | extensions/device-pair/notify.ts:184-206 | over runs a subscription that took effect is in force until a command for its key or a send to a one-shot with it |
| PairNotifyLaws.SubscriberIsSent | extensions/device-pair/notify.ts:237-327 | over runs, after on or once at time t for a target that survives trimming, undisturbed since, a poll sends the subscriber exactly the requests that are news to it, for once only those from t on |
| PairNotifyLaws.OldRequestWaits | extensions/device-pair/notify.ts:237-250 | in particular a request from before the arming is not sent to the one-shot |
| PairNotifyRuns.ReadIsNormal | extensions/device-pair/notify.ts:89-121 | whatever the file holds, every subscriber read has a non-empty trimmed target that rereading does not change |
| PairNotifyRuns.MarkStays | extensions/device-pair/notify.ts:292-305 | a mark stays, and its request is not delivered, until a poll finds the request gone or the mark too old |
| PairNotifyRuns.DeliveredOnce | extensions/device-pair/notify.ts:281-342 | over every run two polls deliver the same request only if it left the list in between or more than 24 hours passed |
| PairNotifyRuns.BlankIdIsDeliveredTwice | extensions/device-pair/notify.ts:124-127 | every blank request id is delivered by two polls a millisecond apart |
| PairNotifyRuns.OneShotFiresOnce | extensions/device-pair/notify.ts:318-336 | after a send to a one-shot subscription, its chat is sent nothing more until subscribed again |
| PairNotifyRuns.KeyStableIff | extensions/device-pair/notify.ts:99-108 | a target keeps its key through the file exactly when its account and thread are trimmed |
| PairNotifyRuns.KeysStayDistinct | extensions/device-pair/notify.ts:184-206 | in every state reached from the empty file with stable targets, keys are pairwise distinct |
| PairNotifyRuns.UnstableTargetIsStoredTwice | extensions/device-pair/notify.ts:152-158 | every other target, switched on twice, is stored twice under one key |
| PairNotifyRuns.ChatsShareKeyIff | extensions/device-pair/notify.ts:152-158 | with some threads two chats have one key exactly when the chat and account of one, each followed by a bar, continue those of the other |
| PairNotifyRuns.PlainKeyInjective | extensions/device-pair/notify.ts:152-158 | without bars in chat and account the key tells chats, accounts and threads apart |
| PairNotifyRuns.SecondChatIsDropped | extensions/device-pair/notify.ts:184-206 | switching on a chat whose key is that of a stored one changes nothing, whichever chat that was |
| PairNotifyRuns.BarIsAmbiguous | extensions/device-pair/notify.ts:152-158 | the chat `a|b` and the thread `|` of chat `a` with account `b` are two such chats |
| Calendar.YearLength | scripts/openclaw-npm-release-check.ts:80-80 | consecutive years start 365 or 366 days apart, by the leap year rule |
| Calendar.UsualMonths | scripts/openclaw-npm-release-check.ts:80-84 | the months follow each other after 31, 30, 29 or 28 days, by the leap year rule |
| Calendar.Epoch | scripts/openclaw-npm-release-check.ts:80-80 | time 0 is the first of January 1970, and the next day is 86400000 milliseconds later |
| Calendar.DayOfDate | scripts/openclaw-npm-release-check.ts:80-84 | every valid date is read back from its own day number |
| Calendar.DateOfDay | scripts/openclaw-npm-release-check.ts:82-84 | every day number is that of its own, valid date |
| Calendar.RoundTripsIff | scripts/openclaw-npm-release-check.ts:80-87 | the Date.UTC round trip holds exactly for dates of the Gregorian calendar outside the years 0 to 99 |
| Calendar.VersionDatesAreTimeValues | scripts/openclaw-npm-release-check.ts:80-80 | for the years, months and days a version can name Date.UTC stays in the range of time values |
| Calendar.StartOfDayShift | scripts/openclaw-npm-release-check.ts:162-164 | the start of a UTC day drops the time of day, and moves only the years 0 to 99 |
| Calendar.StartOfDayIsTimeValue | scripts/openclaw-npm-release-check.ts:162-164 | the start of the day of a time value is a time value |
| Calendar.DistanceIsDayDifferenceIff | scripts/openclaw-npm-release-check.ts:166-168 | the distance is the difference of day numbers exactly when the years 0 to 99 do not disturb it |
| Calendar.DistanceOutsideFirstCentury | scripts/openclaw-npm-release-check.ts:162-168 | outside those years the distance is the absolute difference of day numbers, whatever the time of day |
| Calendar.DistanceAcrossCentury | scripts/openclaw-npm-release-check.ts:162-168 | the neighbouring days around the start of the year 100 are taken for 693959 days apart |
| ReleaseCheck.MatchIff | scripts/openclaw-npm-release-check.ts:36-39 | each of the three version patterns has at most one reading of a text, and finds it |
| ReleaseCheck.ParseReleaseVersionIff | scripts/openclaw-npm-release-check.ts:55-117 | accepts exactly the trimmed canonical YYYY.M.D and YYYY.M.D-beta.N of existing dates from the year 100 on, with their fields and date |
| ReleaseCheck.ParsedFieldsIff | scripts/openclaw-npm-release-check.ts:55-97 | year, month and day read are those written, and the beta number exactly when it is missing or has at most 53 significant bits |
| ReleaseCheck.PrintParsed | scripts/openclaw-npm-release-check.ts:55-97 | with a beta number below 2^53, or none, printing the parsed fields gives the trimmed version back |
| ReleaseCheck.BetaAboveExactLimit | scripts/openclaw-npm-release-check.ts:60-97 | the beta number 2^53 + 1 is accepted, read as 2^53, and does not print back |
| Text.ValPush | scripts/openclaw-npm-release-check.ts:60-63 | digits are read in base ten |
| Text.OverflowsIff | scripts/openclaw-npm-release-check.ts:63-78 | a number overflows exactly from (2^54 - 1) * 2^970 on |
| ReleaseCheck.TagNamesRelease | scripts/openclaw-npm-release-check.ts:119-160 | a tag version belongs to a release exactly when it is its text or, for a stable one, that text and -N with N at least 1 |
| ReleaseCheck.CollectReleaseTagErrors | scripts/openclaw-npm-release-check.ts:211-283 | every problem is reported exactly when it is there, once and in order, and none exactly when the texts, the date and the commit pass |
| ReleaseCheck.GateMeaning | scripts/openclaw-npm-release-check.ts:211-266 | no errors exactly when the tag is a v and a text naming the package version, and the date is at most two days away |
| ReleaseProblems.VersionParsesIff | scripts/openclaw-npm-release-check.ts:100-117 | a package version parses exactly when it is the text of a release, up to white space around it |
| ReleaseProblems.TagParsesIff | scripts/openclaw-npm-release-check.ts:119-160 | a tag text parses exactly when it is one that a tag of some release may carry |
| ReleaseProblems.TagFields | scripts/openclaw-npm-release-check.ts:119-160 | what is read from it: itself, the release, the channel, the date, and a correction number exactly when there is something behind the release |
| ReleaseProblems.ProblemsAre | scripts/openclaw-npm-release-check.ts:211-283 | which of the problems are reported, in terms of the two texts: no release, a tag without its v, a tag of none or of another release, a release more than two days away with how many, and a commit that is missing |
| ReleaseCheck.GateDistance | scripts/openclaw-npm-release-check.ts:257-266 | for an accepted version the gate's distance is the number of calendar days to the present exactly when that is outside the years 0 to 99 or half its shift before the release |
| ImportGraph.FirstFileMeaning | scripts/load-channel-config-surface.ts:92-101 | an import resolves to the first candidate that is a file |
| ImportMeaning.BelowSpecifier | scripts/load-channel-config-surface.ts:93-95 | a specifier `./x/y` points below the importing file's directory |
| ImportMeaning.AboveSpecifier | scripts/load-channel-config-surface.ts:93-95 | every leading `..` takes one directory off it first, down to the root |
| ImportMeaning.IdleSegments | scripts/load-channel-config-surface.ts:93-95 | anywhere in a specifier empty segments, dots, and a name with `..` behind it do nothing |
| ImportMeaning.ImportWithExtension | scripts/load-channel-config-surface.ts:75-101 | an import with an extension means the first file among the path itself and the paths with .ts, .tsx, .mts, .cts, .js, .jsx, .mjs and .cjs in its place |
| ImportMeaning.ImportWithoutExtension | scripts/load-channel-config-surface.ts:75-101 | an import without one means the first file among the path itself and, for these extensions in order, the path with the extension and the index file in the directory |
| ImportMeaning.JsMeansTs | scripts/load-channel-config-surface.ts:75-101 | `./x.js` means x.ts when there is no x.js |
| ImportMeaning.FollowedIff | scripts/load-channel-config-surface.ts:117-126 | a file of the graph leads to another exactly by a specifier that begins with a dot and means it |
| ImportMeaning.JsImportIsReached | scripts/load-channel-config-surface.ts:103-130 | the graph of a module that imports `./x.js` has x.ts in it when there is no x.js |
| ImportGraph.PushImports | scripts/load-channel-config-surface.ts:117-126 | the inner loop pushes exactly what the relative specifiers resolve to |
| ImportGraph.CollectRelativeImportGraph | scripts/load-channel-config-surface.ts:103-130 | ends on every finite file set and returns exactly the files reachable from the entry, each once; it fails only on a missing entry |
| ImportGraph.ClimbTo | scripts/load-channel-config-surface.ts:140-146 | the inner loop climbs to the shared part, or to one segment below a path that is itself an ancestor |
| ImportGraph.ResolveCommonAncestor | scripts/load-channel-config-surface.ts:132-149 | the nested loops keep the shortest part of the first path that any later path leaves |
| ImportGraph.CommonAncestorCorrect | scripts/load-channel-config-surface.ts:138-148 | the result is the longest common ancestor if and only if no uncut later path is a proper ancestor of the first |
| ImportGraph.ParentIsMissed | scripts/load-channel-config-surface.ts:138-148 | for a directory and its parent the result is the directory, which is no ancestor of the parent |
| IsolatedCopy.CandidatesCopied | scripts/load-channel-config-surface.ts:75-90 | the candidates of a copied base are the copies of the candidates, in order |
| IsolatedCopy.CopyPathInjective | scripts/load-channel-config-surface.ts:166-168 | distinct sources get distinct targets, all inside the isolated root |
| IsolatedCopy.TameImportCopied | scripts/load-channel-config-surface.ts:92-101 | an import that stays inside the root means the same from the copy, found or not |
| IsolatedCopy.ImportKeptIff | scripts/load-channel-config-surface.ts:75-101 | an import is kept by the copy if and only if it stays inside the root and, where it names the root, finds its index file |
| IsolatedCopyLosses.ClimbingImportIsLost | scripts/load-channel-config-surface.ts:75-101 | a file system on which an import of the graph that climbs above the root and comes back is lost |
| IsolatedCopyLosses.WorkspaceIsRoot | scripts/load-channel-config-surface.ts:132-149 | the common ancestor of a package and an index file above it is the directory above |
| IsolatedCopyLosses.RootImportIsLost | scripts/load-channel-config-surface.ts:75-90 | a file system on which an import of that directory from a package with a dotted name is lost |
| IsolatedCopy.IsolatedNameExtension | scripts/load-channel-config-surface.ts:164-164 | the directory mkdtemp makes has an extension exactly when the package name has a dot after its first character |
| IsolatedCopy.CopiedImports | scripts/load-channel-config-surface.ts:103-130 | the imports of a copied file are exactly the copies of its imports |
| IsolatedCopy.CopyPreservesGraph | scripts/load-channel-config-surface.ts:158-178 | loading the copied entry reaches exactly the copies of the original graph |
| IsolatedCopy.ResolvePackageRoot | scripts/load-channel-config-surface.ts:50-62 | the nearest directory at or above the module's that holds a package.json |
| IsolatedCopy.FilesAreBelowRoot | scripts/load-channel-config-surface.ts:158-160 | for the package root and the graph the common ancestor is the longest one, and every file is strictly below it |
| IsolatedCopy.CopyFiles | scripts/load-channel-config-surface.ts:166-171 | the loop copies every file of the graph to its target and changes nothing else |
| IsolatedCopy.CopyModuleImportGraph | scripts/load-channel-config-surface.ts:151-178 | the whole operation: the graph, the root over it and the nearest package, the copy and the copied module path, or which error; when all imports are tame the copied module reaches exactly the copies |
| QrImage.FillPixel | src/media/png-encode.ts:40-61 | writes the four bytes of a pixel, and nothing outside the row or the buffer |
| QrImage.FillModule | extensions/device-pair/qr-image.ts:42-48 | the two inner loops blacken exactly the square of a module, every write in bounds |
| QrImage.FillDark | extensions/device-pair/qr-image.ts:40-48 | one dark module adds exactly its square to the image |
| QrImage.ImageIsScaledMatrix | extensions/device-pair/qr-image.ts:31-50 | a pixel is black exactly when it is inside the margins and its module is dark |
| QrImage.Render | extensions/device-pair/qr-image.ts:29-50 | the final buffer shows the scaled matrix, pixel by pixel and row by row, opaque black or opaque white, in an image as wide as the modules and both margins times the scale |
| Utf16.WholeWalk | src/utils.ts:249-263 | the code points a walk finds wholly inside a range are a slice between adjusted bounds |
| Utf16.SliceUtf16Safe | src/utils.ts:237-264 | for any bounds, negative, swapped or inside a pair, the result is the code points wholly inside the resolved range |
| Utf16.TruncateUtf16Safe | src/utils.ts:266-272 | the result is the longest prefix of whole code points that fits the limit |
| Utf16.SliceOfEncoded | src/utils.ts:237-264 | on well-formed text the result is the encoding of exactly the scalar values wholly inside the range |
| Utf16.TruncateOfEncoded | src/utils.ts:266-272 | on well-formed text the result encodes the most scalar values that fit |
| SortedText.UniqSortedMeaning | extensions/phone-control/index.ts:39-41 | the list is strictly sorted by code units and holds exactly the non-empty trimmed values |
| SortedText.LessIsUnitOrder | extensions/phone-control/index.ts:40-40 | the order of the list is that of the UTF-16 encodings: a proper prefix first, else by the first unit that differs |
| SortedText.UniqSortedEqualIff | extensions/phone-control/index.ts:162-168 | normalised lists are equal exactly when they have the same members |
| PhoneControl.Controller.AllowCommands | extensions/phone-control/index.ts:390-400 | the arming loop adds and removes exactly the commands and records exactly what it changed |
| PhoneControl.GroupCommands | extensions/phone-control/index.ts:33-48 | the commands of each group, and that `all` has those of the three others |
| PhoneControl.Controller.Arm | extensions/phone-control/index.ts:377-415 | the new lists and the undo record, in terms of the lists before |
| PhoneControl.Controller.TakeOff | extensions/phone-control/index.ts:212-216 | the loop takes the commands off and returns exactly those that were there |
| PhoneControl.Controller.PutOn | extensions/phone-control/index.ts:217-222 | the loop puts the commands back and returns exactly those that were missing |
| PhoneControl.Controller.TakeBack | extensions/phone-control/index.ts:198-231 | the lists after undoing a record, rewritten only when they change |
| PhoneControl.Controller.DisarmNow | extensions/phone-control/index.ts:187-239 | the record is gone, the lists are taken back, and the answer names exactly what changed |
| PhoneControl.Controller.Tick | extensions/phone-control/index.ts:301-315 | a record whose expiry time is the present or earlier is disarmed, and nothing else happens |
| PhoneControlRuns.ArmedLists | extensions/phone-control/index.ts:385-405 | arming adds exactly the group to the allow list and takes exactly the group off the deny list |
| PhoneControlRuns.DisarmUndoesLastArm | extensions/phone-control/index.ts:187-239 | in every run disarming or expiry restores how each unedited command stood before the last arming |
| PhoneControlRuns.DisarmRestoresLists | extensions/phone-control/index.ts:225-231 | without outside edits both normalised lists are restored exactly |
| PhoneControlRuns.FirstVersionDisarms | extensions/phone-control/index.ts:204-223 | disarming a record of version 1 puts back on the deny list what it names and leaves the allow list |
| PhoneControlRuns.TickTakesBackIff | extensions/phone-control/index.ts:301-315 | in every run a tick after an arming leaves all as it is before the duration is over, and from then on takes the record away and restores how each unedited command stood before the arming |
| PhoneControlRuns.ExpiryRestoresLists | extensions/phone-control/index.ts:301-315 | without outside edits the lists of before the arming come back at the first tick from its end on, and until then nothing changes |
| PhoneControlRuns.TickWithoutEnd | extensions/phone-control/index.ts:302-305 | a tick without a record, or with one that has no end, changes nothing |
| PhoneControlRuns.RecordsNameOnlyGroup | extensions/phone-control/index.ts:407-415 | every record of a run names only commands of its group, or is the one the run started with |
| PhoneControlRuns.OutsideGroupUntouched | extensions/phone-control/index.ts:385-415 | no step changes how a command outside the group stands, even with outside edits, unless the record the run started with names it |
| PhoneControlRuns.RearmedCommandIff | extensions/phone-control/index.ts:187-239 | over runs, after two armings and one disarming a command stands as before the first arming exactly when the first group lacks it or it was allowed and not denied then |
| PhoneControlRuns.RearmedListsIff | extensions/phone-control/index.ts:187-239 | without outside edits both lists of before the first arming come back exactly when that arming had no effect |
| PhoneControlRuns.RearmingLeavesGroupAllowed | extensions/phone-control/index.ts:377-415 | arming any group twice from empty lists and disarming once leaves a changed allow list |
| ShellSplit.ShellSplit | extensions/tlon/index.ts:51-89 | the loop computes the arguments of the automaton, whose characters are fixed by the laws below |
| ShellSplit.SplitConcat | extensions/tlon/index.ts:58-88 | text that ends outside quotes and escapes splits on its own, before white space and more text |
| ShellSplit.QuotedArgument | extensions/tlon/index.ts:58-84 | an argument adds exactly its characters when it is written bare, between single or double quotes, or with backslashes; bare it must hold no white space, quote or backslash |
| ShellSplit.SplitInvertsQuoting | extensions/tlon/index.ts:51-89 | arguments written bare or quoted, in any mix, and joined with spaces split back into the non-empty ones |
| ShellSplit.QuotingRoundTripIff | extensions/tlon/index.ts:77-87 | the list comes back exactly when no argument is empty |
| ShellSplit.EmptyArgumentIsLost | extensions/tlon/index.ts:77-87 | a quoted empty argument, in any style, splits into nothing |
| ShellSplit.BareWord | extensions/tlon/index.ts:76-87 | a bare word is its own argument |
| ShellSplit.OpenQuote | extensions/tlon/index.ts:68-87 | a quote that is never closed reaches to the end of the text |
| ShellSplit.LastBackslash | extensions/tlon/index.ts:59-67 | a backslash at the end of the text is dropped |
| Text.SpaceIff | extensions/tlon/index.ts:76-76 | white space is the 25 characters of sections 12.2 and 12.3 of ECMA-262 |
| ThreadOwnership.Agent.constructor | extensions/thread-ownership/index.ts:12-12 | an agent starts with no mentions |
| ThreadOwnership.Agent.CleanExpiredMentions | extensions/thread-ownership/index.ts:15-22 | keeps exactly the mentions of at most five minutes |
| ThreadOwnership.Agent.MessageReceived | extensions/thread-ownership/index.ts:63-78 | records a mention in a Slack thread at the present time, after cleaning, and leaves the cache alone without a mention, a thread or a channel, and outside Slack |
| ThreadOwnership.Agent.MessageSending | extensions/thread-ownership/index.ts:80-115 | asks the forwarder exactly for an enforced thread without a live mention, and cancels exactly on a conflict |
| ThreadOwnership.CacheMeansLiveMention | extensions/thread-ownership/index.ts:63-89 | after cleaning a key is cached exactly when the latest message under it that mentions the agent, on Slack and in a thread, is at most five minutes old |
| ThreadOwnership.UnmentionedIsIgnored | extensions/thread-ownership/index.ts:71-77 | a received message that does not mention the agent changes nothing, for no agent |
| ThreadOwnership.CachedIffThreadIsLive | extensions/thread-ownership/index.ts:63-89 | a thread is cached exactly when its own latest mention is at most five minutes old, if the agent was mentioned in no channel that meets its channel |
| ThreadOwnership.SentIffOwner | extensions/thread-ownership/index.ts:91-108 | a contested message is sent exactly when its agent owns the thread afterwards |
| ThreadOwnership.OneAgentPerThread | extensions/thread-ownership/index.ts:80-108 | in every run all contested messages sent to one thread come from one agent, if the agents it is enforced for have different ids |
| ThreadOwnership.SharedIdBothSend | extensions/thread-ownership/index.ts:32-33 | any two agents with one id that the thread is enforced for both send to it in some run |
| ThreadOwnership.OneAgentIff | extensions/thread-ownership/index.ts:80-108 | one agent per thread holds in all runs if and only if the agents it is enforced for have different ids |
| ThreadOwnership.FirstContestedIsSent | extensions/thread-ownership/index.ts:91-101 | the first contested message of a thread is never cancelled |
| ThreadOwnership.RouteInjective | extensions/thread-ownership/index.ts:92-92 | the path claimed names the channel and the thread, if no channel holds a slash |
| ThreadOwnership.FirstInThreadIsSent | extensions/thread-ownership/index.ts:91-101 | so without slashes in channels the first contested message of a thread is sent whatever was claimed in others |
| ThreadOwnership.KeyInjective | extensions/thread-ownership/index.ts:76-76 | within a channel cache keys tell threads apart |
| ThreadOwnership.KeysMeetIff | extensions/thread-ownership/index.ts:76-76 | non-empty threads of two channels can have one key exactly when one channel continues the other with a colon |
| ThreadOwnership.ChannelSilencesIff | extensions/thread-ownership/index.ts:63-89 | a mention in some thread of one channel makes the agent send to some thread of another without asking exactly when the channels meet |
| ThreadOwnership.ColonIsSilenced | extensions/thread-ownership/index.ts:63-89 | after a mention in the thread `b:x` of channel `a` the agent sends to the thread `x` of channel `a:b` without asking |
| MarkedBlock.TextAroundIsKept | scripts/sync-moonshot-docs.ts:15-51 | the new text is the old one with the lines from the first start marker to the first end marker after it replaced by the joined, indented block, and a newline kept only before following text; which marker is missing otherwise |
| MarkedBlock.FinalNewlineIff | scripts/sync-moonshot-docs.ts:41-50 | the new text ends in a newline exactly when the old one does and something follows the block |
| MarkedBlock.LastWriteWinsIff | scripts/sync-moonshot-docs.ts:15-51 | replacing twice equals the last replacement if and only if the end marker is in neither the start marker nor an indented line |
| MarkedBlock.LastWriteLoses | scripts/sync-moonshot-docs.ts:15-51 | a text on which writing the end marker as a line makes the next write differ |
| LabelBatches.TakeItem | scripts/label-open-issues.ts:456-467 | one more item is kept or completes a batch |
| LabelBatches.TakePage | scripts/label-open-issues.ts:452-468 | the items of a page are taken in order, up to the limit |
| LabelBatches.ReadPages | scripts/label-open-issues.ts:441-476 | the paging loop has taken exactly what the limit allows of the fetched pages |
| LabelBatches.YieldRest | scripts/label-open-issues.ts:478-485 | the items left over form the last batch |
| LabelBatches.FetchedIsEnough | scripts/label-open-issues.ts:441-474 | stopping early misses nothing: the first items of the whole listing are those of the fetched pages |
| LabelBatches.FetchOpenLabelItemBatches | scripts/label-open-issues.ts:426-486 | the batches joined are the first items of the listing, all but the last full, numbered from 1, with cumulative counts and the total known |
| LabelBatches.ItemsAreIssues | scripts/label-open-issues.ts:417-424 | every issue listed is one item, in order, with its number, title, text and labels, and what it lacks is empty |
| LabelBatches.FirstMeaning | scripts/label-open-issues.ts:441-456 | the items let through are the first ones, all of them or just as many as reach the limit |
| LabelBatches.KnownIsLastReported | scripts/label-open-issues.ts:435-444 | the total known after some pages is the one reported last, and 0 before any is |
| LabelBatches.TotalIsOfPage | scripts/label-open-issues.ts:444-464 | the total of an item is the one known when its page had been read |
| SetupCode.StripsOnlyPadding | extensions/device-pair/index.ts:393-397 | what is stripped is exactly the base64 padding |
| SetupCode.CodeShape | extensions/device-pair/index.ts:393-397 | only A-Z, a-z, 0-9, - and _, and ceil(4n/3) of them for n bytes |
| SetupCode.CodeOf | extensions/device-pair/index.ts:393-397 | three bytes make four symbols of the URL-safe alphabet, six bits each and the first bits first, and one or two bytes at the end two or three |
| SetupCode.DecodesIff | extensions/device-pair/index.ts:393-397 | the decoder of section 5 of RFC 4648 accepts exactly the code of the bytes it returns |
| SparkleBuild.MatchIff | scripts/sparkle-build.ts:12-19 | a text has at most one reading as a CalVer version, and the pattern finds it |
| SparkleBuild.FloorsMeaning | scripts/sparkle-build.ts:38-52 | the numbers built by joining decimals are base-ten arithmetic and exact doubles |
| SparkleBuild.LaneMeaning | scripts/sparkle-build.ts:41-50 | the lane is 90 without a suffix, else its trailing number capped at 89, else 1 |
| Text.NearestMultiple | scripts/sparkle-build.ts:45-45 | the double read for a whole number is the nearest one, and the even one of two equally near |
| Text.SpacingMeaning | scripts/sparkle-build.ts:45-45 | doubles near a whole number are a power of two apart that leaves 53 bits |
| SparkleBuild.LaterDigitsDoNotMatter | scripts/sparkle-build.ts:41-50 | a trailing number that is at least 89 by its first digits has lane 89 however later digits are read |
| SparkleBuild.FloorsIff | scripts/sparkle-build.ts:14-53 | exactly the trimmed CalVer versions with month and day in range have floors, and which |
| SparkleBuild.LaneFloorEmbedsOrder | scripts/sparkle-build.ts:38-57 | the lane floor is a strict order embedding of year, month, day and lane |
| SparkleBuild.LaneFloorSize | scripts/sparkle-build.ts:38-52 | the lane floor has ten digits exactly from the year 1000 on, the legacy floor never |
| Appcast.AdoptionDateIs | scripts/release-check.ts:176-183 | the adoption date is the smaller of the built-in one and the earliest lane build's |
| Appcast.CollectItems | scripts/release-check.ts:147-174 | the first loop: the items wrong on their own and the CalVer items |
| Appcast.CollectFloorErrors | scripts/release-check.ts:185-195 | the second loop: the CalVer items below their floor |
| Appcast.CollectAppcastSparkleVersionErrors | scripts/release-check.ts:141-198 | all errors of a feed, in order |
| Appcast.ErrorsIgnoreOrder | scripts/release-check.ts:141-198 | the errors as a multiset do not depend on the order of the items |
| Appcast.AcceptedIff | scripts/release-check.ts:147-195 | a feed is accepted exactly when it has items, all builds are numeric and each CalVer build reaches its floor |
| AppcastMeaning.VersionText | scripts/sparkle-build.ts:12-35 | which texts are CalVer versions, character by character, and of which numbers |
| AppcastMeaning.AdoptionExists | scripts/release-check.ts:176-183 | the adoption date is 27 February 2026, or the date of the earliest item before that with a build of ten digits |
| AppcastMeaning.ErrorsAre | scripts/release-check.ts:147-195 | which errors a feed has: it is empty, an item has no build number, or a CalVer item has a build below the least for its date and lane, and which that is |
| AppcastMeaning.AcceptedInNumbers | scripts/release-check.ts:147-195 | a feed is accepted exactly when it has items, all have build numbers, and those of CalVer items are at least the least: date and lane from the adoption date on or with ten digits, else date and a zero |
| Appcast.AcceptedLaneBuilds | scripts/release-check.ts:176-195 | in an accepted feed an item from the year 1000 on, dated on or after the adoption date, has a build of at least 10^9 |
| CronUsage.CountsMeaning | scripts/cron_usage_report.ts:171-205 | a line is one run; it misses usage exactly when no count is given, and else adds the whole parts of its counts, with input plus output for a missing total |
| Text.InheritedIff | scripts/cron_usage_report.ts:176-193 | the names a lookup in a plain object inherits are the twelve of Object.prototype |
| CronUsageMeaning.AcceptedLine | scripts/cron_usage_report.ts:73-169 | a line counts exactly when it is a finished run with a time in the window and a job id that is not blank, of the job and the model asked for; its model is trimmed, and unknown when it is missing or blank |
| CronUsage.CountInJob | scripts/cron_usage_report.ts:185-213 | one entry added to its job and, unless its model is an inherited name, to that model in the job |
| CronUsage.CountEntry | scripts/cron_usage_report.ts:176-213 | one entry added to the totals, which still group all entries so far |
| CronUsage.CountAccepted | scripts/cron_usage_report.ts:171-213 | one accepted line: the totals after it, or a throw exactly when a lookup finds something inherited that cannot be counted on |
| CronUsage.CountLine | scripts/cron_usage_report.ts:155-213 | a line is counted or skipped |
| CronUsage.CountFile | scripts/cron_usage_report.ts:150-213 | the lines of a file, up to the first one that throws |
| CronUsage.Aggregate | scripts/cron_usage_report.ts:148-215 | the totals group the accepted lines of all files by job and model, with the sum of each group; nothing exactly when some line throws |
| CronUsageMeaning.TotalsAre | scripts/cron_usage_report.ts:148-215 | if no line counts differently, the report has a record for every job with an accepted line and in it one for every model with one that is no inherited name, each with the numbers of lines and of lines without usage and the sums of whole token counts |
| CronUsageMeaning.NextLineThrowsIff | scripts/cron_usage_report.ts:176-201 | after a line with the model `__proto__` the next one throws exactly when its job is an inherited name, or its job or its model is a name which that line left behind and is new |
| CronUsageMeaning.LeftOutIsNaN | scripts/cron_usage_report.ts:203-205 | and a token count it leaves out is not a number, if that line had counts |
| CronUsageTotals.SameTotals | scripts/cron_usage_report.ts:165-215 | the totals are determined by the counted entries, whatever their order |
| CronUsageTotals.OrderDoesNotMatter | scripts/cron_usage_report.ts:148-215 | any permutation of files and of lines inside files gives the same totals or throws as well, if no accepted model is `__proto__`, or no line counts differently after such a model, or some job id is an inherited name |
| CronUsageTotals.OrderNeverMattersIff | scripts/cron_usage_report.ts:148-215 | whatever lines of other models are added, all orders of the log have one outcome exactly when the log has no accepted model `__proto__`, or has an inherited job id |
| CronUsageTotals.MovesFreelyIff | scripts/cron_usage_report.ts:176-213 | a line may change places with every line of another model than `__proto__` exactly when its own is another too or its job is an inherited name |
| CronUsageTotals.InheritedJobThrows | scripts/cron_usage_report.ts:176-189 | an accepted line whose job id is an inherited name makes the report throw, whatever surrounds it |
| CronUsageTotals.ModelsAddUpIff | scripts/cron_usage_report.ts:176-213 | a job's runs, missing runs and tokens are the sums over its models exactly when no accepted line of it has an inherited model |
| CronUsageTotals.ConstructorIsLost | scripts/cron_usage_report.ts:185-213 | a line with the model `constructor` gives its job a run and no model |
| CronUsageTotals.RunsAddUp | scripts/cron_usage_report.ts:154-185 | whenever the report does not throw, the runs of all jobs add up to the number of accepted lines |

## Left out

- PairNotify.PairNotifier.NotifyPending: a poll is one atomic step, with any outcome for each send; races with a command on the same file are not modelled.
- PairNotify.PairNotifier.HandleCommand: the channel check, the status action and the message texts are left out; the action is already decoded.
- PairNotify.WriteThenRead: JSON parsing and printing are not modelled, and a write always succeeds.
- PairNotifyLaws.SubscriberIsSent: the target's account and thread are trimmed; what happens to others is `UnstableTargetIsStoredTwice`.
- PairNotifyRuns.PlainKeyInjective: numeric thread ids are integers written out in decimals, as the runtime does up to 2^53.
- ReleaseCheck.ParseReleaseVersionIff: parseInt is taken to round correctly beyond twenty digits, where ECMA-262 allows an approximation.
- ReleaseCheck.PrintParsed: from 2^53 on the runtime prints the fewest digits that read back to a number; this printing is not modelled, and the program prints no parsed beta number.
- ReleaseCheck.CollectReleaseTagErrors: whether git finds the commit is an input, and error messages are reduced to what they report.
- IsolatedCopy.CopyModuleImportGraph: paths are absolute POSIX segment lists; symbolic links, Windows paths and the random name of the directory are inputs or left out, and no file is a directory above another.
- IsolatedCopy.ImportKeptIff: the specifier does not spell the random name of the isolated directory.
- ImportGraph.CollectRelativeImportGraph: the specifiers of a file are given; the pattern that finds them in its text is not modelled.
- QrImage.Render: scale and margin are non-negative whole numbers; QR code generation and PNG encoding are left out.
- Utf16.SliceUtf16Safe: start and end are integers; fractions and NaN are not modelled.
- PhoneControl.Controller.Arm: the duration and group words are already parsed, the stored record is well formed, and the two readings of the clock give one time.
- ThreadOwnership.OneAgentPerThread: the forwarder answers 200 or 409 only; with any other answer the message is sent, as MessageSending states.
- ThreadOwnership.Agent.MessageReceived: whether the text mentions the agent is an input.
- MarkedBlock.TextAroundIsKept: the start marker is not empty and does not begin with a newline.
- MarkedBlock.FinalNewlineIff: the end marker is not empty and holds no newline.
- MarkedBlock.LastWriteWinsIff: the markers are not empty, the end marker holds no newline and the start marker does not begin with one.
- LabelBatches.FetchOpenLabelItemBatches: it is asked only for listings that end or reach the limit, the pages are a function of the cursor, and the log lines are left out.
- SetupCode.DecodesIff: the payload's JSON text is given as bytes.
- Appcast.CollectAppcastSparkleVersionErrors: the items and their trimmed tags are given; XML matching is left out.
- CronUsage.Aggregate: lines are given after JSON parsing, token fields are numbers, null or missing, sums are not rounded to doubles, and the sorting of the printed rows is left out.
- Text outside `Utf16` holds characters rather than code units, so lone surrogates are not modelled there.
- Provider catalogs, onboarding presets, plugin registration and remote services are constants or thin calls and would only add easy members.
