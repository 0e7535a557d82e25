# DualView slide synchronisation, modelled in Dafny

DualView lets a presenter page and controller pages in the same browser agree
on the displayed slide. This project models the core of that:

- the presenter's slide state machine (`currentSlide`, `direction`, and a
  slide count fixed by the five-entry placeholder deck), with its remote
  handlers (next, prev, goto) and its keyboard handlers;
- the control channel hook: the listener that folds `{action, slide?,
  totalSlides?}` messages into a reflection of the slide state and fires one
  callback, and the sender that posts each message on the broadcast channel,
  overwrites the `"dualview-control"` fallback slot and schedules the slot's
  removal 100 ms later;
- room creation: session-code generation from a 32-letter alphabet, the
  `.ppt`/`.pptx` file list, selection by id, and writing the single
  `"dualview-room"` session record;
- the join form: input normalisation and the local-only code check;
- the room-record read of the presenter page, with its redirect;
- the cookie storage adapter of the auth client: `getItem`, `setItem` and
  `removeItem` as string processing.

One module per source file: `ControlChannel` (control_channel.dfy),
`SlideDeck` (slide_deck.dfy), `RoomData` (room_data.dfy), `CreateRoom`
(create_room.dfy), `JoinForm` (join_form.dfy), `CookieStorage`
(cookie_storage.dfy), and `Wrappers` for `Option`. State that the source
keeps in React state cells or browser storage is a class with fields
(`Presenter`, `Listener`, `Sender`, `RoomSlot`, `RoomDataHook`,
`CreateRoomPage`, `JoinFormState`); each method is specified against a pure
function of the old state, and the properties are lemmas about those
functions.

Modelling choices:

- Time is an integer millisecond clock. `Sender.Advance(now)` fires every
  removal due by `now`; each removal empties the slot, whichever send
  scheduled it.
- `Math.random()` is a sequence of six reals in `[0, 1)`; the drawn index is
  `Floor(r * 32)` exactly as the source computes it.
- `encodeURIComponent`, `decodeURIComponent`, `Date.toUTCString` and the
  storage's `getPublicUrl` are function parameters. Each property that needs
  something of them says so in its `requires` (for example
  `decode(encode(value)) == value`).
- JSON parsing is abstract: a read of the room slot finds `Absent`,
  `Corrupt` (text that `JSON.parse` rejects) or `Json(room)`. An empty stored
  string is falsy in both readers, so it behaves as `Absent`.
- The listener is installed once with an empty dependency list, so the
  `currentSlide` its next/prev defaults read is always the first render's 1
  (`CapturedSlide`): a payload-free next always targets slide 2 and a
  payload-free prev slide 0.

Behaviours of the code that the model makes explicit:

- The code does not keep `1 <= currentSlide <= totalSlides`. The remote next
  and prev guards are one-sided and test the already-resolved target, so a
  remote next to slide 0 or a remote prev to slide 9 is accepted. Also, a
  remote next can never land on the last slide, nor a remote prev on the
  first (`SlideDeck.RemoteGuardsAreOneSided`, `SlideDeck.RemoteNeverReachesEnds`,
  `SlideDeck.PayloadMessagesCanLeaveRange`). The bound is kept by goto and
  the keyboard moves (`SlideDeck.RunKeepsRange`) and by payload-free messages
  (`SlideDeck.PayloadFreeMessagesKeepRange`).
- The presenter registers no sync callback, so a sync only changes a
  listener's reflection, never the presenter's slide.
- The hook constructs the broadcast channel unconditionally, and nothing
  shown reads the `"dualview-control"` slot, so the slot is modelled as
  write-and-clear only. Mounting does not clear it. A message whose writer
  closed before its removal ran stays there
  (`ControlChannel.LeftoverOutlivesMount`); one whose writer's timer is
  still running is removed when it fires
  (`ControlChannel.OtherPagesRemovalStillFires`).
- The join form only upper-cases and truncates its input, so `0`, `O`, `1`
  and `I` pass through although no session code contains them.
- The join form parses the stored record without a guard, so a corrupt
  record gives `ParseFailure`, the model of the thrown exception.

## Model

| member | source | states |
|---|---|---|
| `ControlChannel.Listener.constructor` | src/hooks/useControlChannel.ts:26-27 | the reflection starts at slide 1 of 10 |
| `ControlChannel.ActionOf` | src/hooks/useControlChannel.ts:49-67 | each wire tag reads as exactly one action: the five handled tags as themselves, any other tag as an unrecognised action carrying it, never a handled tag; the tag is recovered |
| `ControlChannel.ActionOfTagOf` | src/hooks/useControlChannel.ts:49-67 | every action without a handled tag in its unrecognised name is the reading of its own tag, so a message has one representation |
| `ControlChannel.Listener.HandleMessage` | src/hooks/useControlChannel.ts:45-70 | the new reflection is `Reflect` of the old one and the fired callback is `Fired` of the message, which does not depend on the reflection |
| `ControlChannel.SyncIdempotent` | src/hooks/useControlChannel.ts:49-53 | a sync overwrites each field only when it carries a non-zero value, fires `onSync` with defaults 1 and 10, and applying it twice equals applying it once |
| `ControlChannel.StaleDefaultTargets` | src/hooks/useControlChannel.ts:54-66 | without a slide payload next targets 2 and prev 0 whatever the reflection holds, and goto fires nothing and changes nothing |
| `ControlChannel.NavigationReflectsCallbackTarget` | src/hooks/useControlChannel.ts:54-66 | next, prev and a goto with a non-zero slide set the reflection to exactly the value passed to the callback, with no range check; only a goto without a non-zero slide fires nothing |
| `ControlChannel.OtherActionsKeepReflection` | src/hooks/useControlChannel.ts:67-69 | fullscreen only fires `onFullscreen`, an unknown action nothing; neither changes the reflection |
| `ControlChannel.ReplayLastWriterWins` | src/hooks/useControlChannel.ts:45-70 | after any message sequence the reflection holds the slide and total written by the last message that wrote each, or the starting values |
| `ControlChannel.Remaining` | src/hooks/useControlChannel.ts:84-86 | the removals still pending at a time are exactly those scheduled later than it, each as many times as it was scheduled; the due ones all fire |
| `ControlChannel.Earliest` | src/hooks/useControlChannel.ts:84-86 | the earliest pending removal is pending and no later than any other |
| `ControlChannel.NothingDueKeepsAll` | src/hooks/useControlChannel.ts:84-86 | before the earliest removal is due, no removal has fired |
| `ControlChannel.EarliestDueFires` | src/hooks/useControlChannel.ts:84-86 | once the earliest removal is due, at least one removal has fired |
| `ControlChannel.Sender.constructor` | src/hooks/useControlChannel.ts:29-33 | nothing posted; the slot keeps whatever it held before mounting and the removals other pages scheduled for it stay pending |
| `ControlChannel.Sender.SendControl` | src/hooks/useControlChannel.ts:81-87 | `{action, slide}` without a total is appended to the broadcast, overwrites the slot, and a removal is scheduled 100 ms later |
| `ControlChannel.Sender.Advance` | src/hooks/useControlChannel.ts:84-86 | removals due by the new time fire and empty the slot; later ones stay pending |
| `ControlChannel.FallbackDelivery` | src/hooks/useControlChannel.ts:81-87 | a sync to slide 3 is in the slot 99 ms after the send and gone at 100 ms |
| `ControlChannel.LeftoverOutlivesMount` | src/hooks/useControlChannel.ts:29-33 | a message left by a page that closed before its removal ran is still in the slot at any later time if this page sends nothing |
| `ControlChannel.OtherPagesRemovalStillFires` | src/hooks/useControlChannel.ts:83-86 | a message another page sent at 0 ms is in the slot when this page, mounted at 50 ms, looks at 99 ms, and the other page's removal empties it at 100 ms |
| `ControlChannel.OlderClearDropsNewerMessage` | src/hooks/useControlChannel.ts:83-86 | an older send's removal empties the slot holding a newer message while the newer removal is still pending |
| `SlideDeck.Presenter.constructor` | src/pages/main-page.tsx:20-23 | slide 1, direction 0, and as many slides as the placeholder deck (5) |
| `SlideDeck.Presenter.HandleNext` | src/pages/main-page.tsx:26-32 | the new state is `Next` of the old |
| `SlideDeck.Presenter.HandlePrev` | src/pages/main-page.tsx:34-40 | the new state is `Prev` of the old |
| `SlideDeck.Presenter.HandleGoToSlide` | src/pages/main-page.tsx:42-47 | the new state is `GoTo` of the old, and an in-range state stays in range |
| `SlideDeck.Presenter.HandleLocalNext` | src/pages/main-page.tsx:61-66 | the new state is `LocalNext` of the old, and an in-range state stays in range |
| `SlideDeck.Presenter.HandleLocalPrev` | src/pages/main-page.tsx:68-73 | the new state is `LocalPrev` of the old, and an in-range state stays in range |
| `SlideDeck.Presenter.OnControl` | src/pages/main-page.tsx:54-59 | each callback reaches the handler it is registered to; sync and fullscreen leave the slide state alone |
| `SlideDeck.NextOutcome` | src/pages/main-page.tsx:26-32 | next resolves to the given slide or the current one, accepts only a target below the total (then direction +1), and otherwise changes nothing |
| `SlideDeck.PrevOutcome` | src/pages/main-page.tsx:34-40 | prev accepts only a target above 1 (then direction -1), and otherwise changes nothing |
| `SlideDeck.RemoteGuardsAreOneSided` | src/pages/main-page.tsx:28-30 | from any in-range state a next to 0 or below, or back behind the current slide, is accepted with direction +1, and a prev past the last slide is accepted, leaving the range |
| `SlideDeck.RemoteNeverReachesEnds` | src/pages/main-page.tsx:28 | from any state, in range or not, an accepted remote next never lands on the last slide and an accepted remote prev never on the first |
| `SlideDeck.GoToOutcome` | src/pages/main-page.tsx:42-47 | goto accepts exactly the targets in `[1, total]` with direction +1 only when moving forward; goto(0) and goto(total+1) are no-ops; the bound is kept |
| `SlideDeck.GoToDirectionExamples` | src/pages/main-page.tsx:44 | 2 to 4 gives +1, 2 to 1 gives -1, a goto to the current slide gives -1 |
| `SlideDeck.LocalMovesStepByOne` | src/pages/main-page.tsx:61-73 | keyboard moves step by exactly one, keep the bound, and are no-ops on the last and first slide |
| `SlideDeck.LocalMovesOutOfRange` | src/pages/main-page.tsx:61-73 | from a state outside the range, next does nothing at or past the last slide and steps up below the first; prev steps down past the last slide and does nothing at or below the first |
| `SlideDeck.RunKeepsRange` | src/pages/main-page.tsx:42-73 | any sequence of gotos and keyboard moves keeps `1 <= current <= total` |
| `SlideDeck.PayloadFreeMessagesKeepRange` | src/hooks/useControlChannel.ts:54-66 | control messages without a slide payload, delivered to the presenter, keep it in range |
| `SlideDeck.PayloadMessagesCanLeaveRange` | src/pages/main-page.tsx:26-40 | from the initial state a channel next to 0 ends on slide 0 and a prev to 9 on slide 9 |
| `RoomData.RoomDataHook.constructor` | src/hooks/useRoomData.ts:18-19 | no record and loading |
| `RoomData.RoomDataHook.RunEffect` | src/hooks/useRoomData.ts:21-34 | a parsed record becomes `roomData` with no redirect; absent or corrupt values redirect to `/create-room` and leave `roomData`; loading ends in all three cases |
| `RoomData.ReadRoom` | src/hooks/useRoomData.ts:16-37 | a mounted hook has a record exactly when the slot parses, and redirects otherwise |
| `CreateRoom.DrawIndex` | src/pages/create-room-fragment.tsx:28 | `floor(random * 32)` lies in `[0, 31]` |
| `CreateRoom.DrawnCharacter` | src/pages/create-room-fragment.tsx:28 | `charAt` at a drawn index is one character, never the empty string |
| `CreateRoom.AlphabetFacts` | src/pages/create-room-fragment.tsx:25 | the alphabet has 32 characters and none of them is 0, 1, I or O |
| `CreateRoom.SessionCodeIsUnambiguous` | src/pages/create-room-fragment.tsx:25-29 | a session code contains none of 0, 1, I and O |
| `CreateRoom.GenerateSessionCode` | src/pages/create-room-fragment.tsx:24-31 | six characters from the alphabet, each the letter its draw selects |
| `CreateRoom.EveryCodeIsDrawable` | src/pages/create-room-fragment.tsx:24-31 | every six-letter code over the alphabet is produced by some draws |
| `CreateRoom.SuffixTestIsCaseSensitive` | src/pages/create-room-fragment.tsx:66 | `.ppt` and `.pptx` names pass; `.PPTX` and other names do not |
| `CreateRoom.Presentations` | src/pages/create-room-fragment.tsx:65-66 | an object is kept exactly when it is in the listing and its name ends in `.ppt` or `.pptx`, as often as it is listed |
| `CreateRoom.PresentationsAppend` | src/pages/create-room-fragment.tsx:65-66 | the filter of two listings one after the other is the filter of the first followed by the filter of the second, so listing order is kept |
| `CreateRoom.FileList` | src/pages/create-room-fragment.tsx:58-82 | an error gives no files; otherwise one entry per kept object, in order, every name a presentation |
| `CreateRoom.FindById` | src/pages/create-room-fragment.tsx:211-213 | null exactly when no file has the id; otherwise the first file with it |
| `CreateRoom.RoomForFields` | src/pages/create-room-fragment.tsx:104-109 | the record has the room code, `isHost = true`, and the selected file's url and name; each is null when empty or when nothing is selected |
| `CreateRoom.CreateRoomPage.constructor` | src/pages/create-room-fragment.tsx:36-40 | the session code the six draws select, no files, loading, nothing selected |
| `CreateRoom.CreateRoomPage.LoadFiles` | src/pages/create-room-fragment.tsx:48-89 | the file list is `FileList` of the listing, loading ends, code and selection stay |
| `CreateRoom.CreateRoomPage.SelectById` | src/pages/create-room-fragment.tsx:211-214 | the selection becomes the file found by id, or null |
| `CreateRoom.CreateRoomPage.RegenerateCode` | src/pages/create-room-fragment.tsx:114-116 | a fresh session code; nothing else changes |
| `CreateRoom.CreateRoomPage.HandleProceed` | src/pages/create-room-fragment.tsx:101-112 | the slot is replaced by the host record for the code, and the target is `/present/` followed by the same code |
| `CreateRoom.ProceedThenRead` | src/hooks/useRoomData.ts:21-34 | whatever the slot held, the presenter page then reads, without redirecting, the host record for the navigation target's code: the selected file's url and name, each null when empty or when nothing is selected |
| `JoinForm.Normalize` | src/components/fragments/join-form.tsx:87-89 | at most six characters, upper case, each the upper-cased input character at its position |
| `JoinForm.NormalizeIdempotent` | src/components/fragments/join-form.tsx:88 | normalising twice equals normalising once |
| `JoinForm.NormalizeKeepsAmbiguousCharacters` | src/components/fragments/join-form.tsx:88 | characters outside the code alphabet survive: "o0i1" becomes "O0I1"; input is cut at six |
| `JoinForm.JoinFormState.constructor` | src/components/fragments/join-form.tsx:20 | the code input starts empty |
| `JoinForm.JoinFormState.OnChange` | src/components/fragments/join-form.tsx:87-89 | the code becomes the normalised input |
| `JoinForm.JoinFormState.HandleJoin` | src/components/fragments/join-form.tsx:22-36 | nothing unless six characters; a join exactly when the stored code equals the upper-cased code, with that code; a throw on a corrupt record; the not-found alert otherwise |
| `JoinForm.JoinInAnyCase` | src/components/fragments/join-form.tsx:22-36 | typing a stored record's code in any letter case joins it |
| `JoinForm.JoinByTypedCode` | src/components/fragments/join-form.tsx:22-36 | with AB23CD stored, "ab23cd" joins as AB23CD and "ZZZZZZ" gives the not-found alert |
| `CookieStorage.Split` | src/lib/supabase.ts:20 | a split always has at least one piece |
| `CookieStorage.SplitPiecesLackSeparator` | src/lib/supabase.ts:20 | no piece of a split contains the separator |
| `CookieStorage.SplitFirstPiece` | src/lib/supabase.ts:20-21 | the first piece is the text before the first separator; after it, the remaining pieces split the rest |
| `CookieStorage.SplitSecondPiece` | src/lib/supabase.ts:21 | a second piece exists exactly when the separator occurs, and is the text between the first separator and the next one or the end |
| `CookieStorage.JoinSplit` | src/lib/supabase.ts:20 | joining the pieces of a split gives back the string |
| `CookieStorage.SplitJoin` | src/lib/supabase.ts:20 | splitting joined separator-free pieces gives back the pieces |
| `CookieStorage.TrimStartRemovesLeadingSpace` | src/lib/supabase.ts:21 | the start of `trim` removes exactly the leading white space and keeps the rest |
| `CookieStorage.TrimEndRemovesTrailingSpace` | src/lib/supabase.ts:21 | the end of `trim` removes exactly the trailing white space and keeps the rest |
| `CookieStorage.Trim` | src/lib/supabase.ts:21 | the result is a slice of the input with only white space before and after it, and it neither starts nor ends with white space |
| `CookieStorage.TrimPadded` | src/lib/supabase.ts:21 | trimming drops leading padding and leaves an unpadded entry alone |
| `CookieStorage.EntryName` | src/lib/supabase.ts:21 | `k` is the trimmed entry up to, and without, its first `=` |
| `CookieStorage.EntryValue` | src/lib/supabase.ts:21 | `v` is undefined exactly when the trimmed entry has no `=`, and otherwise the text between the first `=` and the next one or the end |
| `CookieStorage.EntryFields` | src/lib/supabase.ts:21-22 | the name is the text before the first `=` and the value the text between the first and second `=`; the rest, possibly empty, is dropped |
| `CookieStorage.SplitPair` | src/lib/supabase.ts:21 | `name=value` without another `=` splits into the name and the value |
| `CookieStorage.PlainEntry` | src/lib/supabase.ts:21-22 | a padded `name=value` entry reads as that name and value |
| `CookieStorage.ReduceSnoc` | src/lib/supabase.ts:20-24 | the reduce over one more entry is one more reducer step on the earlier result |
| `CookieStorage.ReduceLastMatchWins` | src/lib/supabase.ts:20-24 | the reduce yields the decoded value of the last entry named by the key, or its start value when none is |
| `CookieStorage.GetItem` | src/lib/supabase.ts:19-26 | `getItem` returns the last matching entry's decoded value; no match or an empty decoded value gives null, and a result is never empty |
| `CookieStorage.GetItemOfLastEntry` | src/lib/supabase.ts:19-26 | a cookie string whose last entry for the key is a given entry reads that entry's decoded value, or null when it is empty |
| `CookieStorage.PairThenGet` | src/lib/supabase.ts:19-26 | a cookie string whose last entry for the key is `key=encoded` after any white space reads `decode(encoded)`, or null when that is empty |
| `CookieStorage.AttributeParts` | src/lib/supabase.ts:29 | the trailing attributes are `path=/` and `SameSite=Lax` |
| `CookieStorage.SetItem` | src/lib/supabase.ts:27-30 | when the key, the encoded value and the date text hold no `;` (as the `dualview-auth` key, `encodeURIComponent` and `toUTCString` ensure), the assignment splits into `key=encode(value)`, an expiry 604800000 ms (7 days) after now, `path=/`, `SameSite=Lax` |
| `CookieStorage.RemoveItem` | src/lib/supabase.ts:31-33 | the assignment has an empty value and the 1 Jan 1970 expiry, with the same path and SameSite |
| `CookieStorage.SetThenGet` | src/lib/supabase.ts:19-30 | a cookie string whose last entry for the key is the pair `setItem` wrote, first or after other entries, reads back the value, if it is non-empty and decoding inverts encoding |
| `CookieStorage.SetThenGetOnlyCookie` | src/lib/supabase.ts:19-30 | a cookie string that is just the pair `setItem` wrote, with no leading space, reads back the value |
| `CookieStorage.RemoveThenGet` | src/lib/supabase.ts:19-33 | a cookie string whose last entry for the key is the pair `removeItem` wrote, first or after other entries, reads as null |

## Left out

- ControlChannel.Sender.constructor: other pages' writes to the shared slot after this page mounts are not modelled; only the slot's contents and the removals already scheduled for it at mount are parameters.
- Browser delivery: the BroadcastChannel transport is the `posted` list; which pages receive a message, and in what order relative to the storage slot, is not modelled. The control-channel constructor throws where BroadcastChannel is missing (src/hooks/useControlChannel.ts:31-33); that failure is not modelled.
- Nothing shown reads the `"dualview-control"` slot, so the model has no reader for it.
- React scheduling: state updates are applied immediately, one handler at a time; batching, re-render timing and the per-render closures of the presenter's handlers are not modelled. Only the listener's stale `currentSlide`, which lasts for the page's lifetime, is.
- JavaScript numbers: slides are integers. Fractions, `NaN` and non-number payloads are not modelled. Truthiness of `slide` is "present and non-zero".
- JSON: stored records are values. A stored text that parses to something not shaped like a room record (the `as RoomData` cast checks nothing) is not representable.
- `decodeURIComponent` throwing on a malformed escape is not modelled; decoding is a total function parameter.
- `document.cookie` jar semantics (how an assignment updates the cookie string read back) are not modelled; the round trip is stated on a cookie string whose last entry for the key is the written pair.
- JoinForm.Normalize: upper-cases ASCII letters only; Unicode case mapping (which can change the length, as for `ß`) is not modelled, and truncation counts characters, not UTF-16 code units.
- Clipboard copy and its `isCopied` flag, the fullscreen toggle itself, the keyboard-to-handler mapping of `useKeyboardNav`, and all rendering.
- `loadFiles` runs only when a user is signed in; the auth context is not modelled and the user id is a parameter.
- The dashboard, login and sign-up pages, routing, and the storage and auth client calls.
