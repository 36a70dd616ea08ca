# Secret Santa client: a verified model of its core

This project models, in Dafny, the parts of the Secret Santa web client that
hold real logic:

- **The draw** (`GroupManage.jsx`, `handleDraw`). The moderator draws gift
  pairs for a group. The draw needs at least two approved participants and a
  confirmation. It copies the approved user ids and shuffles the copy in
  place with Fisher–Yates. It pairs each giver with a receiver, writes each
  receiver to the giver's participant record as its `gifteeId`, and marks
  the group `isDrawDone: true, status: 'drawn'` only when every write
  succeeded.
- **The moderator's participant list** (`GroupManage.jsx`). This covers the
  client-side group filter, approving or rejecting a participant, and the
  split into pending and approved participants.
- **The string helpers** (`security.js`). These are the HTML escaper
  `sanitize`, the e-mail and password checks, and the id mask.
- **The participant's own view** (`UserView.jsx`). One poll decides the view
  status (not registered, pending, approved, draw done) from the records
  found. Opening the gift is a one-way flag.

Random numbers and remote requests are inputs to the model. The random index
of shuffle step `i` is a supplied `swaps[i]` in `[0, i]`. Each remote write
is a supplied success or failure. Each remote read is the data it returns,
or `None` when it fails.

Files:

- `common.dfy` holds shared types.
- `security.dfy` models `security.js`.
- `draw.dfy` holds the shuffle and the pairing.
- `group_manage.dfy` holds the moderator's view and the store writes.
- `user_view.dfy` holds the participant's view.

The draw as written can make a participant their own giftee. The model
records this under "Findings". `HandleDraw` then uses the pairing that the
comment at `GroupManage.jsx:110` describes.

The draw has no reset of old `gifteeId`s, no retries, no failure counts, no
duplicate-participant check and no refusal of an already drawn group, and
the model has none of them either.

## Model

| member | source | states |
|---|---|---|
| Security.SanitizeProperties | santa/src/utils/security.js:6-12 | the output has none of `<`, `>`, `"`, `'`, `/`; every `&` in it starts one of the six entities; it is never shorter than the input; it equals the input exactly when the input has no special character |
| Security.SanitizeAppend | santa/src/utils/security.js:6-12 | escaping distributes over concatenation: `sanitize(s + t) == sanitize(s) + sanitize(t)` |
| Security.SanitizeChar | santa/src/utils/security.js:7-12 | on one character the six chained replacements give that character's entity, and leave any other character unchanged; the entity that one step adds is never rewritten by a later step |
| Security.SanitizeIsEscapeAll | santa/src/utils/security.js:6-12 | the chained replacements equal the character-by-character escape |
| Security.SanitizeRoundTrip | santa/src/utils/security.js:6-12 | decoding the six entities in the output gives back the input |
| Security.ReplaceAllAppend | santa/src/utils/security.js:7 | a global single-character replace distributes over concatenation |
| Security.EmailRegexTestIsShape | santa/src/utils/security.js:17 | the automaton for `^[^\s@]+@[^\s@]+\.[^\s@]+$` accepts exactly the strings `L@D.T` whose three parts are non-empty and hold no `@` and no ECMAScript whitespace |
| Security.IsValidEmail | santa/src/utils/security.js:16-19 | accepted exactly when the address has at most 254 characters and has the shape `L@D.T` |
| Security.ValidEmailFacts | santa/src/utils/security.js:16-19 | an accepted address has no whitespace and exactly one `@`, which is not first; after the `@` there is a `.` with something on both sides |
| Security.IsValidPassword | santa/src/utils/security.js:22-24 | true exactly when a password is present and has 4 to 100 characters; the empty password is rejected |
| Security.Slice | santa/src/utils/security.js:31 | `slice(start)` with JavaScript's negative start counted from the end and clamped to the string |
| Security.MaskId | santa/src/utils/security.js:30-32 | three stars followed by the last `min(3, n)` characters of the id; length `3 + min(3, n)` |
| Security.MaskIdOnlyLastThree | santa/src/utils/security.js:30-32 | two ids with the same last three characters get the same mask |
| Draw.Shuffle | santa/src/pages/GroupManage.jsx:104-108 | the in-place loop from the last position down to 1 leaves the array equal to the Fisher–Yates function of its old contents and the supplied indices |
| Draw.ShuffleDownPermutes | santa/src/pages/GroupManage.jsx:105-108 | each run of swap steps keeps the length and the multiset of elements |
| Draw.FisherYatesPermutes | santa/src/pages/GroupManage.jsx:105-108 | the shuffle is a permutation: same length, same multiset |
| Draw.BuildAssignments | santa/src/pages/GroupManage.jsx:111-120 | the loop as written: one entry per index in the original order, giver `participantIds[k]`, receiver `shuffled[(k + 1) % n]` |
| Draw.AsWrittenIsBijection | santa/src/pages/GroupManage.jsx:111-120 | as written, the givers are the approved ids in order and the receivers are a permutation of them |
| Draw.BuildCycle | santa/src/pages/GroupManage.jsx:110-114 | the pairing in shuffle order: giver `shuffled[k]`, receiver `shuffled[(k + 1) % n]` |
| Draw.ShuffleAndPair | santa/src/pages/GroupManage.jsx:101-114 | the shuffle works on a fresh copy of the id list; it returns the Fisher–Yates permutation of the ids and its shuffle-order cycle |
| Draw.CycleIsDerangement | santa/src/pages/GroupManage.jsx:110-114 | for distinct ids and `n >= 2`, the shuffle-order cycle has no self-gift; its givers are the shuffled ids and its receivers a permutation of them |
| Draw.SelfGiftReachable | santa/src/pages/GroupManage.jsx:110-114 | for any two or more ids, some valid random indices make the as-written pairing give the first id to itself |
| Draw.SelfGiftExample | santa/src/pages/GroupManage.jsx:104-108 | indices `[_, 0, 2]` shuffle `[a, b, c]` into `[b, a, c]` |
| Draw.PermutationKeepsDistinct | santa/src/pages/GroupManage.jsx:101-108 | a permutation of distinct ids is distinct |
| GroupManage.Filter | santa/src/pages/GroupManage.jsx:27-31 | `filter` keeps exactly the accepted elements and is never longer |
| GroupManage.FilterCount | santa/src/pages/GroupManage.jsx:27-31 | `filter` keeps each accepted element as often as it occurs and drops the rest |
| GroupManage.FilterAppend | santa/src/pages/GroupManage.jsx:71 | `filter` keeps order: it distributes over concatenation |
| GroupManage.FilterIdempotent | santa/src/pages/GroupManage.jsx:71 | filtering again with the same test changes nothing |
| GroupManage.ForGroup | santa/src/pages/GroupManage.jsx:27-31 | the kept records are exactly those with a group id equal to the group's and a user id, each kept as often as it was fetched |
| GroupManage.PendingOf | santa/src/pages/GroupManage.jsx:154 | exactly the participants with status `pending` |
| GroupManage.ApprovedOf | santa/src/pages/GroupManage.jsx:155 | exactly the participants with status `approved` |
| GroupManage.PendingApprovedPartition | santa/src/pages/GroupManage.jsx:154-155 | no participant is both pending and approved; the two lists together are no longer than the whole list |
| GroupManage.Reject | santa/src/pages/GroupManage.jsx:71 | the entry with the rejected id is gone; every other entry stays, as often as before |
| GroupManage.RejectKeepsOrder | santa/src/pages/GroupManage.jsx:71 | rejection keeps the remaining entries in order, and rejecting the same id twice is the same as once |
| GroupManage.SetStatus | santa/src/pages/GroupManage.jsx:77-79 | same length; the entry with that id differs only in its status, which is the new one; every other entry is unchanged |
| GroupManage.SetStatusFacts | santa/src/pages/GroupManage.jsx:77-79 | setting a status twice is the same as once; a status change keeps every participant in the group |
| GroupManage.FindByUser | santa/src/pages/GroupManage.jsx:125 | `find` returns a participant with that user id, and returns nothing only when there is none |
| GroupManage.FindByUserIsFirst | santa/src/pages/GroupManage.jsx:125 | what `find` returns is the first participant with that user id |
| GroupManage.UserIds | santa/src/pages/GroupManage.jsx:101 | `approved.map(p => p.userId)`: one id per participant, in order |
| GroupManage.Persisted | santa/src/pages/GroupManage.jsx:123-130 | the giftee writes only add entries to the store; none is removed |
| GroupManage.PersistedFrame | santa/src/pages/GroupManage.jsx:123-130 | the draw writes only the records of approved participants; every other record keeps its `gifteeId` |
| GroupManage.WriteGiftees | santa/src/pages/GroupManage.jsx:123-130 | the store afterwards holds exactly the successful writes; the result is true exactly when all writes succeeded |
| GroupManage.GiversFound | santa/src/pages/GroupManage.jsx:123-126 | every giver of the shuffle-order cycle is an approved user, so the lookup at line 125 always finds a participant |
| GroupManage.PersistedPrefix | santa/src/pages/GroupManage.jsx:123-130 | after the first `k` successful writes, the participant of each of the first `k` shuffled ids holds the next shuffled id |
| GroupManage.GifteesAreOthers | santa/src/pages/GroupManage.jsx:110-130 | after a fully successful draw, every approved participant holds a giftee who is another approved user |
| GroupManage.GifteesInjective | santa/src/pages/GroupManage.jsx:110-130 | after a fully successful draw, no two approved participants hold the same giftee |
| GroupManage.GifteesSurjective | santa/src/pages/GroupManage.jsx:110-130 | after a fully successful draw, every approved user is somebody's giftee |
| GroupManage.DrawnIsDerangement | santa/src/pages/GroupManage.jsx:110-136 | when the user ids and record ids are distinct and all writes succeed, the stored giftees are a derangement of the approved users: total, no self-gift, injective, onto |
| GroupManage.GroupManage.constructor | santa/src/pages/GroupManage.jsx:9-12 | the initial state: no participants, loading, no draw running |
| GroupManage.GroupManage.FetchData | santa/src/pages/GroupManage.jsx:16-60 | a successful fetch lists exactly the filtered records, so every listed participant belongs to the group; a failed one keeps the list; loading ends either way |
| GroupManage.GroupManage.HandleStatusChange | santa/src/pages/GroupManage.jsx:65-84 | rejecting needs a confirmation and a successful delete, then removes the entry; any other status needs a successful patch, then sets it; a cancellation or a failure leaves the list unchanged; the group filter still holds |
| GroupManage.GroupManage.HandleDraw | santa/src/pages/GroupManage.jsx:87-149 | fewer than two approved participants, or no confirmation, changes nothing; otherwise the store holds the successful writes of the shuffle-order cycle; the group is marked drawn exactly when every write and the group update succeed, and is untouched otherwise; `drawLoading` is cleared |
| UserView.Decide | santa/src/pages/UserView.jsx:30-58 | no record gives `not_registered`; a first record that is pending gives `pending`; approved with no giftee gives `approved`; approved with a giftee whose user is found gives `draw_done` with that user's name; never `waiting_draw` |
| UserView.DecideFirstRecord | santa/src/pages/UserView.jsx:36-58 | only the first record matters; the view stays as it was exactly for a rejected record or a giftee lookup that fails |
| UserView.UserView.constructor | santa/src/pages/UserView.jsx:12-15 | loading, status `loading`, no giftee name, gift closed |
| UserView.UserView.FetchUserStatus | santa/src/pages/UserView.jsx:18-65 | with no signed-in user or no user id, it navigates home and changes nothing else; a failed lookup only ends loading; otherwise it applies the decision and ends loading; the gift flag is untouched; the status never becomes `waiting_draw`, and `draw_done` always has a name |
| UserView.UserView.HandleOpenGift | santa/src/pages/UserView.jsx:74-77 | the gift is open and nothing else changes; no member ever closes it |

## Left out

- Remote requests (axios, the base-URL interceptor, `loginUser`) are not modelled as such. A read becomes the data it returns, or `None` on failure. A write becomes a supplied success or failure.
- React rendering, routing, `window.confirm` (a `confirmed` input), `alert`, `window.location.reload` and console logging are left out. They are user interface.
- The `Promise.all` fan-out of the giftee writes is modelled as the same writes in order. Every write is issued, and each one lands exactly when its outcome is a success. Interleavings with other clients are not modelled.
- The 3-second poll of `UserView.jsx:70` is one call of `FetchUserStatus`, which may be repeated.
- `Math.random` is left out. The draw takes the indices it would produce. The button-dodging offsets of `LoginPage.jsx` are left out too.
- `escapeForUrl` (a wrapper around `encodeURIComponent`), `useSecureStorage`, `SecureText`, `RegisterPage.jsx`, `AdminDashboard.jsx`, `App.jsx`, `api.jsx` and `vite.config.js` are not part of this model.
- GroupManage.GroupManage.FetchData: the group record fetch and the per-participant user lookups are left out (`GroupManage.jsx:19-20, 35-52`). They only feed the display.
- Identifiers are strings. The `toString()` comparison at `GroupManage.jsx:29` is string equality. The numeric id `0`, which JavaScript treats as falsy, is not modelled.
- Security.Sanitize: the pass-through of non-string inputs (`security.js:5`) is left out. The model works on strings.
- Security.IsValidEmail: takes a string. `regex.test` of a non-string value, which JavaScript converts to a string first, is not modelled.
- Security.MaskId: takes the string form of the id. `String(id)` of other values is not modelled.
- Security.IsValidEmail: strings are sequences of Unicode scalar values, and lengths count those. JavaScript counts UTF-16 code units, so lengths differ for characters outside the Basic Multilingual Plane. The same holds for IsValidPassword and MaskId.
- Security.IsValidPassword: returns a boolean. The source returns the falsy operand itself, such as `""` or `undefined`, and that is read here as false.
- GroupManage.GroupManage.HandleDraw: pairs givers in shuffle order, as the comment at `GroupManage.jsx:110` intends. The pairing as written is Draw.BuildAssignments (see Findings). The draw does not look at `isDrawDone`. Only the disabled button at `GroupManage.jsx:225` does, and that is user interface.
- GroupManage.DrawnIsDerangement: assumes that the approved participants have distinct user ids and distinct record ids. The code does not check this.
- UserView.UserView.FetchUserStatus: the giftee's name is the `name` of the found user. A user record without a name is not modelled.

## Findings

| source | as written | input that shows it | evidently intended | confidence | as-written member | corrected member |
|---|---|---|---|---|---|---|
| santa/src/pages/GroupManage.jsx:112-114 | the giver is `participantIds[i]`, from the unshuffled list, and the receiver is `shuffled[(i + 1) % n]` | approved ids `[a, b, c]`; random indices 2 for `i = 2` and 0 for `i = 1` shuffle them to `[b, a, c]`; entry 0 is then `a → shuffled[1] = a` | each participant gives to the next one in shuffled order, the last to the first (comment at line 110): giver `shuffled[i]`, which has no self-gift for distinct ids and `n >= 2` | not executed | Draw.SelfGiftReachable | Draw.CycleIsDerangement |
