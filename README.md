# Graphical password: credential matching and lockout

A model, in Dafny, of the core of a browser-side graphical-password
application. A user registers either five click points on a cue image
("cued click points") or an ordered pick of four images out of a pool of
twelve ("image sequence"), and logs in by reproducing it. The model covers:

- the geometry matcher (`Validation`): position-by-position comparison of
  click points within a radius of 5;
- the sequence matcher and the Fisher-Yates shuffle of the login grid
  (`ImageUtils`);
- the credential store (`Storage`): a list of user records in the browser's
  key-value store, keyed by username ignoring case;
- the collectors of an attempt (`CuedClickPoints`, `ImageSequenceAuth`);
- the registration page (`Register`): username checks, the size check of
  the credential, the record it builds and saves;
- the login page (`Login`): the username step, the evaluation of an
  attempt against the stored record, the counter of failed matches, the
  lockout after three of them and the reset on Back.

Shared types (`AuthTypes`) and the string functions the pages use
(`Text`: `trim`, `toLowerCase`) have modules of their own.

Each source file keeps its form. The matchers and the shuffle are methods
with loops, proved against specification functions (`ClickPointsMatch`,
sequence equality, `Shuffled`). Components and pages are classes whose
fields are the component state and whose methods are the handlers. The
persisted list is a field of `UserStore`. A `disabled` button is a `Press…`
method that does nothing while its guard holds and otherwise calls the
handler. The pure policy behind the login counter (`Press`,
`AttemptsAfterPress`) carries the lemmas about runs of attempts.

The environment is passed in as parameters:
- `Math.random()` is a sequence `randoms` of reals in [0, 1);
- the clock reading is a `createdAt` string;
- a failing `localStorage.setItem` is a `writeFails` flag;
- what the store holds is a `Persisted` value (`Missing`, `Unreadable`,
  `Stored(users)`);
- navigation and `onLogin` are returned as effect values.

Three behaviours of the code that are easy to miss:
- The login grid is shuffled once, when the selector is mounted in login
  mode (the effect depends on `mode` only). It is not reshuffled after each
  failed attempt.
- A failed login clears the page's copy of the attempt. The collector
  component keeps its own full list until its reset button is pressed, and
  a full collector ignores clicks.
- The username length check (at least 3) exists only at registration. It
  counts characters of the untrimmed input, so `"  a"` passes.

## Model

| member | source | states |
|---|---|---|
| Validation.ValidateClickPoints | src/utils/validation.ts:3-29 | The result is true iff the lists have the same length and each attempted point is on the same image as, and within the radius of, the stored point at the same position. Different lengths give false. |
| Validation.DistanceTestAgreesWithSquare | src/utils/validation.ts:19-23 | For d ≥ 0 with d·d = sq, `d > 5` holds exactly when `sq > 25`. So the squared test agrees with the square-root test of the source. |
| Validation.LengthMismatchRejected | src/utils/validation.ts:7-9 | Lists of different lengths never match. |
| Validation.ImageIndexMismatchRejected | src/utils/validation.ts:15-17 | One position on another image fails the match, whatever the coordinates. |
| Validation.DistanceExceededRejected | src/utils/validation.ts:19-25 | One position farther than the radius fails the match. |
| Validation.BoundaryDistanceAccepted | src/utils/validation.ts:23 | A click at distance exactly 5 (offset 3, 4) is accepted, because the test is a strict `>`. |
| Validation.SquaredDistanceSymmetric | src/utils/validation.ts:19-21 | The distance does not depend on argument order. |
| Validation.MatchSymmetric | src/utils/validation.ts:7-28 | Exchanging the attempted and the stored list does not change the verdict. |
| Validation.MatchReflexive | src/utils/validation.ts:7-28 | Every list matches itself, and two empty lists match. |
| Validation.ScenarioCloseAttemptAccepted | src/utils/validation.ts:11-28 | Five clicks each within 5 of their stored click are accepted. |
| Validation.ScenarioFarPointRejected | src/utils/validation.ts:19-25 | The same attempt with one click 10 away from its stored click is rejected. |
| ImageUtils.Draw | src/utils/imageUtils.ts:6 | `floor(r·(i+1))` for r in [0,1) is a position in [0, i], so every swap is in bounds. |
| ImageUtils.Swap | src/utils/imageUtils.ts:7 | Exchanging two positions keeps the length and the multiset. It exchanges the two entries and leaves the others. |
| ImageUtils.ShuffleFrom | src/utils/imageUtils.ts:5-8 | Any number of loop iterations keeps the length and the multiset. |
| ImageUtils.ShuffledIsPermutation | src/utils/imageUtils.ts:3-10 | The shuffle returns a permutation of its input, whatever the draws: same length, same multiset, same members. |
| ImageUtils.ShortInputUnchanged | src/utils/imageUtils.ts:5 | Inputs of length 0 or 1 come back unchanged. |
| ImageUtils.ShuffleArray | src/utils/imageUtils.ts:3-10 | Returns a fresh array (the input is not modified) whose contents are the shuffle of the input under the given draws. |
| ImageUtils.ValidateImageSequence | src/utils/imageUtils.ts:12-27 | The result is true iff the two id lists are equal. Different lengths give false. |
| ImageUtils.TranspositionRejected | src/utils/imageUtils.ts:20-24 | Exchanging two positions holding different ids makes a correct attempt differ from the stored list. |
| Text.TrimStart | src/pages/Register.tsx:26 | The result is no longer than the input and does not start with whitespace. Every dropped leading character is whitespace. |
| Text.TrimEnd | src/pages/Register.tsx:26 | The result is no longer than the input and does not end with whitespace. Every dropped trailing character is whitespace. |
| Text.Trim | src/pages/Login.tsx:31 | `trim()` is empty exactly when the input is all whitespace. Otherwise it neither starts nor ends with whitespace. |
| Text.TrimStartIsSuffix | src/pages/Register.tsx:26 | What survives the removal of leading whitespace is a suffix of the input. |
| Text.TrimEndIsPrefix | src/pages/Register.tsx:26 | What survives the removal of trailing whitespace is a prefix of the input. |
| Text.TrimIsSlice | src/pages/Login.tsx:31 | `trim()` is a contiguous slice `s[a..b]` of its input with only whitespace before `a` and from `b` on. |
| Text.LowerChar | src/utils/storage.ts:20 | Upper-case ASCII letters map to their lower-case letter, and every other character is unchanged. |
| Text.ToLowerCase | src/utils/storage.ts:35 | Lower-casing keeps the length and lower-cases each character. |
| Text.ToLowerCaseIdempotent | src/utils/storage.ts:20 | Lower-casing twice is lower-casing once. |
| Storage.FindUser | src/utils/storage.ts:33-36 | `find` returns nothing exactly when no record has the username ignoring case. Otherwise it returns the first such record. |
| Storage.AppendKeepsUnique | src/utils/storage.ts:20-25 | Appending a record whose key is free keeps all keys distinct ignoring case. |
| Storage.AppendedUserFound | src/utils/storage.ts:24-36 | After appending a record whose key was free, every case variant of its username finds exactly that record. |
| Storage.AppendKeepsOtherLookups | src/utils/storage.ts:24-36 | Appending a record does not change what a query for any other key finds. |
| Storage.CaseVariantIsTaken | src/utils/storage.ts:20 | Once "Alice" is stored, "alice" is taken. |
| Storage.UserStore.constructor | src/utils/storage.ts:3 | The store starts with what the browser holds under the single key. |
| Storage.UserStore.GetUsers | src/utils/storage.ts:6-14 | `getUsers` yields the stored list, and the empty list when the key is missing or its value cannot be read or parsed. In a valid store the keys of the list are distinct ignoring case. |
| Storage.UserStore.GetUser | src/utils/storage.ts:33-36 | Returns nothing iff no stored record has the username ignoring case. A returned record is stored and has that username ignoring case. |
| Storage.UserStore.UserExists | src/utils/storage.ts:38-40 | True iff `getUser` returns a record, iff a stored record has the username ignoring case. |
| Storage.UserStore.SaveUser | src/utils/storage.ts:6-31 | Saves iff the key is free ignoring case and the write succeeds. A save appends the record to the list read (an unreadable or missing list counts as empty). Otherwise nothing changes. Key uniqueness is preserved. Afterwards every case variant finds the new record, and other lookups are unchanged. |
| CuedClickPoints.ClicksCollectedInOrder | src/components/CuedClickPoints.tsx:20-29 | Any run of clicks keeps the points already held and adds the first clicks, in click order, up to five in all. |
| CuedClickPoints.PointsAfterClick | src/components/CuedClickPoints.tsx:20-29 | One click keeps the points already held and adds at most one point, the clicked one, at the end. From at most five held, the list holds one more point, up to five. |
| CuedClickPoints.CompleteListIgnoresClicks | src/components/CuedClickPoints.tsx:21-28 | Once five points are held, no run of clicks changes the list. |
| CuedClickPoints.ClickPointCollector.HandlePointClick | src/components/CuedClickPoints.tsx:20-29 | Appends the point while fewer than five are held and otherwise changes nothing. It never holds more than five points. It reports completion exactly when this click made the fifth point, passing the whole list. |
| CuedClickPoints.ClickPointCollector.ClickOnCueImage | src/components/ImageClickArea.tsx:39-47 | A click on the cue image (ignored once the list is full) hands on a point with image index 0. A list of cue-image points stays one. |
| CuedClickPoints.ClickPointCollector.HandleReset | src/components/CuedClickPoints.tsx:31-33 | Reset empties the list. |
| CuedClickPoints.ClickPointCollector.constructor | src/components/CuedClickPoints.tsx:18 | A collector starts with no points, and that list is within the limits the collector keeps. |
| ImageSequenceAuth.Without | src/components/ImageSequenceAuth.tsx:31 | `filter` keeps exactly the ids other than the clicked one. |
| ImageSequenceAuth.WithoutRemovesPosition | src/components/ImageSequenceAuth.tsx:30-31 | In a duplicate-free list, filtering out the id at position k removes exactly that position and keeps the others in order. |
| ImageSequenceAuth.WithoutAbsent | src/components/ImageSequenceAuth.tsx:31 | Filtering out an absent id changes nothing. |
| ImageSequenceAuth.WithoutKeepsNoDuplicates | src/components/ImageSequenceAuth.tsx:31 | Filtering keeps a list duplicate-free. |
| ImageSequenceAuth.SelectionAfterClick | src/components/ImageSequenceAuth.tsx:27-40 | With four selected a click changes nothing. Below four, a click toggles the clicked id, in exactly when it was out, and no other id changes membership. |
| ImageSequenceAuth.ClickKeepsSelectionWellFormed | src/components/ImageSequenceAuth.tsx:27-40 | A click keeps the selection duplicate-free and at most four long. Deselecting keeps the others in order. |
| ImageSequenceAuth.IndexOf | src/components/ImageSequenceAuth.tsx:47 | `indexOf` is -1 iff the id is absent. Otherwise it is the first position holding the id. |
| ImageSequenceAuth.PoolHasNoDuplicates | src/data/images.ts:7-68 | The twelve pool ids are distinct. |
| ImageSequenceAuth.ImageSequenceSelector.constructor | src/components/ImageSequenceAuth.tsx:18-25 | Mounting gives an empty selection. The grid is the pool in register mode and its shuffle in login mode, a permutation of the pool in both cases. |
| ImageSequenceAuth.ImageSequenceSelector.HandleImageClick | src/components/ImageSequenceAuth.tsx:27-40 | With four selected, a click is a no-op, even on a selected image. A selected image is removed, keeping the others in order. An unselected image is appended. Completion is reported exactly when this click appended the fourth image, passing the selection. |
| ImageSequenceAuth.ImageSequenceSelector.HandleReset | src/components/ImageSequenceAuth.tsx:42-44 | Reset empties the selection and keeps the grid. |
| ImageSequenceAuth.ImageSequenceSelector.GetImageOrder | src/components/ImageSequenceAuth.tsx:46-49 | Nothing for an unselected id. Otherwise its 1-based position, that of its first occurrence. |
| ImageSequenceAuth.ShuffledGridShowsPool | src/components/ImageSequenceAuth.tsx:21-25 | The login grid has twelve entries, shows every pool image and nothing else, and has no duplicates. |
| ImageSequenceAuth.PermutationKeepsNoDuplicates | src/components/ImageSequenceAuth.tsx:23 | A permutation of a duplicate-free list is duplicate-free. |
| Register.UsernameProblem | src/pages/Register.tsx:22-42 | A username passes iff it is not blank, has at least 3 characters untrimmed, and is not taken. A blank one gets "required" first, a short non-blank one "too short", and a long enough taken one "already exists". |
| Register.PaddedShortUsernameAccepted | src/pages/Register.tsx:26-34 | `"  a"` passes the checks, `"a"` is too short and `"   "` is required. |
| Register.ToEntries | src/pages/Register.tsx:85-88 | Each selected id becomes an entry in the same position with its position as `order`, so the orders strictly increase. |
| Register.BuildUser | src/pages/Register.tsx:52-103 | A record is built iff the credential of the chosen method has the required size. Otherwise the size error comes back. The record carries the username, method, time, and the points, or the ids with `order` equal to their position. |
| Register.RegisterPage.constructor | src/pages/Register.tsx:14-20 | A page starts at the username step with empty fields, no message and no success, using the method of the shared context. |
| Register.RegisterPage.SetUsername | src/pages/Register.tsx:145 | Typing replaces the username and nothing else. |
| Register.RegisterPage.HandleUsernameSubmit | src/pages/Register.tsx:22-42 | The message is the first objection to the username. The page moves to the credential step exactly when there is none. |
| Register.RegisterPage.HandleClickPointsComplete | src/pages/Register.tsx:44-46 | The completed points replace the page's points and nothing else. |
| Register.RegisterPage.HandleImageSequenceComplete | src/pages/Register.tsx:48-50 | The completed selection replaces the page's selection and nothing else. |
| Register.RegisterPage.IsReadyToRegister | src/pages/Register.tsx:105-111 | The button guard holds exactly when `handleRegister` would build a record, whatever the clock reads. |
| Register.RegisterPage.HandleRegister | src/pages/Register.tsx:52-103 | Nothing is saved while the credential is incomplete. A built record is saved iff its key is free and the write succeeds. A save sets `success` and asks for the move to the login page. A refused save sets the failure message and leaves `success` and the store alone. |
| Register.RegisterPage.PressRegister | src/pages/Register.tsx:205 | While the credential is incomplete or after a success, the button does nothing. Otherwise it saves the built record exactly when the key is free and the write succeeds. A save appends that record, sets `success` and asks for the move to the login page. A refusal sets the failure message and changes neither the store nor `success`. The username, the credential and the step are untouched. So a page saves at most one record, and `success` is never reset. |
| Login.InsertByOrder | src/pages/Login.tsx:88 | Inserting into an ordered list keeps it ordered and adds exactly the entry. |
| Login.SortByOrder | src/pages/Login.tsx:88 | The sort by `order` returns a permutation of its input, ascending by `order`. |
| Login.SortedInputUnchanged | src/pages/Login.tsx:88 | An already ordered list comes back unchanged. |
| Login.ImageIds | src/pages/Login.tsx:89 | `map` keeps the length and takes each entry's id. |
| Login.StoredSequence | src/pages/Login.tsx:87-89 | The comparison list has one id per stored entry. If the entries are already in order, it is their ids in stored order. |
| Login.RegistrationRoundTrip | src/pages/Register.tsx:85-88 | Sorting the stored entries by `order` and taking their ids gives back the registered id list. |
| Login.SortedPermutationsEqual | src/pages/Login.tsx:88 | Two ordered lists with the same entries and distinct orders are equal. |
| Login.RearrangedEntriesRoundTrip | src/pages/Login.tsx:87-89 | However the registered entries are rearranged, the comparison list is the registered id list. |
| Login.LookupProblem | src/pages/Login.tsx:27-45 | A username passes the username step iff it is not blank and names a record. A blank one gets "required", and a non-blank one without a record "not found". |
| Login.Evaluate | src/pages/Login.tsx:56-92 | A missing record is refused as not found. The matcher is reached exactly when a record exists, carries the chosen method, and the attempt has the required size. Then points are judged by the geometry matcher and images by equality with the stored order. |
| Login.RegisteredClickPointsEvaluation | src/pages/Login.tsx:56-75 | Against a registered click-points record, an attempt not of five points is refused. A five-point attempt is judged by the geometry matcher against the registered points. |
| Login.RegisteredImageSequenceEvaluation | src/pages/Login.tsx:56-91 | Against a registered image-sequence record, an attempt not of four images is refused. A four-image attempt is accepted exactly when it is the registered sequence. |
| Login.OtherMethodRecordRefused | src/pages/Login.tsx:64-85 | A full-size attempt against a record of the other method is refused as invalid data. |
| Login.Press | src/pages/Login.tsx:94-121 | The whole case table of a press: ignored exactly while the attempt is incomplete or three matches failed; otherwise refused with the evaluation's message exactly on a refusal, granted exactly on a match, locked exactly on a failed match that brings the count to three, and a retry reporting `3 - count` attempts left on any other failed match. |
| Login.AttemptsAfterPress | src/pages/Login.tsx:98-99 | The counter grows by exactly one exactly on a retry or a lockout, and is unchanged otherwise. |
| Login.PressKeepsAttemptsBounded | src/pages/Login.tsx:244 | The counter never exceeds three. |
| Login.PressesCountFailures | src/pages/Login.tsx:98-101 | Over any run of presses without Back in between, the counter is the number of failed matches, capped at three. |
| Login.ThirdFailureLocks | src/pages/Login.tsx:98-121 | From a fresh page, failures report 2, then 1 attempts left, and the third locks. A fourth press is ignored whatever its attempt. |
| Login.FailedRun | src/pages/Login.tsx:98 | A run of k failed matches counts k failures. |
| Login.GrantedAfterFewerFailures | src/pages/Login.tsx:94-101 | After k < 3 failed matches, a match logs in, whatever k. |
| Login.FailedRunLocks | src/pages/Login.tsx:244 | After three failed matches, the next press is refused outright, whether or not it would match. |
| Login.LoginPage.constructor | src/pages/Login.tsx:17-24 | A page starts at the username step with empty fields, no message, a zero counter and the cued-click-points method. |
| Login.LoginPage.SetUsername | src/pages/Login.tsx:173 | Typing replaces the username and nothing else. |
| Login.LoginPage.HandleUsernameSubmit | src/pages/Login.tsx:27-45 | The message is the first objection to the username. Exactly when there is none, the page moves to the credential step with the record's method, which is also handed to the shared context. The counter is untouched. |
| Login.LoginPage.HandleClickPointsComplete | src/pages/Login.tsx:47-49 | The completed points replace the page's points and nothing else. |
| Login.LoginPage.HandleImageSequenceComplete | src/pages/Login.tsx:51-53 | The completed selection replaces the page's selection and nothing else. |
| Login.LoginPage.IsReadyToLogin | src/pages/Login.tsx:136-142 | When the guard holds, `handleLogin` never refuses the attempt for its size. When it fails, the attempt is refused for its size against any record. |
| Login.LoginPage.HandleLogin | src/pages/Login.tsx:55-122 | A refused attempt only sets its message. A match logs in with the username and method and leaves the counter. A failed match adds one, clears both attempts, and reports the attempts left, or at three reports the lockout and schedules the move to the landing page. |
| Login.LoginPage.HandleBack | src/pages/Login.tsx:124-134 | From the credential step, returns to the username step with attempts, message and counter cleared. From the username step, goes to the landing page. |
| Login.LoginPage.PressLogin | src/pages/Login.tsx:244 | The counter and the effect follow the policy `Press`: a login exactly on `Granted`, the scheduled move exactly on `Locked`. An ignored press or a login keeps the message. A refusal sets its message. A retry reports the attempts left, and the lockout its message; both clear the attempts. The username, step and method are untouched, and the counter stays at most three. |
| Login.LoginPage.PressBack | src/pages/Login.tsx:150 | A locked page ignores Back, so its counter cannot be reset. Otherwise, from the credential step, Back returns to the username step and clears both attempts, the message and the counter. From the username step it goes to the landing page and changes nothing. The username and method are kept. |

## Left out

- JSX rendering, styling, icons, page texts and the landing and success
  pages are not part of this model. Nor are the routing in `App.tsx` and the
  shared authentication context. The method handed to the context is
  returned by `Login.LoginPage.HandleUsernameSubmit`, and the method
  Register uses is a constructor parameter. The context starts as cued
  click points and only the login username step changes it (the landing
  page does not). So the interface reaches an image-sequence registration
  only after a login username step found an image-sequence record. The
  constructor parameter admits either method, which covers more than the
  interface reaches.
- `ImageClickArea.tsx` is DOM measurement and the conversion of pixels to
  percentages in floating point. The model keeps only its guard and the
  image index it attaches (`ClickOnCueImage`), and takes `x`, `y` as given.
- Floating point: coordinates are exact reals and the square root is
  replaced by the squared comparison. IEEE rounding at the boundary is not
  modelled.
- Randomness: `Math.random()` is an input sequence of reals in [0, 1). That
  the shuffle is uniform is not stated.
- The image pool holds the twelve ids only. URLs and alt texts are left out.
- `localStorage` and `JSON.parse`/`JSON.stringify` are reduced to the
  `Persisted` value. An empty string, a missing key, a denied read and a
  parse failure all read as an empty list. A failed write, including an
  exception inside the `try`, is the `writeFails` flag. A parsed value that
  is not a list of records is not modelled, since records are typed.
- `console.error` output is not modelled. Nor is the timestamp format of
  `new Date().toISOString()`, which is an opaque `createdAt` string.
- `setTimeout`: the delayed moves (3 s after a lockout, 2 s after a
  registration) are effect values. The delay and the timer itself are not
  modelled.
- Error texts are an enumeration. Only the number of remaining attempts is
  kept.
- `toLowerCase` covers ASCII letters only. Unicode case mapping, including
  characters whose lower case has another length, is not modelled.
  `String.length` counts UTF-16 code units, while the model counts `char`s.
- Login.SortByOrder: the sort by `order` reorders the parsed record's array
  in place. It is modelled as a function on values because that array is a
  fresh copy read from storage and the reordering is not observable
  elsewhere. Stability among equal orders is built into the definition but
  not stated as a property.
- REQUIRED_IMAGES is imported from `types/auth.ts`, which does not export
  it. The model takes the four images a credential consists of. As written,
  the import does not resolve, which is a build failure rather than a
  behaviour.
- The `User` interface of `types/auth.ts` lacks the `authMethod` and
  `imageSequence` fields the pages write. The model's `User` is the tagged
  union the pages actually store.
- Two concurrent registrations of one username from two tabs (a race
  between the read and the write of `saveUser`) are not modelled, since the
  model is sequential.
