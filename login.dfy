/** The login page: a username step that looks the record up, and a
    credential step that evaluates the attempt with the matcher of the
    record's method, counts failed matches and locks the page after
    MAX_ATTEMPTS of them. */
module Login {
  import opened AuthTypes
  import opened Text
  import Storage
  import Validation
  import ImageUtils
  import Register

  /** Failed matches after which the page locks. */
  const MAX_ATTEMPTS: nat := 3

  /** The messages the page can show, as an enumeration; only the number of
      remaining attempts carries data. */
  datatype LoginError =
    | UsernameRequired
    | UsernameNotFound
    | UserNotFound
    | WrongPointCount
    | WrongImageCount
    | InvalidUserData
    | MaxAttemptsReached
    | Mismatch(authMethod: AuthMethod, remaining: nat)

  /** What a handler asks of the application besides its own state:
      `LoggedIn` is `onLogin(username, method)` followed by the move to the
      success page, `ToLanding` the immediate move to the landing page,
      `ToLandingAfterDelay` the move the lockout schedules with a timer. */
  datatype Effect = NoEffect | LoggedIn(username: string, authMethod: AuthMethod) | ToLanding | ToLandingAfterDelay

  // ---------------------------------------------------------------------
  // Ordering the stored image sequence

  /** Ascending by `order`. */
  predicate SortedByOrder(s: seq<ImageEntry>) {
    forall i, j :: 0 <= i < j < |s| ==> s[i].order <= s[j].order
  }

  /** Insert `e` in front of the first entry whose order is not smaller, so
      that `e` stays ahead of the entries with the same order. */
  function InsertByOrder(e: ImageEntry, sorted: seq<ImageEntry>): (r: seq<ImageEntry>)
    requires SortedByOrder(sorted)
    ensures SortedByOrder(r)
    ensures multiset(r) == multiset(sorted) + multiset{e}
    ensures |r| == |sorted| + 1
    ensures r[0] == e || (sorted != [] && r[0] == sorted[0])
  {
    if sorted == [] || e.order <= sorted[0].order then
      ConsKeepsSorted(e, sorted);
      [e] + sorted
    else
      var rest := InsertByOrder(e, sorted[1..]);
      assert sorted == [sorted[0]] + sorted[1..];
      ConsKeepsSorted(sorted[0], rest);
      [sorted[0]] + rest
  }

  /** An entry whose order does not exceed that of the head of an ordered
      list may go in front of it. */
  lemma ConsKeepsSorted(e: ImageEntry, s: seq<ImageEntry>)
    requires SortedByOrder(s) && (s == [] || e.order <= s[0].order)
    ensures SortedByOrder([e] + s)
  {
    var r := [e] + s;
    forall i, j | 0 <= i < j < |r| ensures r[i].order <= r[j].order {
      if i == 0 && j > 1 {
        assert r[j] == s[j - 1];
      }
    }
  }

  /** The stable sort of `sort((a, b) => a.order - b.order)`, as a value: a
      permutation of its input, ascending by order. */
  function SortByOrder(s: seq<ImageEntry>): (r: seq<ImageEntry>)
    ensures SortedByOrder(r)
    ensures multiset(r) == multiset(s)
    ensures |r| == |s|
  {
    if s == [] then []
    else
      assert s == [s[0]] + s[1..];
      InsertByOrder(s[0], SortByOrder(s[1..]))
  }

  /** A list that is already in order comes back as it is. */
  lemma {:induction false} SortedInputUnchanged(s: seq<ImageEntry>)
    requires SortedByOrder(s)
    ensures SortByOrder(s) == s
  {
    if s != [] {
      assert SortedByOrder(s[1..]);
      SortedInputUnchanged(s[1..]);
      assert s == [s[0]] + s[1..];
    }
  }

  /** `map((item) => item.imageId)`. */
  function ImageIds(entries: seq<ImageEntry>): (ids: seq<string>)
    ensures |ids| == |entries|
    ensures forall i :: 0 <= i < |entries| ==> ids[i] == entries[i].imageId
  {
    seq(|entries|, i requires 0 <= i < |entries| => entries[i].imageId)
  }

  /** The id list a stored image-sequence credential is compared with. */
  function StoredSequence(entries: seq<ImageEntry>): (ids: seq<string>)
    ensures |ids| == |entries|
    ensures SortedByOrder(entries) ==> ids == ImageIds(entries)
  {
    if SortedByOrder(entries) then
      SortedInputUnchanged(entries);
      ImageIds(SortByOrder(entries))
    else
      ImageIds(SortByOrder(entries))
  }

  /** The id list of a registration comes back from its stored entries:
      registration numbers the ids by position, so they are already in order. */
  lemma RegistrationRoundTrip(ids: seq<string>)
    ensures StoredSequence(Register.ToEntries(ids)) == ids
  {
    var entries := Register.ToEntries(ids);
    assert SortedByOrder(entries);
    SortedInputUnchanged(entries);
  }

  /** Two ordered lists with the same entries coincide when the orders of
      the second are distinct; so sorting does not depend on the order in
      which such entries were stored. */
  lemma {:induction false} SortedPermutationsEqual(a: seq<ImageEntry>, b: seq<ImageEntry>)
    requires SortedByOrder(a) && SortedByOrder(b) && multiset(a) == multiset(b)
    requires forall i, j :: 0 <= i < j < |b| ==> b[i].order != b[j].order
    ensures a == b
  {
    assert |a| == |multiset(a)| == |multiset(b)| == |b|;
    if a != [] {
      SameFirstEntry(a, b);
      TailsSameEntries(a, b);
      TailSortedDistinct(a, b);
      SortedPermutationsEqual(a[1..], b[1..]);
      assert a == [a[0]] + a[1..];
      assert b == [b[0]] + b[1..];
    }
  }

  /** The first step of the proof above: both lists start with the entry of
      least order. */
  lemma SameFirstEntry(a: seq<ImageEntry>, b: seq<ImageEntry>)
    requires a != [] && b != []
    requires SortedByOrder(a) && SortedByOrder(b) && multiset(a) == multiset(b)
    requires forall i, j :: 0 <= i < j < |b| ==> b[i].order != b[j].order
    ensures a[0] == b[0]
  {
    assert a[0] in multiset(b);
    assert b[0] in multiset(a);
    var i :| 0 <= i < |b| && b[i] == a[0];
    var j :| 0 <= j < |a| && a[j] == b[0];
    assert b[0].order <= b[i].order;
    assert a[0].order <= a[j].order;
    assert i == 0;
  }

  /** Dropping the head keeps a list ordered and its orders distinct. */
  lemma TailSortedDistinct(a: seq<ImageEntry>, b: seq<ImageEntry>)
    requires a != [] && b != [] && SortedByOrder(a) && SortedByOrder(b)
    requires forall i, j :: 0 <= i < j < |b| ==> b[i].order != b[j].order
    ensures SortedByOrder(a[1..]) && SortedByOrder(b[1..])
    ensures forall i, j :: 0 <= i < j < |b| - 1 ==> b[1..][i].order != b[1..][j].order
  {
    forall i, j | 0 <= i < j < |b| - 1 ensures b[1..][i].order != b[1..][j].order {
      assert b[1..][i] == b[i + 1] && b[1..][j] == b[j + 1];
    }
  }

  /** Removing equal heads leaves equal multisets. */
  lemma TailsSameEntries(a: seq<ImageEntry>, b: seq<ImageEntry>)
    requires a != [] && b != [] && a[0] == b[0] && multiset(a) == multiset(b)
    ensures multiset(a[1..]) == multiset(b[1..])
  {
    assert a == [a[0]] + a[1..];
    assert b == [b[0]] + b[1..];
    assert multiset(a[1..]) == multiset(a) - multiset{a[0]};
    assert multiset(b[1..]) == multiset(b) - multiset{b[0]};
  }

  /** However a registration's entries are rearranged in storage, the
      comparison list is the registered id list. */
  lemma RearrangedEntriesRoundTrip(ids: seq<string>, stored: seq<ImageEntry>)
    requires multiset(stored) == multiset(Register.ToEntries(ids))
    ensures StoredSequence(stored) == ids
  {
    var entries := Register.ToEntries(ids);
    assert SortedByOrder(entries);
    SortedPermutationsEqual(SortByOrder(stored), entries);
  }

  // ---------------------------------------------------------------------
  // The username step

  /** The objection `handleUsernameSubmit` raises: a username that is blank
      after trimming, then one without a record. There is no length check
      at login. */
  function LookupProblem(username: string, user: Option<User>): (r: Option<LoginError>)
    ensures r.None? <==> !IsBlank(username) && user.Some?
    ensures IsBlank(username) ==> r == Some(UsernameRequired)
    ensures !IsBlank(username) && user.None? ==> r == Some(UsernameNotFound)
  {
    if Trim(username) == [] then Some(UsernameRequired)
    else if user.None? then Some(UsernameNotFound)
    else None
  }

  // ---------------------------------------------------------------------
  // Evaluating one attempt

  /** What `handleLogin` makes of an attempt before the counter is touched:
      a message that stops it, or the verdict of the matcher. */
  datatype Evaluation = Rejected(error: LoginError) | Evaluated(valid: bool)

  /** The checks of `handleLogin` in order: the record is looked up again,
      the attempt must have the required size, the record must carry the
      credential of the method chosen at the username step, and then the
      matcher of that method decides. */
  function Evaluate(user: Option<User>, authMethod: AuthMethod, clickPoints: seq<ClickPoint>,
                    imageSequence: seq<string>): (r: Evaluation)
    ensures user.None? ==> r == Rejected(UserNotFound)
    ensures r.Evaluated? <==>
      (user.Some? && user.value.Method() == authMethod &&
       if authMethod == CuedClickPoints then |clickPoints| == REQUIRED_POINTS
       else |imageSequence| == REQUIRED_IMAGES)
    ensures r.Evaluated? && authMethod == CuedClickPoints ==>
      r.valid == Validation.ClickPointsMatch(clickPoints, user.value.clickPoints)
    ensures r.Evaluated? && authMethod == ImageSequence ==>
      r.valid == (imageSequence == StoredSequence(user.value.imageSequence))
  {
    if user.None? then Rejected(UserNotFound)
    else
      match authMethod
      case CuedClickPoints =>
        if |clickPoints| != REQUIRED_POINTS then Rejected(WrongPointCount)
        else if !user.value.ClickPointsUser? then Rejected(InvalidUserData)
        else Evaluated(Validation.ClickPointsMatch(clickPoints, user.value.clickPoints))
      case ImageSequence =>
        if |imageSequence| != REQUIRED_IMAGES then Rejected(WrongImageCount)
        else if !user.value.ImageSequenceUser? then Rejected(InvalidUserData)
        else Evaluated(imageSequence == StoredSequence(user.value.imageSequence))
  }

  /** Against a click-points record made at registration, a five-point
      attempt is accepted exactly when every point is within tolerance of
      the registered one; any other size is refused before matching. */
  lemma RegisteredClickPointsEvaluation(username: string, registered: seq<ClickPoint>,
                                        imageSequence: seq<string>, createdAt: string,
                                        attempt: seq<ClickPoint>, otherImages: seq<string>)
    requires Register.BuildUser(username, CuedClickPoints, registered, imageSequence, createdAt).Ready?
    ensures
      var user := Register.BuildUser(username, CuedClickPoints, registered, imageSequence, createdAt).user;
      Evaluate(Some(user), CuedClickPoints, attempt, otherImages) ==
        if |attempt| != REQUIRED_POINTS then Rejected(WrongPointCount)
        else Evaluated(Validation.ClickPointsMatch(attempt, registered))
  {
  }

  /** Against an image-sequence record made at registration, a four-image
      attempt is accepted exactly when it is the registered sequence. */
  lemma RegisteredImageSequenceEvaluation(username: string, clickPoints: seq<ClickPoint>,
                                          registered: seq<string>, createdAt: string,
                                          otherPoints: seq<ClickPoint>, attempt: seq<string>)
    requires Register.BuildUser(username, ImageSequence, clickPoints, registered, createdAt).Ready?
    ensures
      var user := Register.BuildUser(username, ImageSequence, clickPoints, registered, createdAt).user;
      Evaluate(Some(user), ImageSequence, otherPoints, attempt) ==
        if |attempt| != REQUIRED_IMAGES then Rejected(WrongImageCount)
        else Evaluated(attempt == registered)
  {
    RegistrationRoundTrip(registered);
  }

  /** A record of the other method is refused as invalid data, whatever the
      attempt, once the attempt has the required size. */
  lemma OtherMethodRecordRefused(user: User, authMethod: AuthMethod, clickPoints: seq<ClickPoint>,
                                 imageSequence: seq<string>)
    requires user.Method() != authMethod
    requires authMethod == CuedClickPoints ==> |clickPoints| == REQUIRED_POINTS
    requires authMethod == ImageSequence ==> |imageSequence| == REQUIRED_IMAGES
    ensures Evaluate(Some(user), authMethod, clickPoints, imageSequence) == Rejected(InvalidUserData)
  {
  }

  // ---------------------------------------------------------------------
  // The attempt policy

  /** What pressing Login does, seen from the counter: nothing while the
      button is disabled; a refusal that costs no attempt; a login; a failed
      match with attempts to spare; or the lockout. */
  datatype Outcome = Ignored | Refused(error: LoginError) | Granted | Retry(remaining: nat) | Locked

  /** The outcome of pressing Login after `attempts` failed matches, with the
      attempt complete (`ready`) or not, on an attempt evaluating to `ev`. */
  function Press(attempts: nat, ready: bool, ev: Evaluation): (o: Outcome)
    ensures o.Retry? ==> attempts + 1 < MAX_ATTEMPTS && o.remaining == MAX_ATTEMPTS - (attempts + 1)
    ensures o.Locked? <==> (ready && attempts < MAX_ATTEMPTS && ev == Evaluated(false) &&
      attempts + 1 >= MAX_ATTEMPTS)
    ensures attempts >= MAX_ATTEMPTS ==> o == Ignored
    ensures o == Ignored <==> !ready || attempts >= MAX_ATTEMPTS
    ensures o.Refused? <==> ready && attempts < MAX_ATTEMPTS && ev.Rejected?
    ensures o.Refused? ==> o.error == ev.error
    ensures o == Granted <==> ready && attempts < MAX_ATTEMPTS && ev == Evaluated(true)
  {
    if !ready || attempts >= MAX_ATTEMPTS then Ignored
    else if ev.Rejected? then Refused(ev.error)
    else if ev.valid then Granted
    else if attempts + 1 >= MAX_ATTEMPTS then Locked
    else Retry(MAX_ATTEMPTS - (attempts + 1))
  }

  /** The counter after that press: one more exactly on a failed match. */
  function AttemptsAfterPress(attempts: nat, ready: bool, ev: Evaluation): (n: nat)
    ensures n == attempts || n == attempts + 1
    ensures n == attempts + 1 <==> Press(attempts, ready, ev).Retry? || Press(attempts, ready, ev).Locked?
  {
    if ready && attempts < MAX_ATTEMPTS && ev == Evaluated(false) then attempts + 1 else attempts
  }

  /** A press never takes the counter above MAX_ATTEMPTS. */
  lemma PressKeepsAttemptsBounded(attempts: nat, ready: bool, ev: Evaluation)
    requires attempts <= MAX_ATTEMPTS
    ensures AttemptsAfterPress(attempts, ready, ev) <= MAX_ATTEMPTS
  {
  }

  /** Failed matches in a run of complete attempts. */
  function Failures(evs: seq<Evaluation>): nat {
    if evs == [] then 0
    else (if evs[0] == Evaluated(false) then 1 else 0) + Failures(evs[1..])
  }

  /** The counter after pressing Login on the complete attempts `evs`, one
      after the other, with no Back in between. */
  function AttemptsAfterPresses(attempts: nat, evs: seq<Evaluation>): nat
    decreases |evs|
  {
    if evs == [] then attempts
    else AttemptsAfterPresses(AttemptsAfterPress(attempts, true, evs[0]), evs[1..])
  }

  /** The counter counts failed matches and stops at MAX_ATTEMPTS. */
  lemma {:induction false} PressesCountFailures(attempts: nat, evs: seq<Evaluation>)
    requires attempts <= MAX_ATTEMPTS
    ensures AttemptsAfterPresses(attempts, evs) == Min(attempts + Failures(evs), MAX_ATTEMPTS)
    decreases |evs|
  {
    if evs != [] {
      PressesCountFailures(AttemptsAfterPress(attempts, true, evs[0]), evs[1..]);
    }
  }

  /** From a fresh counter, the third failed match locks the page; each
      earlier one reports the attempts left, and a later press is ignored. */
  lemma ThirdFailureLocks(ev: Evaluation)
    ensures Press(0, true, Evaluated(false)) == Retry(2)
    ensures Press(1, true, Evaluated(false)) == Retry(1)
    ensures Press(2, true, Evaluated(false)) == Locked
    ensures AttemptsAfterPresses(0, [Evaluated(false), Evaluated(false), Evaluated(false)]) == MAX_ATTEMPTS
    ensures Press(MAX_ATTEMPTS, true, ev) == Ignored
  {
    assert [Evaluated(false), Evaluated(false), Evaluated(false)][1..] == [Evaluated(false), Evaluated(false)];
    assert [Evaluated(false), Evaluated(false)][1..] == [Evaluated(false)];
  }

  /** `k` failed matches in a row. */
  function FailedRun(k: nat): (evs: seq<Evaluation>)
    ensures |evs| == k && Failures(evs) == k
  {
    if k == 0 then [] else
      var evs := [Evaluated(false)] + FailedRun(k - 1);
      assert evs[1..] == FailedRun(k - 1);
      evs
  }

  /** Fewer than MAX_ATTEMPTS failed matches followed by a match log in,
      however many failures there were. */
  lemma GrantedAfterFewerFailures(k: nat)
    requires k < MAX_ATTEMPTS
    ensures AttemptsAfterPresses(0, FailedRun(k)) == k
    ensures Press(AttemptsAfterPresses(0, FailedRun(k)), true, Evaluated(true)) == Granted
  {
    PressesCountFailures(0, FailedRun(k));
  }

  /** MAX_ATTEMPTS failed matches in a row lock the page: the next press is
      refused outright, whether or not its attempt would match. */
  lemma FailedRunLocks(ev: Evaluation)
    ensures AttemptsAfterPresses(0, FailedRun(MAX_ATTEMPTS)) == MAX_ATTEMPTS
    ensures Press(AttemptsAfterPresses(0, FailedRun(MAX_ATTEMPTS)), true, ev) == Ignored
  {
    PressesCountFailures(0, FailedRun(MAX_ATTEMPTS));
  }

  // ---------------------------------------------------------------------
  // The page

  /** The state of the login page. Its lookups of `storageUtils.getUser`
      are written out on the store's contents, as
      `FindUser(UsersOf(store.persisted), username)`, which is what
      `UserStore.GetUser` computes. */
  class LoginPage {
    const store: Storage.UserStore
    var username: string
    var clickPoints: seq<ClickPoint>
    var imageSequence: seq<string>
    var currentStep: Step
    var error: Option<LoginError>
    var attempts: nat
    var userAuthMethod: AuthMethod

    /** The counter stays within MAX_ATTEMPTS. */
    ghost predicate Valid()
      reads this
    {
      attempts <= MAX_ATTEMPTS
    }

    constructor (store: Storage.UserStore)
      ensures Valid() && this.store == store
      ensures username == "" && clickPoints == [] && imageSequence == []
      ensures currentStep == UsernameStep && error == None && attempts == 0
      ensures userAuthMethod == CuedClickPoints
    {
      this.store := store;
      username := "";
      clickPoints := [];
      imageSequence := [];
      currentStep := UsernameStep;
      error := None;
      attempts := 0;
      userAuthMethod := CuedClickPoints;
    }

    /** The `onChange` of the username input. */
    method SetUsername(value: string)
      modifies this
      ensures username == value && clickPoints == old(clickPoints) && imageSequence == old(imageSequence)
      ensures currentStep == old(currentStep) && error == old(error) && attempts == old(attempts)
      ensures userAuthMethod == old(userAuthMethod)
    {
      username := value;
    }

    /** `handleUsernameSubmit`: a blank username or one without a record
        stops at the username step; a record moves the page to the
        credential step with the record's method, which is also returned as
        the method the shared context is set to. The counter is untouched. */
    method HandleUsernameSubmit() returns (contextMethod: Option<AuthMethod>)
      modifies this
      ensures username == old(username) && clickPoints == old(clickPoints)
      ensures imageSequence == old(imageSequence) && attempts == old(attempts)
      ensures error ==
        LookupProblem(username, Storage.FindUser(Storage.UsersOf(store.persisted), username))
      ensures currentStep == if error.None? then AuthStep else old(currentStep)
      ensures userAuthMethod ==
        if error.None? then Storage.FindUser(Storage.UsersOf(store.persisted), username).value.Method()
        else old(userAuthMethod)
      ensures contextMethod == if error.None? then Some(userAuthMethod) else None
    {
      error := None;
      if Trim(username) == [] {
        error := Some(UsernameRequired);
        return None;
      }
      var user := Storage.FindUser(Storage.UsersOf(store.persisted), username);
      if user.None? {
        error := Some(UsernameNotFound);
        return None;
      }
      userAuthMethod := user.value.Method();
      currentStep := AuthStep;
      contextMethod := Some(userAuthMethod);
    }

    /** `onComplete` of the click-point collector. */
    method HandleClickPointsComplete(points: seq<ClickPoint>)
      modifies this
      ensures clickPoints == points && imageSequence == old(imageSequence) && username == old(username)
      ensures currentStep == old(currentStep) && error == old(error) && attempts == old(attempts)
      ensures userAuthMethod == old(userAuthMethod)
    {
      clickPoints := points;
    }

    /** `onComplete` of the image selector. */
    method HandleImageSequenceComplete(imageIds: seq<string>)
      modifies this
      ensures imageSequence == imageIds && clickPoints == old(clickPoints) && username == old(username)
      ensures currentStep == old(currentStep) && error == old(error) && attempts == old(attempts)
      ensures userAuthMethod == old(userAuthMethod)
    {
      imageSequence := imageIds;
    }

    /** `isReadyToLogin`: the attempt of the record's method is complete. */
    predicate IsReadyToLogin()
      reads this
      ensures IsReadyToLogin() ==> forall u ::
        Evaluate(u, userAuthMethod, clickPoints, imageSequence) != Rejected(WrongPointCount) &&
        Evaluate(u, userAuthMethod, clickPoints, imageSequence) != Rejected(WrongImageCount)
      ensures !IsReadyToLogin() ==> forall u: User ::
        Evaluate(Some(u), userAuthMethod, clickPoints, imageSequence) ==
          if userAuthMethod == CuedClickPoints then Rejected(WrongPointCount) else Rejected(WrongImageCount)
    {
      if userAuthMethod == CuedClickPoints then |clickPoints| == REQUIRED_POINTS
      else |imageSequence| == REQUIRED_IMAGES
    }

    /** What the current attempt evaluates to against the stored record. */
    ghost function CurrentEvaluation(): Evaluation
      reads this, store
    {
      Evaluate(Storage.FindUser(Storage.UsersOf(store.persisted), username), userAuthMethod,
               clickPoints, imageSequence)
    }

    /** `handleLogin`: a refused attempt only sets its message; a match logs
        in and leaves the counter alone; a failed match adds one to the
        counter, clears both attempts and either reports the attempts left
        or, at MAX_ATTEMPTS, reports the lockout and schedules the move to
        the landing page. */
    method HandleLogin() returns (effect: Effect)
      modifies this
      ensures username == old(username) && currentStep == old(currentStep)
      ensures userAuthMethod == old(userAuthMethod)
      ensures old(CurrentEvaluation()).Rejected? ==>
        error == Some(old(CurrentEvaluation()).error) && effect == NoEffect &&
        attempts == old(attempts) && clickPoints == old(clickPoints) && imageSequence == old(imageSequence)
      ensures old(CurrentEvaluation()) == Evaluated(true) ==>
        effect == LoggedIn(username, userAuthMethod) && error == old(error) &&
        attempts == old(attempts) && clickPoints == old(clickPoints) && imageSequence == old(imageSequence)
      ensures old(CurrentEvaluation()) == Evaluated(false) ==>
        attempts == old(attempts) + 1 && clickPoints == [] && imageSequence == [] &&
        (if attempts >= MAX_ATTEMPTS then error == Some(MaxAttemptsReached) && effect == ToLandingAfterDelay
         else error == Some(Mismatch(userAuthMethod, MAX_ATTEMPTS - attempts)) && effect == NoEffect)
    {
      var user := Storage.FindUser(Storage.UsersOf(store.persisted), username);
      if user.None? {
        error := Some(UserNotFound);
        return NoEffect;
      }
      var isValid := false;
      if userAuthMethod == CuedClickPoints {
        if |clickPoints| != REQUIRED_POINTS {
          error := Some(WrongPointCount);
          return NoEffect;
        }
        if !user.value.ClickPointsUser? {
          error := Some(InvalidUserData);
          return NoEffect;
        }
        isValid := Validation.ValidateClickPoints(clickPoints, user.value.clickPoints);
      } else {
        if |imageSequence| != REQUIRED_IMAGES {
          error := Some(WrongImageCount);
          return NoEffect;
        }
        if !user.value.ImageSequenceUser? {
          error := Some(InvalidUserData);
          return NoEffect;
        }
        var storedSequence := StoredSequence(user.value.imageSequence);
        isValid := ImageUtils.ValidateImageSequence(imageSequence, storedSequence);
      }
      if isValid {
        return LoggedIn(username, userAuthMethod);
      }
      var newAttempts := attempts + 1;
      attempts := newAttempts;
      if newAttempts >= MAX_ATTEMPTS {
        error := Some(MaxAttemptsReached);
        clickPoints := [];
        imageSequence := [];
        effect := ToLandingAfterDelay;
      } else {
        error := Some(Mismatch(userAuthMethod, MAX_ATTEMPTS - newAttempts));
        clickPoints := [];
        imageSequence := [];
        effect := NoEffect;
      }
    }

    /** `handleBack`: from the credential step, back to the username step
        with both attempts, the message and the counter cleared; from the
        username step, to the landing page. */
    method HandleBack() returns (effect: Effect)
      modifies this
      ensures username == old(username) && userAuthMethod == old(userAuthMethod)
      ensures old(currentStep) == AuthStep ==>
        effect == NoEffect && currentStep == UsernameStep && clickPoints == [] &&
        imageSequence == [] && error == None && attempts == 0
      ensures old(currentStep) == UsernameStep ==>
        effect == ToLanding && currentStep == old(currentStep) && clickPoints == old(clickPoints) &&
        imageSequence == old(imageSequence) && error == old(error) && attempts == old(attempts)
    {
      if currentStep == AuthStep {
        currentStep := UsernameStep;
        clickPoints := [];
        imageSequence := [];
        error := None;
        attempts := 0;
        effect := NoEffect;
      } else {
        effect := ToLanding;
      }
    }

    /** The Login button, disabled while the attempt is incomplete and once
        the counter reached MAX_ATTEMPTS. The counter moves as the attempt
        policy says, and the effect is the login exactly on `Granted` and the
        scheduled move exactly on `Locked`. */
    method PressLogin() returns (effect: Effect)
      requires Valid()
      modifies this
      ensures Valid()
      ensures attempts == AttemptsAfterPress(old(attempts), old(IsReadyToLogin()), old(CurrentEvaluation()))
      ensures effect == (match Press(old(attempts), old(IsReadyToLogin()), old(CurrentEvaluation()))
                         case Granted => LoggedIn(username, userAuthMethod)
                         case Locked => ToLandingAfterDelay
                         case _ => NoEffect)
      ensures username == old(username) && currentStep == old(currentStep)
      ensures userAuthMethod == old(userAuthMethod)
      ensures
        var o := Press(old(attempts), old(IsReadyToLogin()), old(CurrentEvaluation()));
        && (o.Ignored? || o.Refused? || o.Granted? ==>
              clickPoints == old(clickPoints) && imageSequence == old(imageSequence))
        && (o.Retry? || o.Locked? ==> clickPoints == [] && imageSequence == [])
        && (o.Ignored? || o.Granted? ==> error == old(error))
        && (o.Refused? ==> error == Some(o.error))
        && (o.Retry? ==> error == Some(Mismatch(userAuthMethod, o.remaining)))
        && (o.Locked? ==> error == Some(MaxAttemptsReached))
    {
      if !IsReadyToLogin() || attempts >= MAX_ATTEMPTS {
        return NoEffect;
      }
      effect := HandleLogin();
    }

    /** The Back button, disabled once the counter reached MAX_ATTEMPTS: a
        locked page can only be left by the scheduled move. */
    method PressBack() returns (effect: Effect)
      requires Valid()
      modifies this
      ensures Valid()
      ensures username == old(username) && userAuthMethod == old(userAuthMethod)
      ensures old(attempts) >= MAX_ATTEMPTS ==>
        effect == NoEffect && attempts == old(attempts) && currentStep == old(currentStep) &&
        clickPoints == old(clickPoints) && imageSequence == old(imageSequence) && error == old(error)
      ensures old(attempts) < MAX_ATTEMPTS && old(currentStep) == AuthStep ==>
        effect == NoEffect && currentStep == UsernameStep && clickPoints == [] &&
        imageSequence == [] && error == None && attempts == 0
      ensures old(attempts) < MAX_ATTEMPTS && old(currentStep) == UsernameStep ==>
        effect == ToLanding && attempts == old(attempts) && currentStep == old(currentStep) &&
        clickPoints == old(clickPoints) && imageSequence == old(imageSequence) && error == old(error)
    {
      if attempts >= MAX_ATTEMPTS {
        return NoEffect;
      }
      effect := HandleBack();
    }
  }
}
