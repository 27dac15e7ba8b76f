/** The registration page: validates the username, collects the credential
    with the method held by the shared authentication context, builds the
    user record and hands it to the store. */
module Register {
  import opened AuthTypes
  import opened Text
  import Storage

  /** Shortest accepted username, counted on the untrimmed input. */
  const MIN_USERNAME_LENGTH: nat := 3

  /** The messages the page can show, as an enumeration. */
  datatype RegisterError =
    | UsernameRequired
    | UsernameTooShort
    | UsernameTaken
    | WrongPointCount
    | WrongImageCount
    | RegistrationFailed

  /** The first objection to a username, in the order the page checks them:
      blank after trimming, shorter than three characters before trimming,
      already taken. */
  function UsernameProblem(username: string, taken: bool): (r: Option<RegisterError>)
    ensures r.None? <==> !IsBlank(username) && |username| >= MIN_USERNAME_LENGTH && !taken
    ensures IsBlank(username) ==> r == Some(UsernameRequired)
    ensures !IsBlank(username) && |username| < MIN_USERNAME_LENGTH ==> r == Some(UsernameTooShort)
    ensures !IsBlank(username) && |username| >= MIN_USERNAME_LENGTH && taken ==> r == Some(UsernameTaken)
  {
    if Trim(username) == [] then Some(UsernameRequired)
    else if |username| < MIN_USERNAME_LENGTH then Some(UsernameTooShort)
    else if taken then Some(UsernameTaken)
    else None
  }

  /** The length is measured before trimming: two spaces and a letter pass. */
  lemma PaddedShortUsernameAccepted()
    ensures UsernameProblem("  a", false) == None
    ensures UsernameProblem("a", false) == Some(UsernameTooShort)
    ensures UsernameProblem("   ", false) == Some(UsernameRequired)
  {
    assert !IsWhitespace("  a"[2]);
    assert IsBlank("   ");
  }

  /** The selection as stored entries: each image keeps its position as its
      `order`, so the orders run 0, 1, 2, ... and are strictly increasing. */
  function ToEntries(imageSequence: seq<string>): (entries: seq<ImageEntry>)
    ensures |entries| == |imageSequence|
    ensures forall i :: 0 <= i < |entries| ==>
      entries[i].imageId == imageSequence[i] && entries[i].order == i
    ensures forall i, j :: 0 <= i < j < |entries| ==> entries[i].order < entries[j].order
  {
    seq(|imageSequence|, i requires 0 <= i < |imageSequence| => ImageEntry(imageSequence[i], i))
  }

  /** The record construction of `handleRegister`, or the cardinality error
      that stops it. */
  datatype Draft = Ready(user: User) | Incomplete(error: RegisterError)

  function BuildUser(username: string, authMethod: AuthMethod, clickPoints: seq<ClickPoint>,
                     imageSequence: seq<string>, createdAt: string): (r: Draft)
    ensures r.Ready? <==>
      (if authMethod == CuedClickPoints then |clickPoints| == REQUIRED_POINTS
       else |imageSequence| == REQUIRED_IMAGES)
    ensures r.Incomplete? ==>
      r.error == if authMethod == CuedClickPoints then WrongPointCount else WrongImageCount
    ensures r.Ready? ==> (r.user.username == username && r.user.Method() == authMethod &&
      r.user.createdAt == createdAt)
    ensures r.Ready? && r.user.ClickPointsUser? ==> r.user.clickPoints == clickPoints
    ensures r.Ready? && r.user.ImageSequenceUser? ==>
      |r.user.imageSequence| == REQUIRED_IMAGES &&
      forall i :: 0 <= i < |imageSequence| ==>
        r.user.imageSequence[i].imageId == imageSequence[i] && r.user.imageSequence[i].order == i
  {
    match authMethod
    case CuedClickPoints =>
      if |clickPoints| != REQUIRED_POINTS then Incomplete(WrongPointCount)
      else Ready(ClickPointsUser(username, clickPoints, createdAt))
    case ImageSequence =>
      if |imageSequence| != REQUIRED_IMAGES then Incomplete(WrongImageCount)
      else Ready(ImageSequenceUser(username, ToEntries(imageSequence), createdAt))
  }

  /** The state of the registration page. `authMethod` is read from the
      shared authentication context: it starts as cued click points and only
      the login page's username step changes it, to the method of the record
      it found. */
  class RegisterPage {
    const store: Storage.UserStore
    const authMethod: AuthMethod
    var username: string
    var clickPoints: seq<ClickPoint>
    var imageSequence: seq<string>
    var currentStep: Step
    var error: Option<RegisterError>
    var success: bool

    constructor (store: Storage.UserStore, authMethod: AuthMethod)
      ensures this.store == store && this.authMethod == authMethod
      ensures username == "" && clickPoints == [] && imageSequence == []
      ensures currentStep == UsernameStep && error == None && !success
    {
      this.store := store;
      this.authMethod := authMethod;
      username := "";
      clickPoints := [];
      imageSequence := [];
      currentStep := UsernameStep;
      error := None;
      success := false;
    }

    /** The `onChange` of the username input. */
    method SetUsername(value: string)
      modifies this
      ensures username == value
      ensures clickPoints == old(clickPoints) && imageSequence == old(imageSequence)
      ensures currentStep == old(currentStep) && error == old(error) && success == old(success)
    {
      username := value;
    }

    /** `handleUsernameSubmit`: clears the message, reports the first problem
        with the username, or moves on to the credential step. */
    method HandleUsernameSubmit()
      modifies this
      ensures username == old(username) && clickPoints == old(clickPoints)
      ensures imageSequence == old(imageSequence) && success == old(success)
      ensures error == UsernameProblem(username, store.UserExists(username))
      ensures currentStep == if error.None? then AuthStep else old(currentStep)
    {
      error := None;
      if Trim(username) == [] {
        error := Some(UsernameRequired);
        return;
      }
      if |username| < MIN_USERNAME_LENGTH {
        error := Some(UsernameTooShort);
        return;
      }
      if store.UserExists(username) {
        error := Some(UsernameTaken);
        return;
      }
      currentStep := AuthStep;
    }

    /** `onComplete` of the click-point collector. */
    method HandleClickPointsComplete(points: seq<ClickPoint>)
      modifies this
      ensures clickPoints == points && imageSequence == old(imageSequence) && username == old(username)
      ensures currentStep == old(currentStep) && error == old(error) && success == old(success)
    {
      clickPoints := points;
    }

    /** `onComplete` of the image selector. */
    method HandleImageSequenceComplete(imageIds: seq<string>)
      modifies this
      ensures imageSequence == imageIds && clickPoints == old(clickPoints) && username == old(username)
      ensures currentStep == old(currentStep) && error == old(error) && success == old(success)
    {
      imageSequence := imageIds;
    }

    /** `isReadyToRegister`: the credential of the chosen method is complete. */
    predicate IsReadyToRegister()
      reads this
      ensures forall createdAt :: IsReadyToRegister() <==>
        BuildUser(username, authMethod, clickPoints, imageSequence, createdAt).Ready?
    {
      if authMethod == CuedClickPoints then |clickPoints| == REQUIRED_POINTS
      else |imageSequence| == REQUIRED_IMAGES
    }

    /** `handleRegister`: nothing is saved unless the credential has the
        required size; otherwise the record is built and saved. A saved
        record sets `success` and asks for the move to the login page
        (`navigateToLogin`, after the page's delay); a refused save sets the
        failure message. `createdAt` is the clock reading, `writeFails` the
        outcome of the storage write. */
    method HandleRegister(createdAt: string, writeFails: bool) returns (navigateToLogin: bool)
      modifies this, store
      ensures username == old(username) && clickPoints == old(clickPoints)
      ensures imageSequence == old(imageSequence) && currentStep == old(currentStep)
      ensures old(store.Valid()) ==> store.Valid()
      ensures
        var draft := BuildUser(username, authMethod, clickPoints, imageSequence, createdAt);
        var saved := draft.Ready? && !Storage.HasUsername(old(store.GetUsers()), username) && !writeFails;
        && navigateToLogin == saved
        && (draft.Incomplete? ==> error == Some(draft.error))
        && (saved ==> (success && error == old(error) &&
              store.persisted == Storage.Stored(old(store.GetUsers()) + [draft.user])))
        && (draft.Ready? && !saved ==> error == Some(RegistrationFailed))
        && (!saved ==> success == old(success) && store.persisted == old(store.persisted))
    {
      var draft := BuildUser(username, authMethod, clickPoints, imageSequence, createdAt);
      if draft.Incomplete? {
        error := Some(draft.error);
        return false;
      }
      var saved := store.SaveUser(draft.user, writeFails);
      if saved {
        success := true;
        navigateToLogin := true;
      } else {
        error := Some(RegistrationFailed);
        navigateToLogin := false;
      }
    }

    /** The Register button: disabled while the credential is incomplete and
        after a successful registration, so a record is saved at most once
        per page. */
    method PressRegister(createdAt: string, writeFails: bool) returns (navigateToLogin: bool)
      modifies this, store
      ensures username == old(username) && clickPoints == old(clickPoints)
      ensures imageSequence == old(imageSequence) && currentStep == old(currentStep)
      ensures old(store.Valid()) ==> store.Valid()
      ensures old(IsReadyToRegister()) && !old(success) ==>
        var user := BuildUser(username, authMethod, clickPoints, imageSequence, createdAt).user;
        var saved := !Storage.HasUsername(old(store.GetUsers()), username) && !writeFails;
        && navigateToLogin == saved
        && (saved ==> (success && error == old(error) &&
              store.persisted == Storage.Stored(old(store.GetUsers()) + [user])))
        && (!saved ==> (!success && error == Some(RegistrationFailed) &&
              store.persisted == old(store.persisted)))
      ensures !old(IsReadyToRegister()) || old(success) ==>
        !navigateToLogin && store.persisted == old(store.persisted) &&
        error == old(error) && success == old(success)
      ensures old(success) ==> success
      ensures navigateToLogin ==> (success && !old(success) &&
        store.persisted != old(store.persisted))
    {
      if !IsReadyToRegister() || success {
        return false;
      }
      navigateToLogin := HandleRegister(createdAt, writeFails);
    }
  }
}
