/** Data model shared by the matchers, the credential store and the pages:
    the click point, the two kinds of user record and the scheme constants. */
module AuthTypes {

  datatype Option<T> = None | Some(value: T)

  function Min(a: int, b: int): int {
    if a <= b then a else b
  }

  /** A click on the cue image. `x` and `y` are percentages of the displayed
      width and height of the image, `imageIndex` says which image was clicked. */
  datatype ClickPoint = ClickPoint(x: real, y: real, imageIndex: int)

  /** Largest Euclidean distance, in percentage units, at which an attempted
      click still counts as the stored one. */
  const TOLERANCE_RADIUS: real := 5.0

  /** Number of click points in a cued-click-points credential. */
  const REQUIRED_POINTS: nat := 5

  /** Number of images in an image-sequence credential. The pages import this
      constant from the type module, which does not define it; an
      image-sequence credential is four images. */
  const REQUIRED_IMAGES: nat := 4

  /** The two interchangeable authentication schemes. */
  datatype AuthMethod = CuedClickPoints | ImageSequence

  /** One selected image of an image-sequence credential, with its position. */
  datatype ImageEntry = ImageEntry(imageId: string, order: int)

  /** A stored user record, tagged by its authentication method: a
      click-points record carries the click points, an image-sequence record
      the selected images with their positions. */
  datatype User =
    | ClickPointsUser(username: string, clickPoints: seq<ClickPoint>, createdAt: string)
    | ImageSequenceUser(username: string, imageSequence: seq<ImageEntry>, createdAt: string)
  {
    /** The `authMethod` field of the record. */
    function Method(): AuthMethod {
      if ClickPointsUser? then CuedClickPoints else ImageSequence
    }
  }

  /** The two steps of the login and registration pages. */
  datatype Step = UsernameStep | AuthStep
}
