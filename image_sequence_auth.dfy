/** The image-sequence selector: a grid of the image pool (shuffled when
    logging in) on which the user picks REQUIRED_IMAGES images in order. */
module ImageSequenceAuth {
  import opened AuthTypes
  import ImageUtils

  /** The ids of the image pool, in the order of the data file. */
  const IMAGE_POOL: seq<string> :=
    ["img-1", "img-2", "img-3", "img-4", "img-5", "img-6",
     "img-7", "img-8", "img-9", "img-10", "img-11", "img-12"]

  datatype Mode = RegisterMode | LoginMode

  /** No id occurs twice. */
  predicate NoDuplicates(s: seq<string>) {
    forall i, j :: 0 <= i < j < |s| ==> s[i] != s[j]
  }

  /** `s.filter(x => x !== id)`. */
  function Without(s: seq<string>, id: string): (r: seq<string>)
    ensures |r| <= |s|
    ensures forall x :: x in r <==> x in s && x != id
  {
    if s == [] then []
    else (if s[0] == id then [] else [s[0]]) + Without(s[1..], id)
  }

  /** Filtering out an id that is not there changes nothing. */
  lemma {:induction false} WithoutAbsent(s: seq<string>, id: string)
    requires id !in s
    ensures Without(s, id) == s
  {
    if s != [] {
      WithoutAbsent(s[1..], id);
      assert [s[0]] + s[1..] == s;
    }
  }

  /** In a list without duplicates, filtering out the id at position `k`
      removes exactly that position and keeps the others in order. */
  lemma {:induction false} WithoutRemovesPosition(s: seq<string>, k: nat)
    requires NoDuplicates(s) && k < |s|
    ensures Without(s, s[k]) == s[..k] + s[k + 1..]
  {
    if k == 0 {
      assert s[0] !in s[1..];
      WithoutAbsent(s[1..], s[0]);
    } else {
      assert s[1..][k - 1] == s[k];
      WithoutRemovesPosition(s[1..], k - 1);
      assert s[..k] == [s[0]] + s[1..][..k - 1];
      assert s[k + 1..] == s[1..][k..];
    }
  }

  /** Filtering keeps a list free of duplicates. */
  lemma {:induction false} WithoutKeepsNoDuplicates(s: seq<string>, id: string)
    requires NoDuplicates(s)
    ensures NoDuplicates(Without(s, id))
  {
    if s != [] {
      WithoutKeepsNoDuplicates(s[1..], id);
      var rest := Without(s[1..], id);
      assert s[0] !in rest;
    }
  }

  /** The selection after a click on `imageId`: nothing once REQUIRED_IMAGES
      are selected, otherwise a selected image is removed and an unselected
      one appended. */
  function SelectionAfterClick(selected: seq<string>, imageId: string): (r: seq<string>)
    ensures |selected| >= REQUIRED_IMAGES ==> r == selected
    ensures |selected| < REQUIRED_IMAGES ==> (imageId in r <==> imageId !in selected)
    ensures forall x :: x != imageId ==> (x in r <==> x in selected)
  {
    if |selected| >= REQUIRED_IMAGES then selected
    else if imageId in selected then Without(selected, imageId)
    else selected + [imageId]
  }

  /** A click keeps the selection free of duplicates and at most
      REQUIRED_IMAGES long; removing a selected image keeps the others in
      their relative order. */
  lemma ClickKeepsSelectionWellFormed(selected: seq<string>, imageId: string)
    requires NoDuplicates(selected) && |selected| <= REQUIRED_IMAGES
    ensures NoDuplicates(SelectionAfterClick(selected, imageId))
    ensures |SelectionAfterClick(selected, imageId)| <= REQUIRED_IMAGES
    ensures |selected| < REQUIRED_IMAGES && imageId in selected ==>
      exists k :: 0 <= k < |selected| && selected[k] == imageId &&
        SelectionAfterClick(selected, imageId) == selected[..k] + selected[k + 1..]
  {
    if |selected| < REQUIRED_IMAGES {
      if imageId in selected {
        WithoutKeepsNoDuplicates(selected, imageId);
        var k :| 0 <= k < |selected| && selected[k] == imageId;
        WithoutRemovesPosition(selected, k);
      }
    }
  }

  /** `s.indexOf(x)`: the first position holding `x`, or -1. */
  function IndexOf(s: seq<string>, x: string): (r: int)
    ensures -1 <= r < |s|
    ensures r == -1 <==> x !in s
    ensures r >= 0 ==> s[r] == x && x !in s[..r]
  {
    if s == [] then -1
    else if s[0] == x then 0
    else
      var i := IndexOf(s[1..], x);
      if i == -1 then -1
      else
        assert s[..i + 1] == [s[0]] + s[1..][..i];
        i + 1
  }

  /** The pool is free of duplicates. */
  lemma PoolHasNoDuplicates()
    ensures NoDuplicates(IMAGE_POOL) && |IMAGE_POOL| == 12
  {
  }

  /** The `selectedImages` and `shuffledImages` state of the component. */
  class ImageSequenceSelector {
    const mode: Mode
    var selectedImages: seq<string>
    var shuffledImages: seq<string>

    /** The selection never holds an image twice nor more than REQUIRED_IMAGES. */
    ghost predicate Valid()
      reads this
    {
      NoDuplicates(selectedImages) && |selectedImages| <= REQUIRED_IMAGES
    }

    /** Mounting the component; in login mode the effect replaces the grid by
        a shuffle of the pool, drawn with `randoms` as the values of
        `Math.random()`. */
    constructor (mode: Mode, randoms: seq<real>)
      requires |IMAGE_POOL| <= |randoms| && ImageUtils.RandomsInRange(randoms)
      ensures Valid() && this.mode == mode && selectedImages == []
      ensures mode == RegisterMode ==> shuffledImages == IMAGE_POOL
      ensures mode == LoginMode ==> shuffledImages == ImageUtils.Shuffled(IMAGE_POOL, randoms)
      ensures multiset(shuffledImages) == multiset(IMAGE_POOL)
    {
      this.mode := mode;
      selectedImages := [];
      if mode == LoginMode {
        var pool := new string[|IMAGE_POOL|](k requires 0 <= k < |IMAGE_POOL| => IMAGE_POOL[k]);
        assert pool[..] == IMAGE_POOL;
        var shuffled := ImageUtils.ShuffleArray(pool, randoms);
        shuffledImages := shuffled[..];
      } else {
        shuffledImages := IMAGE_POOL;
      }
    }

    /** `handleImageClick`: the returned value is the argument of
        `onComplete`, present exactly when this click appended the image that
        completed the selection. */
    method HandleImageClick(imageId: string) returns (completed: Option<seq<string>>)
      requires Valid()
      modifies this
      ensures Valid() && shuffledImages == old(shuffledImages)
      ensures selectedImages == SelectionAfterClick(old(selectedImages), imageId)
      ensures |old(selectedImages)| >= REQUIRED_IMAGES ==> selectedImages == old(selectedImages)
      ensures |old(selectedImages)| < REQUIRED_IMAGES && imageId !in old(selectedImages) ==>
        selectedImages == old(selectedImages) + [imageId]
      ensures |old(selectedImages)| < REQUIRED_IMAGES && imageId in old(selectedImages) ==>
        exists k :: 0 <= k < |old(selectedImages)| && old(selectedImages)[k] == imageId &&
          selectedImages == old(selectedImages)[..k] + old(selectedImages)[k + 1..]
      ensures completed.Some? <==> (|old(selectedImages)| < REQUIRED_IMAGES &&
        imageId !in old(selectedImages) && |selectedImages| == REQUIRED_IMAGES)
      ensures completed.Some? ==> completed.value == selectedImages
    {
      ClickKeepsSelectionWellFormed(selectedImages, imageId);
      completed := None;
      if |selectedImages| >= REQUIRED_IMAGES {
        return;
      }
      if imageId in selectedImages {
        var k :| 0 <= k < |selectedImages| && selectedImages[k] == imageId;
        WithoutRemovesPosition(selectedImages, k);
        selectedImages := Without(selectedImages, imageId);
      } else {
        var newSelection := selectedImages + [imageId];
        selectedImages := newSelection;
        if |newSelection| == REQUIRED_IMAGES {
          completed := Some(newSelection);
        }
      }
    }

    /** `handleReset`: empty the selection. */
    method HandleReset()
      modifies this
      ensures Valid() && selectedImages == [] && shuffledImages == old(shuffledImages)
    {
      selectedImages := [];
    }

    /** `getImageOrder`: the 1-based position of a selected image, or nothing
        for an image that is not selected. */
    function GetImageOrder(imageId: string): (r: Option<nat>)
      reads this
      ensures r.None? <==> imageId !in selectedImages
      ensures r.Some? ==> (1 <= r.value <= |selectedImages| &&
        selectedImages[r.value - 1] == imageId && imageId !in selectedImages[..r.value - 1])
    {
      var index := IndexOf(selectedImages, imageId);
      if index != -1 then Some(index + 1) else None
    }
  }

  /** The login grid shows every image of the pool exactly once. */
  lemma ShuffledGridShowsPool(randoms: seq<real>)
    requires |IMAGE_POOL| <= |randoms| && ImageUtils.RandomsInRange(randoms)
    ensures |ImageUtils.Shuffled(IMAGE_POOL, randoms)| == |IMAGE_POOL|
    ensures forall id :: id in ImageUtils.Shuffled(IMAGE_POOL, randoms) <==> id in IMAGE_POOL
    ensures NoDuplicates(ImageUtils.Shuffled(IMAGE_POOL, randoms))
  {
    var grid := ImageUtils.Shuffled(IMAGE_POOL, randoms);
    ImageUtils.ShuffledIsPermutation(IMAGE_POOL, randoms);
    PoolHasNoDuplicates();
    PermutationKeepsNoDuplicates(IMAGE_POOL, grid);
  }

  /** A list with the same multiset as a duplicate-free list is duplicate-free. */
  lemma PermutationKeepsNoDuplicates(s: seq<string>, t: seq<string>)
    requires NoDuplicates(s) && multiset(t) == multiset(s)
    ensures NoDuplicates(t)
  {
    forall x ensures multiset(s)[x] <= 1 {
      CountAtMostOne(s, x);
    }
    forall i, j | 0 <= i < j < |t| ensures t[i] != t[j] {
      if t[i] == t[j] {
        TwoPositionsCountTwice(t, i, j);
        assert false;
      }
    }
  }

  lemma {:induction false} CountAtMostOne(s: seq<string>, x: string)
    requires NoDuplicates(s)
    ensures multiset(s)[x] <= 1
  {
    if s != [] {
      assert s == [s[0]] + s[1..];
      CountAtMostOne(s[1..], x);
      if s[0] == x {
        assert x !in s[1..];
        assert multiset(s[1..])[x] == 0;
      }
    }
  }

  lemma TwoPositionsCountTwice(t: seq<string>, i: nat, j: nat)
    requires i < j < |t| && t[i] == t[j]
    ensures multiset(t)[t[i]] >= 2
  {
    assert t == t[..j] + [t[j]] + t[j + 1..];
    assert t[i] in t[..j];
    assert multiset(t) == multiset(t[..j]) + multiset{t[j]} + multiset(t[j + 1..]);
  }
}
