/** The Fisher-Yates shuffle of the image grid and the exact sequence matcher. */
module ImageUtils {

  /** What `Math.random()` may return: a real in [0, 1). */
  predicate RandomsInRange(randoms: seq<real>) {
    forall k :: 0 <= k < |randoms| ==> 0.0 <= randoms[k] < 1.0
  }

  /** `Math.floor(r * (i + 1))`: the position drawn at loop index `i`. */
  function Draw(r: real, i: nat): (j: nat)
    requires 0.0 <= r < 1.0
    ensures j <= i
  {
    var t := r * (i + 1) as real;
    assert 0.0 <= t < (i + 1) as real;
    t.Floor
  }

  /** `s` with positions `i` and `j` exchanged. */
  function Swap<T>(s: seq<T>, i: nat, j: nat): (r: seq<T>)
    requires i < |s| && j < |s|
    ensures |r| == |s| && multiset(r) == multiset(s)
    ensures r[i] == s[j] && r[j] == s[i]
    ensures forall k :: 0 <= k < |s| && k != i && k != j ==> r[k] == s[k]
  {
    s[i := s[j]][j := s[i]]
  }

  /** The copy after the loop bodies for indices `i`, `i - 1`, ..., 1, where
      the body for index `i` uses `randoms[i]`. */
  function ShuffleFrom<T>(s: seq<T>, randoms: seq<real>, i: int): (r: seq<T>)
    requires i < |s| && i < |randoms| && RandomsInRange(randoms)
    ensures |r| == |s| && multiset(r) == multiset(s)
    decreases i
  {
    if i <= 0 then s
    else ShuffleFrom(Swap(s, i, Draw(randoms[i], i)), randoms, i - 1)
  }

  /** The result of `shuffleArray(s)` when `Math.random()` returned
      `randoms[i]` in the iteration for index `i`. */
  function Shuffled<T>(s: seq<T>, randoms: seq<real>): seq<T>
    requires |s| <= |randoms| && RandomsInRange(randoms)
  {
    ShuffleFrom(s, randoms, |s| - 1)
  }

  /** The shuffle returns a permutation of its input, whatever the draws. */
  lemma ShuffledIsPermutation<T>(s: seq<T>, randoms: seq<real>)
    requires |s| <= |randoms| && RandomsInRange(randoms)
    ensures |Shuffled(s, randoms)| == |s|
    ensures multiset(Shuffled(s, randoms)) == multiset(s)
    ensures forall x :: x in Shuffled(s, randoms) <==> x in s
  {
    var r := Shuffled(s, randoms);
    forall x ensures x in r <==> x in s {
      assert x in r <==> x in multiset(r);
      assert x in s <==> x in multiset(s);
    }
  }

  /** Inputs of length 0 or 1 come back unchanged: the loop does not run. */
  lemma ShortInputUnchanged<T>(s: seq<T>, randoms: seq<real>)
    requires |s| <= 1 && |s| <= |randoms| && RandomsInRange(randoms)
    ensures Shuffled(s, randoms) == s
  {
  }

  /** `shuffleArray`: copies `items` and swaps inside the copy from the last
      index down to 1, position `i` with a drawn position `j` in [0, i].
      `items` itself is not modified (the method may not modify it). */
  method ShuffleArray<T>(items: array<T>, randoms: seq<real>) returns (shuffled: array<T>)
    requires items.Length <= |randoms| && RandomsInRange(randoms)
    ensures fresh(shuffled)
    ensures shuffled[..] == Shuffled(items[..], randoms)
  {
    var copy := items[..];
    shuffled := new T[|copy|](k requires 0 <= k < |copy| => copy[k]);
    assert shuffled[..] == copy;
    var i := shuffled.Length - 1;
    while i > 0
      invariant -1 <= i < shuffled.Length
      invariant shuffled.Length == |copy|
      invariant ShuffleFrom(shuffled[..], randoms, i) == Shuffled(copy, randoms)
    {
      var j := Draw(randoms[i], i);
      ghost var before := shuffled[..];
      assert ShuffleFrom(before, randoms, i) == ShuffleFrom(Swap(before, i, j), randoms, i - 1);
      shuffled[i], shuffled[j] := shuffled[j], shuffled[i];
      assert shuffled[..] == before[i := before[j]][j := before[i]];
      i := i - 1;
    }
  }

  /** `validateImageSequence`: a length check, then one pass that stops at
      the first position holding another id. The result is sequence equality. */
  method ValidateImageSequence(attemptedSequence: seq<string>, storedSequence: seq<string>)
    returns (valid: bool)
    ensures valid <==> attemptedSequence == storedSequence
    ensures |attemptedSequence| != |storedSequence| ==> !valid
  {
    if |attemptedSequence| != |storedSequence| {
      return false;
    }
    for i := 0 to |attemptedSequence|
      invariant attemptedSequence[..i] == storedSequence[..i]
    {
      if attemptedSequence[i] != storedSequence[i] {
        return false;
      }
    }
    assert attemptedSequence == attemptedSequence[..|attemptedSequence|];
    assert storedSequence == storedSequence[..|storedSequence|];
    return true;
  }

  /** Exchanging two positions that hold different ids turns a correct
      attempt into a rejected one. */
  lemma TranspositionRejected(stored: seq<string>, i: nat, j: nat)
    requires i < |stored| && j < |stored| && stored[i] != stored[j]
    ensures Swap(stored, i, j) != stored
  {
    assert Swap(stored, i, j)[i] != stored[i];
  }
}
