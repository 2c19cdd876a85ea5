/** interview::rotate: rotation of a string by an offset that is clamped, not wrapped. */
module Rotation {
  import opened StdString
  import opened ModArith

  /** The string with its first count characters moved to the end; count is first clamped
      to the length of s, so no offset is ever rejected. */
  function Rotate(s: String, count: nat): (r: String)
    ensures |r| == |s|
  {
    var k := Min(count, |s|);
    SubstrFrom(s, k).value + Substr(s, 0, k).value
  }

  /** The two substrings are the suffix from the clamped offset and the prefix before it. */
  lemma RotateSlices(s: String, count: nat)
    ensures Rotate(s, count) == s[Min(count, |s|)..] + s[..Min(count, |s|)]
  {
    var k := Min(count, |s|);
    assert Substr(s, 0, k).value == s[..k];
  }

  /** Index i of the result holds the character the clamped offset brings there. */
  lemma RotateIndex(s: String, count: nat)
    ensures forall i :: 0 <= i < |s| ==> Rotate(s, count)[i] == s[(i + Min(count, |s|)) % |s|]
  {
    var k := Min(count, |s|);
    RotateSlices(s, count);
    forall i | 0 <= i < |s|
      ensures Rotate(s, count)[i] == s[(i + k) % |s|]
    {
      ModBelowThree(i + k, |s|);
    }
  }

  /** Each character moves from index j to index (j - k) mod |s|, k the clamped offset. */
  lemma RotateMoves(s: String, count: nat, j: nat)
    requires j < |s|
    ensures Rotate(s, count)[(j - Min(count, |s|)) % |s|] == s[j]
  {
    var k, n := Min(count, |s|), |s|;
    RotateSlices(s, count);
    if j >= k {
      ModUnique(j - k, n, 0, j - k);
    } else {
      ModUnique(j - k, n, -1, j - k + n);
    }
  }

  /** Rotating by zero leaves the string as it was. */
  lemma RotateZero(s: String)
    ensures Rotate(s, 0) == s
  {
    RotateSlices(s, 0);
  }

  /** An offset of the length or more is clamped to the length, so it changes nothing. */
  lemma RotateOverLong(s: String, count: nat)
    requires count >= |s|
    ensures Rotate(s, count) == s
  {
    RotateSlices(s, count);
  }

  /** Rotation keeps every character, as many times as it occurs. */
  lemma RotatePermutes(s: String, count: nat)
    ensures multiset(Rotate(s, count)) == multiset(s)
  {
    var k := Min(count, |s|);
    RotateSlices(s, count);
    assert s == s[..k] + s[k..];
  }

  /** Rotating by the complementary offset undoes a rotation. */
  lemma RotateInverse(s: String, k: nat)
    requires k <= |s|
    ensures Rotate(Rotate(s, k), |s| - k) == s
  {
  }

  /** Two rotations by offsets within the length are one rotation by their sum mod the length. */
  lemma RotateCompose(s: String, k1: nat, k2: nat)
    requires 0 < |s| && k1 <= |s| && k2 <= |s|
    ensures Rotate(Rotate(s, k1), k2) == Rotate(s, (k1 + k2) % |s|)
  {
    var n := |s|;
    var r1 := Rotate(s, k1);
    var k := (k1 + k2) % n;
    RotateIndex(s, k1);
    RotateIndex(r1, k2);
    RotateIndex(s, k);
    forall i | 0 <= i < n
      ensures Rotate(r1, k2)[i] == Rotate(s, k)[i]
    {
      var j := (i + k2) % n;
      assert Rotate(r1, k2)[i] == r1[j];
      assert r1[j] == s[(j + k1) % n];
      ModAddTwice(i, k1, k2, n);
    }
  }

  /** The fixture from the exercise statement. */
  lemma RotateExample()
    ensures Rotate("RotateThisString", 5) == "eThisStringRotat"
  {
  }

  /** Clamping is not wrapping: an offset one past the length is a no-op, while the
      offset it is congruent to mod the length moves the first character to the end. */
  lemma ClampIsNotModulo()
    ensures Rotate("ab", 3) == "ab"
    ensures Rotate("ab", 1) == "ba"
  {
  }
}
