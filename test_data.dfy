/** test_data and try_rotate: the fixtures the rotation is checked against, including the
    generator that builds a long input by appending blocks of a fixed alphabet. */
module TestData {
  import opened StdString
  import opened Rotation
  import opened ModArith

  /** test_data::cs, the block the generator appends. */
  const Alphabet: String := "abcdefghijklmnopqrstuvwxyzABCDEFGHIJKLMNOPQRSTUVWXYZ"

  /** test_data::use_case_type: an input, a rotation count and the expected output. */
  datatype UseCase = UseCase(input: String, rotation: nat, expected: String)

  /** The alphabet repeated block after block and cut off after length characters. */
  function Cycled(length: nat): (r: String)
    ensures |r| == length
    decreases length
  {
    if length <= |Alphabet| then Alphabet[..length]
    else Alphabet + Cycled(length - |Alphabet|)
  }

  /** Index i of the repeated alphabet holds the alphabet's character at i mod its length. */
  lemma {:induction false} CycledAt(length: nat, i: nat)
    requires i < length
    ensures Cycled(length)[i] == Alphabet[i % |Alphabet|]
    decreases length
  {
    if i < |Alphabet| {
      ModUnique(i, |Alphabet|, 0, i);
    } else {
      CycledAt(length - |Alphabet|, i - |Alphabet|);
      ModMinus(i, |Alphabet|);
    }
  }

  /** A string that follows the alphabet's pattern at every index is the repeated alphabet. */
  lemma CycledUnique(s: String)
    requires forall i :: 0 <= i < |s| ==> s[i] == Alphabet[i % |Alphabet|]
    ensures s == Cycled(|s|)
  {
    forall i | 0 <= i < |s|
      ensures s[i] == Cycled(|s|)[i]
    {
      CycledAt(|s|, i);
    }
  }

  /** test_data::make_use_case: grows a string to length characters by appending prefixes
      of the alphabet, then pairs it with rotation and the rotated string. Taking the suffix
      at rotation throws std::out_of_range when rotation exceeds length. */
  method MakeUseCase(length: nat, rotation: nat) returns (r: Outcome<UseCase>)
    ensures r.Ok? <==> rotation <= length
    ensures r.Ok? ==> r.value == UseCase(Cycled(length), rotation, Rotate(Cycled(length), rotation))
  {
    var s: String := "";
    ghost var blocks: nat := 0;
    while |s| < length
      invariant |s| <= length
      invariant |s| == blocks * |Alphabet| || |s| == length
      invariant forall i :: 0 <= i < |s| ==> s[i] == Alphabet[i % |Alphabet|]
      decreases length - |s|
    {
      var block := Substr(Alphabet, 0, Min(length, length - |s|));
      ghost var prev := s;
      s := s + block.value;
      forall i | |prev| <= i < |s|
        ensures s[i] == Alphabet[i % |Alphabet|]
      {
        ModUnique(i, |Alphabet|, blocks, i - |prev|);
      }
      blocks := blocks + 1;
    }
    CycledUnique(s);
    var tail := SubstrFrom(s, rotation);
    if tail.OutOfRange? {
      return OutOfRange;
    }
    var head := Substr(s, 0, rotation);
    RotateSlices(s, rotation);
    assert head.value == s[..rotation];
    r := Ok(UseCase(s, rotation, tail.value + head.value));
  }

  /** try_rotate without its timer and log output: whether rotating s by count gives
      expected, that is, whether expected is s with every index shifted by the clamped count. */
  function TryRotate(s: String, count: nat, expected: String): (ok: bool)
    ensures ok <==> (|expected| == |s| &&
                     forall i :: 0 <= i < |s| ==> expected[i] == s[(i + Min(count, |s|)) % |s|])
  {
    RotateIndex(s, count);
    Rotate(s, count) == expected
  }

  /** The test_data constructor: the simple use case from the exercise and the extreme one,
      a billion generated characters rotated by a million; both pass try_rotate. */
  method UseCases() returns (cases: seq<UseCase>)
    ensures |cases| == 2
    ensures cases[0] == UseCase("RotateThisString", 5, "eThisStringRotat")
    ensures cases[1].input == Cycled(1000000000) && cases[1].rotation == 1000000
    ensures forall c :: c in cases ==> TryRotate(c.input, c.rotation, c.expected)
  {
    var extreme := MakeUseCase(1000000000, 1000000);
    RotateExample();
    cases := [UseCase("RotateThisString", 5, "eThisStringRotat"), extreme.value];
  }
}
