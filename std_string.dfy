/** The parts of C++'s std::string and std::min that the rotation exercise relies on. */
module StdString {

  /** std::string, as a sequence of characters. */
  type String = seq<char>

  /** The result of a std::string operation that may throw std::out_of_range. */
  datatype Outcome<T> = Ok(value: T) | OutOfRange

  /** std::min on two unsigned sizes. */
  function Min(a: nat, b: nat): (m: nat)
    ensures m <= a && m <= b
    ensures m == a || m == b
  {
    if a <= b then a else b
  }

  /** s.substr(pos, count): throws when pos is past the end of s; otherwise copies the
      characters from pos on, at most count of them (a count reaching past the end is cut
      down to what is left). */
  function Substr(s: String, pos: nat, count: nat): (r: Outcome<String>)
    ensures r.Ok? <==> pos <= |s|
    ensures r.Ok? ==> |r.value| == Min(count, |s| - pos)
    ensures r.Ok? ==> forall i :: 0 <= i < |r.value| ==> r.value[i] == s[pos + i]
  {
    if pos <= |s| then Ok(s[pos..pos + Min(count, |s| - pos)]) else OutOfRange
  }

  /** s.substr(pos) with the default count npos, which exceeds every string length:
      everything from pos to the end. */
  function SubstrFrom(s: String, pos: nat): (r: Outcome<String>)
    ensures r.Ok? <==> pos <= |s|
    ensures r.Ok? ==> r.value == s[pos..]
  {
    Substr(s, pos, |s|)
  }
}
