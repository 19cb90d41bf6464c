/** Types shared by the protocol models and the XML model. */
module Common {

  newtype Byte = x: int | 0 <= x < 256

  /** A message body as it travels on a topic: its serialized image.
      The empty sequence is the image of a default-constructed message. */
  type Sample = seq<Byte>

  datatype Option<+T> = None | Some(value: T)

  /** The longest suffix of s that has at most n elements. */
  function LastN<T>(s: seq<T>, n: nat): (r: seq<T>)
    ensures |r| == if |s| <= n then |s| else n
    ensures r == s[|s| - |r|..]
  {
    if |s| <= n then s else s[|s| - n..]
  }

  predicate Distinct<T(==)>(s: seq<T>) {
    forall i, j :: 0 <= i < j < |s| ==> s[i] != s[j]
  }
}
