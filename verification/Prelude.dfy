/** Small shared definitions. */
module Prelude {
  datatype Option<+T> = None | Some(value: T)

  /** A sequence with `text` written over it from position `at` on. */
  function Patched<T>(before: seq<T>, at: nat, text: seq<T>): (r: seq<T>)
    requires at + |text| <= |before|
    ensures |r| == |before|
  {
    before[..at] + text + before[at + |text|..]
  }

  lemma Regroup<T>(a: seq<T>, b: seq<T>, c: seq<T>)
    ensures (a + b) + c == a + (b + c)
  {
  }
}
