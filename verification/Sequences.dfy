/** Optional values, sequences without repetition, and rotation of sequences. */
module Sequences {
  datatype Option<T> = None | Some(value: T)

  ghost predicate Distinct<T>(s: seq<T>) {
    forall i, j :: 0 <= i < j < |s| ==> s[i] != s[j]
  }

  function Rotate<T>(s: seq<T>, i: nat): (r: seq<T>)
    requires i <= |s|
    ensures |r| == |s|
  {
    s[i..] + s[..i]
  }

  /** Moving the first element of a rotated sequence to the end rotates it once more. */
  lemma RotateOnce<T>(s: seq<T>, i: nat)
    requires i < |s|
    ensures Rotate(s, i)[0] == s[i]
    ensures Rotate(s, i)[1..] + [s[i]] == Rotate(s, i + 1)
  {
  }

  /** The numbers from 0 to `k - 1`. */
  function Count(k: nat): (s: seq<int>)
    ensures |s| == k && forall i :: 0 <= i < k ==> s[i] == i
    ensures forall f :: f in s <==> 0 <= f < k
  {
    var c := seq(k, i => i);
    assert forall f {:trigger f in c} :: 0 <= f < k ==> c[f] == f;
    c
  }
}
