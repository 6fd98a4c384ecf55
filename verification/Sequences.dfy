/** Operations on sequences that several models share. */
module Sequences {
  import opened BinaryArithmetic

  function Reverse<T>(s: seq<T>): (r: seq<T>)
    ensures |r| == |s| && forall i :: 0 <= i < |s| ==> r[i] == s[|s| - 1 - i]
  {
    if s == [] then [] else Reverse(s[1..]) + [s[0]]
  }

  function Flatten<T>(ss: seq<seq<T>>): seq<T> {
    if ss == [] then [] else ss[0] + Flatten(ss[1..])
  }

  lemma Reassociate<T>(a: seq<T>, b: seq<T>, c: seq<T>)
    ensures a + (b + c) == (a + b) + c
  {
  }

  /** `n` erased bytes of flash. */
  function Fill(n: nat): (s: seq<byte>)
    ensures |s| == n
  {
    seq(n, _ => 0xff)
  }

  /** `a` with `data` put at byte `at`. */
  function Patch(a: seq<byte>, at: nat, data: seq<byte>): (r: seq<byte>)
    requires at + |data| <= |a|
    ensures |r| == |a|
  {
    a[..at] + data + a[at + |data|..]
  }

  /** What lies in a patched array from the start of the patch on. */
  lemma PatchedStretch(a: seq<byte>, at: nat, data: seq<byte>, n: nat)
    requires at + |data| <= |a| && at + n <= |a|
    ensures Patch(a, at, data)[at..at + n] == if n <= |data| then data[..n] else data + a[at + |data|..at + n]
  {
    var tail := data + a[at + |data|..];
    assert Patch(a, at, data) == a[..at] + tail;
    assert Patch(a, at, data)[at..at + n] == tail[..n];
  }
}
