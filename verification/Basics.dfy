/**
 What several components share.
 */
module Basics {
  datatype Option<T> = None | Some(value: T)

  type byte = x: int | 0 <= x < 256

  /** `data` has `s` at `at`. */
  predicate Holds(data: seq<byte>, at: int, s: seq<byte>) {
    0 <= at && at + |s| <= |data| && data[at..at + |s|] == s
  }

  lemma HoldsSplit(data: seq<byte>, at: int, a: seq<byte>, b: seq<byte>)
    requires Holds(data, at, a + b)
    ensures Holds(data, at, a) && Holds(data, at + |a|, b)
  {
    assert data[at..at + |a|] == data[at..at + |a + b|][..|a|];
    assert data[at + |a|..at + |a| + |b|] == data[at..at + |a + b|][|a|..];
  }

  lemma HoldsAt(data: seq<byte>, at: int, s: seq<byte>, k: int)
    requires Holds(data, at, s) && 0 <= k < |s|
    ensures data[at + k] == s[k]
  {
    assert data[at + k] == data[at..at + |s|][k];
  }

  ghost predicate Distinct<T>(s: seq<T>) {
    forall i, j :: 0 <= i < j < |s| ==> s[i] != s[j]
  }
}
