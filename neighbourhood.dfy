/** The two neighbourhood operators of the local search. Each one returns a
    new sequence; the input is a value and is never changed. */
module Neighbourhood {

  /** The sequence with the jobs at positions `i` and `j` exchanged. */
  function Swap(s: seq<nat>, i: nat, j: nat): (r: seq<nat>)
    requires i < |s| && j < |s|
    ensures |r| == |s| && r[i] == s[j] && r[j] == s[i]
    ensures forall k :: 0 <= k < |s| && k != i && k != j ==> r[k] == s[k]
    ensures multiset(r) == multiset(s)
  {
    s[i := s[j]][j := s[i]]
  }

  /** `s` without its element at position `i` (a list's `pop(i)`). */
  function RemoveAt(s: seq<nat>, i: nat): (r: seq<nat>)
    requires i < |s|
    ensures |r| == |s| - 1
    ensures forall k :: 0 <= k < |r| ==> r[k] == if k < i then s[k] else s[k + 1]
    ensures multiset(r) + multiset{s[i]} == multiset(s)
  {
    assert s == s[..i] + [s[i]] + s[i + 1..];
    s[..i] + s[i + 1..]
  }

  /** `s` with `x` put in front of position `j` (a list's `insert(j, x)`). */
  function InsertAt(s: seq<nat>, j: nat, x: nat): (r: seq<nat>)
    requires j <= |s|
    ensures |r| == |s| + 1 && r[j] == x
    ensures forall k :: 0 <= k < |r| && k != j ==> r[k] == if k < j then s[k] else s[k - 1]
    ensures multiset(r) == multiset(s) + multiset{x}
  {
    assert s == s[..j] + s[j..];
    s[..j] + [x] + s[j..]
  }

  /** The sequence with the job at position `i` taken out and put back at
      position `j` of what remains; the jobs in between shift by one. */
  function Insert(s: seq<nat>, i: nat, j: nat): (r: seq<nat>)
    requires i < |s| && j < |s|
    ensures |r| == |s| && r[j] == s[i]
    ensures forall k :: 0 <= k < |s| && (k < i || j < k) && (k < j || i < k) ==> r[k] == s[k]
    ensures i < j ==> forall k :: i <= k < j ==> r[k] == s[k + 1]
    ensures j < i ==> forall k :: j < k <= i ==> r[k] == s[k - 1]
    ensures multiset(r) == multiset(s)
  {
    InsertAt(RemoveAt(s, i), j, s[i])
  }

  /** Swapping the same two positions again restores the sequence. */
  lemma SwapUndo(s: seq<nat>, i: nat, j: nat)
    requires i < |s| && j < |s|
    ensures Swap(Swap(s, i, j), i, j) == s
  {
    var r := Swap(Swap(s, i, j), i, j);
    assert forall k :: 0 <= k < |s| ==> r[k] == s[k];
  }

  /** The order of the two positions of a swap does not matter. */
  lemma SwapSymmetric(s: seq<nat>, i: nat, j: nat)
    requires i < |s| && j < |s|
    ensures Swap(s, i, j) == Swap(s, j, i)
  {
    assert forall k :: 0 <= k < |s| ==> Swap(s, i, j)[k] == Swap(s, j, i)[k];
  }

  /** Moving the job back from `j` to `i` restores the sequence. */
  lemma InsertUndo(s: seq<nat>, i: nat, j: nat)
    requires i < |s| && j < |s|
    ensures Insert(Insert(s, i, j), j, i) == s
  {
    var m := Insert(s, i, j);
    var r := Insert(m, j, i);
    forall k | 0 <= k < |s|
      ensures r[k] == s[k]
    {
      if k == i {
      } else if i < j && i < k <= j {
        assert r[k] == m[k - 1] == s[k];
      } else if j < i && j <= k < i {
        assert r[k] == m[k + 1] == s[k];
      } else {
        assert r[k] == m[k] == s[k];
      }
    }
  }

  /** Taking a job out and putting it back where it was changes nothing;
      the local search therefore skips `i == j`. */
  lemma InsertInPlace(s: seq<nat>, i: nat)
    requires i < |s|
    ensures Insert(s, i, i) == s
  {
    assert forall k :: 0 <= k < |s| ==> Insert(s, i, i)[k] == s[k];
  }

  /** Moving a job one place either way is the swap of the two neighbours,
      so these candidates occur in both neighbourhoods. */
  lemma AdjacentInsertIsSwap(s: seq<nat>, i: nat)
    requires i + 1 < |s|
    ensures Insert(s, i, i + 1) == Swap(s, i, i + 1)
    ensures Insert(s, i + 1, i) == Swap(s, i, i + 1)
  {
    var a, b, w := Insert(s, i, i + 1), Insert(s, i + 1, i), Swap(s, i, i + 1);
    assert a[i] == s[i + 1] && b[i + 1] == s[i];
    assert forall k :: 0 <= k < |s| ==> a[k] == w[k] && b[k] == w[k];
  }
}
