/** Randomness of the generator. The clock-seeded engine is replaced by a
    sequence of draws that the caller supplies: each call of rand_int uses
    the next draw, so every result the engine could give is reachable by
    some choice of draws. */
module Random {

  /** Generator::rand_int: a value in [min, max] picked by `draw`. */
  function RandInt(min: int, max: int, draw: nat): (r: int)
    requires min <= max
    ensures min <= r <= max
  {
    min + draw % (max - min + 1)
  }

  /** Every value of [min, max] comes out for some draw. */
  lemma RandIntReachesAll(min: int, max: int, r: int)
    requires min <= r <= max
    ensures RandInt(min, max, r - min) == r
  {
    assert (r - min) % (max - min + 1) == r - min;
  }

  /** No two positions of s hold the same element. */
  predicate Distinct(s: seq<nat>)
  {
    forall a, b :: 0 <= a < b < |s| ==> s[a] != s[b]
  }

  /** The elements 0, 1, ..., n - 1 in order (std::iota from 0). */
  function Iota(n: nat): seq<nat>
  {
    seq(n, k => k)
  }

  /** Iota(n) holds exactly the numbers below n. */
  lemma IotaMembers(n: nat)
    ensures forall x: nat :: x in Iota(n) <==> x < n
  {
    forall x: nat | x < n
      ensures x in Iota(n)
    {
      assert Iota(n)[x] == x;
    }
  }

  /** s with the elements at i and j exchanged. */
  function Swap(s: seq<nat>, i: nat, j: nat): (t: seq<nat>)
    requires i < |s| && j < |s|
    ensures |t| == |s| && t[i] == s[j] && t[j] == s[i]
    ensures forall k :: 0 <= k < |s| && k != i && k != j ==> t[k] == s[k]
  {
    s[i := s[j]][j := s[i]]
  }

  /** A swap only rearranges. */
  lemma SwapPermutes(s: seq<nat>, i: nat, j: nat)
    requires i < |s| && j < |s|
    ensures multiset(Swap(s, i, j)) == multiset(s)
  {
  }

  /** The shuffle loop from index i on: index i is swapped with the
      partner that draw i picks from the whole range [0, |s| - 1]. */
  function ShuffleFrom(s: seq<nat>, draws: seq<nat>, i: nat): seq<nat>
    requires i <= |s| <= |draws|
    decreases |s| - i
  {
    if i == |s| then s
    else ShuffleFrom(Swap(s, i, RandInt(0, |s| - 1, draws[i]) as nat), draws, i + 1)
  }

  /** shuffle keeps the length and the multiset of elements. */
  lemma {:induction false} ShufflePermutes(s: seq<nat>, draws: seq<nat>, i: nat)
    requires i <= |s| <= |draws|
    ensures |ShuffleFrom(s, draws, i)| == |s|
    ensures multiset(ShuffleFrom(s, draws, i)) == multiset(s)
    decreases |s| - i
  {
    if i < |s| {
      var r := RandInt(0, |s| - 1, draws[i]) as nat;
      SwapPermutes(s, i, r);
      ShufflePermutes(Swap(s, i, r), draws, i + 1);
    }
  }

  /** The shuffle of free function shuffle(std::vector<unsigned> &), in
      place: v ends as ShuffleFrom of its old contents. */
  method Shuffle(v: array<nat>, draws: seq<nat>)
    requires v.Length <= |draws|
    modifies v
    ensures v[..] == ShuffleFrom(old(v[..]), draws, 0)
  {
    var i := 0;
    while i < v.Length
      invariant i <= v.Length
      invariant ShuffleFrom(v[..], draws, i) == ShuffleFrom(old(v[..]), draws, 0)
    {
      ghost var before := v[..];
      var r := RandInt(0, v.Length - 1, draws[i]) as nat;
      var tmp := v[i];
      v[i] := v[r];
      v[r] := tmp;
      assert v[..] == Swap(before, i, r);
      i := i + 1;
    }
  }

  /** In a sequence without repeats every element occurs once. */
  lemma {:induction false} DistinctOccursOnce(t: seq<nat>, x: nat)
    requires Distinct(t)
    ensures multiset(t)[x] <= 1
    decreases |t|
  {
    if t != [] {
      var n := |t| - 1;
      assert t == t[..n] + [t[n]];
      assert Distinct(t[..n]);
      DistinctOccursOnce(t[..n], x);
      if t[n] == x {
        assert x !in t[..n];
        assert multiset(t[..n])[x] == 0;
      }
    }
  }

  /** A rearrangement of a sequence without repeats has none either, and
      holds exactly the same elements. */
  lemma PermutationOfDistinct(s: seq<nat>, t: seq<nat>)
    requires multiset(s) == multiset(t) && Distinct(t)
    ensures Distinct(s)
    ensures forall x :: x in s <==> x in t
  {
    forall x ensures x in s <==> x in t {
      assert x in s <==> x in multiset(s);
      assert x in t <==> x in multiset(t);
    }
    forall a, b | 0 <= a < b < |s|
      ensures s[a] != s[b]
    {
      if s[a] == s[b] {
        var x := s[a];
        assert s == s[..b] + s[b..];
        assert s[..b][a] == x && s[b..][0] == x;
        assert multiset(s[..b])[x] >= 1 && multiset(s[b..])[x] >= 1;
        DistinctOccursOnce(t, x);
        assert false;
      }
    }
  }

  /** Shuffling a sequence without repeats gives a sequence without
      repeats holding the same elements. */
  lemma ShuffleOfDistinct(s: seq<nat>, draws: seq<nat>)
    requires |s| <= |draws| && Distinct(s)
    ensures |ShuffleFrom(s, draws, 0)| == |s|
    ensures Distinct(ShuffleFrom(s, draws, 0))
    ensures forall x :: x in ShuffleFrom(s, draws, 0) <==> x in s
  {
    ShufflePermutes(s, draws, 0);
    PermutationOfDistinct(ShuffleFrom(s, draws, 0), s);
  }
}
