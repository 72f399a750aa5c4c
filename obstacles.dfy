/** midtermproblem2.py: two ways of counting the obstacles (the 1 entries) of a 0/1
    vector, by summing it and by counting its 1s. */
module Obstacles {

  /** `count_obstacles1`: the sum of the entries. */
  function Sum(v: seq<int>): (s: int)
    ensures (forall i :: 0 <= i < |v| ==> v[i] >= 0) ==> s >= 0
  {
    if v == [] then 0 else v[0] + Sum(v[1..])
  }

  /** `count_obstacles2`: how many entries equal 1. */
  function CountOnes(v: seq<int>): (n: nat)
    ensures n <= |v|
  {
    if v == [] then 0 else (if v[0] == 1 then 1 else 0) + CountOnes(v[1..])
  }

  predicate ZeroOne(v: seq<int>) {
    forall i :: 0 <= i < |v| ==> v[i] == 0 || v[i] == 1
  }

  /** The count is the multiplicity of 1 in the vector. */
  lemma {:induction false} CountIsMultiplicity(v: seq<int>)
    ensures CountOnes(v) == multiset(v)[1]
  {
    if v != [] {
      assert v == [v[0]] + v[1..];
      assert multiset(v) == multiset{v[0]} + multiset(v[1..]);
      CountIsMultiplicity(v[1..]);
    }
  }

  /** On a 0/1 vector both functions give the same count. */
  lemma {:induction false} CountsAgree(v: seq<int>)
    requires ZeroOne(v)
    ensures Sum(v) == CountOnes(v)
  {
    if v != [] {
      assert ZeroOne(v[1..]) by {
        forall i | 0 <= i < |v[1..]| ensures v[1..][i] == 0 || v[1..][i] == 1 {
          assert v[1..][i] == v[i + 1];
        }
      }
      CountsAgree(v[1..]);
    }
  }

  /** On a 0/1 vector the sum lies between 0 and the length. */
  lemma SumBounds(v: seq<int>)
    requires ZeroOne(v)
    ensures 0 <= Sum(v) <= |v|
  {
    CountsAgree(v);
  }

  /** Outside 0/1 vectors the two disagree: [2] sums to 2 but holds no 1. */
  lemma CountsDifferOffZeroOne()
    ensures Sum([2]) == 2 && CountOnes([2]) == 0
  {
  }

  /** The printed examples: one obstacle, then four. */
  lemma Examples()
    ensures Sum([0, 0, 1, 0, 0, 0]) == 1 && CountOnes([0, 0, 1, 0, 0, 0]) == 1
    ensures Sum([0, 1, 0, 1, 1, 1]) == 4 && CountOnes([0, 1, 0, 1, 1, 1]) == 4
  {
  }
}
