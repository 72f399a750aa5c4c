/** hw1.py `Vector`: integer vectors stored in a list that the object shares with whoever
    created it, with checked indexing, componentwise addition and the dot product. */
module Vectors {
  import opened Options

  datatype Error = IndexError | ValueError

  /** The componentwise sums of two vectors of one dimension. */
  function Plus(a: seq<int>, b: seq<int>): (s: seq<int>)
    requires |a| == |b|
    ensures |s| == |a| && forall i :: 0 <= i < |s| ==> s[i] == a[i] + b[i]
  {
    seq(|a|, i requires 0 <= i < |a| => a[i] + b[i])
  }

  /** The sum of the pairwise products. */
  function Dot(a: seq<int>, b: seq<int>): int
    requires |a| == |b|
  {
    if a == [] then 0 else a[0] * b[0] + Dot(a[1..], b[1..])
  }

  lemma {:induction false} DotCommutes(a: seq<int>, b: seq<int>)
    requires |a| == |b|
    ensures Dot(a, b) == Dot(b, a)
  {
    if a != [] {
      DotCommutes(a[1..], b[1..]);
    }
  }

  /** The dot product distributes over vector addition. */
  lemma {:induction false} DotOfSum(a: seq<int>, b: seq<int>, c: seq<int>)
    requires |a| == |b| == |c|
    ensures Dot(Plus(a, b), c) == Dot(a, c) + Dot(b, c)
  {
    if a != [] {
      assert Plus(a, b)[1..] == Plus(a[1..], b[1..]);
      DotOfSum(a[1..], b[1..], c[1..]);
    }
  }

  /** The sum of squares under the square root of `magnitude` is never negative. */
  lemma {:induction false} DotSelfNonNegative(a: seq<int>)
    ensures Dot(a, a) >= 0
  {
    if a != [] {
      DotSelfNonNegative(a[1..]);
    }
  }

  /** Addition of vectors commutes. */
  lemma PlusCommutes(a: seq<int>, b: seq<int>)
    requires |a| == |b|
    ensures Plus(a, b) == Plus(b, a)
  {
  }

  class Vector {
    /** `components`: the list itself, not a copy of it. */
    var components: array<int>

    function Elements(): seq<int>
      reads this, components
    {
      components[..]
    }

    /** `Vector()`: the default vector <0, 0, 0>. */
    constructor Zero()
      ensures fresh(components) && Elements() == [0, 0, 0]
    {
      components := new int[3] [0, 0, 0];
    }

    /** `Vector(components)` and `Vector.create(components)`: the given list is stored,
        so later changes through either are seen by both. */
    constructor (cs: array<int>)
      ensures components == cs
    {
      components := cs;
    }

    /** `dimensionality`. */
    function Dimensionality(): (n: nat)
      reads this
      ensures n == components.Length
    {
      components.Length
    }

    /** `get_component(index)`: the component, or IndexError outside 0 .. len - 1
        (negative indices included). */
    function GetComponent(index: int): (r: Result<int, Error>)
      reads this, components
      ensures r.Success? <==> 0 <= index < |Elements()|
      ensures r.Success? ==> r.value == Elements()[index]
      ensures r.Failure? ==> r.error == IndexError
    {
      if 0 <= index < components.Length then Success(components[index]) else Failure(IndexError)
    }

    /** `set_component(index, value)`: changes that component and no other, or raises
        IndexError and changes nothing. */
    method SetComponent(index: int, value: int) returns (r: Result<(), Error>)
      modifies components
      ensures r.Success? <==> 0 <= index < components.Length
      ensures r.Success? ==> Elements() == old(Elements())[index := value] && GetComponent(index) == Success(value)
      ensures r.Failure? ==> Elements() == old(Elements()) && r.error == IndexError
    {
      if 0 <= index < components.Length {
        components[index] := value;
        r := Success(());
      } else {
        r := Failure(IndexError);
      }
    }

    /** `__add__`: ValueError on a dimension mismatch, otherwise a new vector of the
        componentwise sums; neither operand changes. */
    method Add(other: Vector) returns (r: Result<Vector, Error>)
      ensures r.Success? <==> Dimensionality() == other.Dimensionality()
      ensures r.Failure? ==> r.error == ValueError
      ensures r.Success? ==>
                fresh(r.value) && fresh(r.value.components) &&
                r.value.Elements() == Plus(Elements(), other.Elements())
    {
      if components.Length != other.components.Length {
        return Failure(ValueError);
      }
      var sums := Plus(components[..], other.components[..]);
      var cs := new int[|sums|](i requires 0 <= i < |sums| => sums[i]);
      var v := new Vector(cs);
      return Success(v);
    }

    /** `dot_product`: ValueError on a dimension mismatch, otherwise the dot product. */
    function DotProduct(other: Vector): (r: Result<int, Error>)
      reads this, components, other, other.components
      ensures r.Success? <==> Dimensionality() == other.Dimensionality()
      ensures r.Failure? ==> r.error == ValueError
      ensures r.Success? ==> r.value == Dot(Elements(), other.Elements())
    {
      if components.Length != other.components.Length then Failure(ValueError)
      else Success(Dot(components[..], other.components[..]))
    }
  }

  /** The dot product of two vectors does not depend on their order. */
  lemma DotProductSymmetric(u: Vector, v: Vector)
    ensures u.DotProduct(v) == v.DotProduct(u)
  {
    if u.Dimensionality() == v.Dimensionality() {
      DotCommutes(u.Elements(), v.Elements());
    }
  }

  /** A vector built on a list shares it: setting a component through the vector
      changes the list the caller still holds. */
  method SharedComponents() returns (seen: int, outOfRange: Result<int, Error>)
    ensures seen == 9 && outOfRange == Failure(IndexError)
  {
    var cs := new int[3] [1, 2, 3];
    var v := new Vector(cs);
    var ok := v.SetComponent(0, 9);
    seen := cs[0];
    outOfRange := v.GetComponent(-1);
  }
}
