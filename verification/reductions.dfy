/**
 The boolean reductions `all_of`, `any_of`, `none_of` and `some_of`.

 A SIMD mask is modelled as the sequence of its lane values; the mask's own
 `isFull`, `isNotEmpty`, `isEmpty` and `isMix` are written here as recursive
 functions over the lanes, and each reduction states in its contract what it
 means for the lanes. The `bool` overloads treat a plain `bool` as a mask of
 one lane.
 */
module Reductions {

  /** `all_of(m)`, i.e. `m.isFull()`: every lane is true. */
  function AllOf(m: seq<bool>): (r: bool)
    ensures r <==> forall i :: 0 <= i < |m| ==> m[i]
    decreases |m|
  {
    m == [] || (m[0] && AllOf(m[1..]))
  }

  /** `any_of(m)`, i.e. `m.isNotEmpty()`: some lane is true. */
  function AnyOf(m: seq<bool>): (r: bool)
    ensures r <==> exists i :: 0 <= i < |m| && m[i]
    decreases |m|
  {
    if m == [] then false
    else
      assert forall i :: 1 <= i < |m| ==> m[i] == m[1..][i - 1];
      m[0] || AnyOf(m[1..])
  }

  /** `none_of(m)`, i.e. `m.isEmpty()`: no lane is true. */
  function NoneOf(m: seq<bool>): (r: bool)
    ensures r <==> forall i :: 0 <= i < |m| ==> !m[i]
    ensures r == !AnyOf(m)
    decreases |m|
  {
    m == [] || (!m[0] && NoneOf(m[1..]))
  }

  /** `some_of(m)`, i.e. `m.isMix()`: at least one lane is true and at least one is false. */
  function SomeOf(m: seq<bool>): (r: bool)
    ensures r <==> (exists i :: 0 <= i < |m| && m[i]) && (exists j :: 0 <= j < |m| && !m[j])
    ensures |m| >= 1 ==> (r <==> !AllOf(m) && !NoneOf(m))
  {
    AnyOf(m) && !AllOf(m)
  }

  /** `all_of(bool b)` returns `b`: the same answer as `all_of` on a one-lane mask. */
  function AllOfBool(b: bool): (r: bool)
    ensures r == AllOf([b])
  {
    b
  }

  /** `any_of(bool b)` returns `b`: the same answer as `any_of` on a one-lane mask. */
  function AnyOfBool(b: bool): (r: bool)
    ensures r == AnyOf([b])
  {
    b
  }

  /** `none_of(bool b)` returns `!b`: the same answer as `none_of` on a one-lane mask. */
  function NoneOfBool(b: bool): (r: bool)
    ensures r == NoneOf([b])
  {
    !b
  }

  /** `some_of(bool)` returns `false`: a one-lane mask is never mixed. */
  function SomeOfBool(b: bool): (r: bool)
    ensures r == SomeOf([b])
  {
    false
  }
}
