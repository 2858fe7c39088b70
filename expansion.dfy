/** Loading a dense Boolean dataset: the file stores one feature id per example, and the
    loader expands it into a zeroed array of examples * size values with a single one
    per example, at hot[i] inside example i's block. */
module Expansion {
  import opened Common
  import opened Arith

  /** The target of the write for example i. */
  function Target(hot: seq<nat>, size: nat, i: nat): nat
    requires i < |hot|
  {
    i * size + hot[i]
  }

  predicate TargetsFit(hot: seq<nat>, size: nat, m: nat)
    requires m <= |hot|
  {
    forall i :: 0 <= i < m ==> Target(hot, size, i) < |hot| * size
  }

  /** The array after the first m writes. */
  function Written<T>(hot: seq<nat>, size: nat, zero: T, one: T, m: nat): (r: seq<T>)
    requires m <= |hot| && TargetsFit(hot, size, m)
    ensures |r| == |hot| * size
  {
    if m == 0 then seq(|hot| * size, _ => zero)
    else Written(hot, size, zero, one, m - 1)[Target(hot, size, m - 1) := one]
  }

  /** Some of the first m writes hits position p. */
  predicate Hit(hot: seq<nat>, size: nat, m: nat, p: nat)
    requires m <= |hot|
  {
    m > 0 && (Target(hot, size, m - 1) == p || Hit(hot, size, m - 1, p))
  }

  lemma {:induction false} WrittenAt<T>(hot: seq<nat>, size: nat, zero: T, one: T, m: nat, p: nat)
    requires m <= |hot| && TargetsFit(hot, size, m) && p < |hot| * size
    ensures Written(hot, size, zero, one, m)[p] == if Hit(hot, size, m, p) then one else zero
  {
    if m > 0 {
      WrittenAt(hot, size, zero, one, m - 1, p);
    }
  }

  lemma {:induction false} HitOneHot(hot: seq<nat>, size: nat, m: nat, j: nat, x: nat)
    requires m <= |hot| && x < size
    requires forall i :: 0 <= i < |hot| ==> hot[i] < size
    ensures Hit(hot, size, m, j * size + x) <==> j < m && hot[j] == x
  {
    if m > 0 {
      HitOneHot(hot, size, m - 1, j, x);
      var i := m - 1;
      if Target(hot, size, i) == j * size + x {
        assert hot[i] + size * i == x + size * j;
        DigitsUnique(hot[i], i, x, j, size);
      }
    }
  }

  /** With every stored id below the block size, the expansion is one-hot: inside example
      j's block, position x holds one exactly when x is example j's id, and zero otherwise. */
  lemma OneHot<T>(hot: seq<nat>, size: nat, zero: T, one: T, j: nat, x: nat)
    requires forall i :: 0 <= i < |hot| ==> hot[i] < size
    requires j < |hot| && x < size
    ensures TargetsFit(hot, size, |hot|)
    ensures j * size + x < |hot| * size
    ensures Written(hot, size, zero, one, |hot|)[j * size + x] == if x == hot[j] then one else zero
  {
    forall i | 0 <= i < |hot| ensures Target(hot, size, i) < |hot| * size {
      DigitBound(hot[i], i, size, |hot|);
      assert i * size == size * i && |hot| * size == size * |hot|;
    }
    DigitBound(x, j, size, |hot|);
    assert j * size == size * j && |hot| * size == size * |hot|;
    WrittenAt(hot, size, zero, one, |hot|, j * size + x);
    HitOneHot(hot, size, |hot|, j, x);
  }

  /** The expansion loop: zero the array, then write one at i * size + hot[i] for each
      example. A target outside the array is a write past the end of the vector. */
  method Expand<T>(hot: seq<nat>, size: nat, zero: T, one: T) returns (r: Outcome<seq<T>>)
    ensures r.Ok? <==> TargetsFit(hot, size, |hot|)
    ensures r.Err? ==> r.fault == OutsideStorage
    ensures r.Ok? ==> r.value == Written(hot, size, zero, one, |hot|)
  {
    var a := new T[|hot| * size](_ => zero);
    assert a[..] == Written(hot, size, zero, one, 0);
    var i := 0;
    while i < |hot|
      invariant i <= |hot| && TargetsFit(hot, size, i)
      invariant a[..] == Written(hot, size, zero, one, i)
    {
      var p := i * size + hot[i];
      if p >= a.Length {
        assert !(Target(hot, size, i) < |hot| * size);
        return Err(OutsideStorage);
      }
      a[p] := one;
      i := i + 1;
    }
    r := Ok(a[..]);
  }
}
