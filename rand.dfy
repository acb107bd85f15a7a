/**
  * The buddy traits of src/ch_11.rs: `Rng`, a source of 32-bit values that
  * advances on every `next_32`, and `Rand for bool`, which draws one value from
  * any `Rng` and answers whether it is even.
  */
module Rand {

  /** Rust's `u32`. */
  newtype u32 = x: int | 0 <= x < 0x1_0000_0000

  /**
    * The state behind an `Rng`. `SomeRng` is the source's own implementation;
    * `Scripted` is a test source that replays `values` from index `next`,
    * starting again from the front once it has given them all.
    */
  datatype Source = SomeRng | Scripted(values: seq<u32>, next: nat)
  {
    predicate Valid()
    {
      Scripted? ==> next < |values|
    }

    /** The value the next call to `next_32` returns. */
    function Peek(): u32
      requires Valid()
    {
      if SomeRng? then 99 else values[next]
    }

    /** The state after a call to `next_32`. */
    function Step(): (s: Source)
      requires Valid()
      ensures s.Valid()
    {
      if SomeRng? then SomeRng
      else Scripted(values, if next + 1 < |values| then next + 1 else 0)
    }
  }

  /** The rule of `Rand for bool`: a drawn value gives `true` exactly when it is even. */
  predicate IsEven(v: u32)
  {
    v % 2 == 0
  }

  /** The first n values that n calls to `next_32` return, starting from s. */
  function Draws(s: Source, n: nat): (vs: seq<u32>)
    requires s.Valid()
    ensures |vs| == n
    decreases n
  {
    if n == 0 then [] else [s.Peek()] + Draws(s.Step(), n - 1)
  }

  /** `<bool as Rand>::rand` on values: draw once, return the parity and the advanced state. */
  function RandBoolValue(s: Source): (bool, Source)
    requires s.Valid()
  {
    (IsEven(s.Peek()), s.Step())
  }

  /** The booleans produced by n successive calls of `<bool as Rand>::rand`, starting from s. */
  function RandBools(s: Source, n: nat): (bs: seq<bool>)
    requires s.Valid()
    ensures |bs| == n
    decreases n
  {
    if n == 0 then []
    else
      var (b, t) := RandBoolValue(s);
      [b] + RandBools(t, n - 1)
  }

  /**
    * Each boolean is decided by exactly one drawn value, in order: the i-th
    * boolean is the parity of the i-th value the source gives.
    */
  lemma {:induction false} RandBoolsAreParities(s: Source, n: nat)
    requires s.Valid()
    ensures forall i :: 0 <= i < n ==> RandBools(s, n)[i] == IsEven(Draws(s, n)[i])
    decreases n
  {
    if n > 0 {
      RandBoolsAreParities(s.Step(), n - 1);
      assert forall i :: 1 <= i < n ==> RandBools(s, n)[i] == RandBools(s.Step(), n - 1)[i - 1];
      assert forall i :: 1 <= i < n ==> Draws(s, n)[i] == Draws(s.Step(), n - 1)[i - 1];
    }
  }

  /** `SomeRng::next_32` answers 99 on every call. */
  lemma {:induction false} SomeRngAlways99(n: nat)
    ensures forall i :: 0 <= i < n ==> Draws(SomeRng, n)[i] == 99
  {
    if n > 0 {
      SomeRngAlways99(n - 1);
      assert forall i :: 1 <= i < n ==> Draws(SomeRng, n)[i] == Draws(SomeRng, n - 1)[i - 1];
    }
  }

  /** Since 99 is odd, `bool::rand` driven by `SomeRng` is always false. */
  lemma SomeRngAlwaysFalse(n: nat)
    ensures forall i :: 0 <= i < n ==> !RandBools(SomeRng, n)[i]
  {
    SomeRngAlways99(n);
    RandBoolsAreParities(SomeRng, n);
  }

  /** A scripted source gives its remaining values in order, one per call. */
  lemma {:induction false} ScriptedReplays(vs: seq<u32>, k: nat, n: nat)
    requires k + n <= |vs| && k < |vs|
    ensures Draws(Scripted(vs, k), n) == vs[k..k + n]
    decreases n
  {
    if n > 0 {
      var s := Scripted(vs, k);
      assert Draws(s, n) == [vs[k]] + Draws(s.Step(), n - 1);
      if n > 1 {
        assert s.Step() == Scripted(vs, k + 1);
        ScriptedReplays(vs, k + 1, n - 1);
        assert vs[k..k + n] == [vs[k]] + vs[k + 1..k + n];
      }
    }
  }

  /** The values 4, 7, 0, 1 give true, false, true, false. */
  lemma ScriptedExample(vs: seq<u32>)
    requires vs == [4, 7, 0, 1]
    ensures RandBools(Scripted(vs, 0), 4) == [true, false, true, false]
  {
    ScriptedReplays(vs, 0, 4);
    RandBoolsAreParities(Scripted(vs, 0), 4);
  }

  /** A mutable source of 32-bit values: the `Rng` trait and its implementations. */
  class Rng {
    var source: Source
    /** Every value `next_32` has returned so far, oldest first. */
    ghost var Drawn: seq<u32>

    ghost predicate Valid()
      reads this
    {
      source.Valid()
    }

    constructor (s: Source)
      requires s.Valid()
      ensures Valid() && source == s && Drawn == []
    {
      source := s;
      Drawn := [];
    }

    /** `Rng::next_32`: return the next value and advance the state. */
    method Next32() returns (v: u32)
      requires Valid()
      modifies this
      ensures Valid()
      ensures v == old(source).Peek() && source == old(source).Step()
      ensures Drawn == old(Drawn) + [v]
    {
      v := source.Peek();
      source := source.Step();
      Drawn := Drawn + [v];
    }
  }

  /**
    * `<bool as Rand>::rand`: one call of `next_32`, so exactly one value is
    * consumed, and the answer is whether that value is even.
    */
  method RandBool(rng: Rng) returns (b: bool)
    requires rng.Valid()
    modifies rng
    ensures rng.Valid()
    ensures rng.Drawn == old(rng.Drawn) + [old(rng.source).Peek()]
    ensures b == IsEven(old(rng.source).Peek())
    ensures (b, rng.source) == RandBoolValue(old(rng.source))
  {
    var v := rng.Next32();
    b := v % 2 == 0;
  }

  /**
    * Over the scripted values 4, 7, 0, 1, four calls of `bool::rand` give
    * true, false, true, false, and a following `next_32` starts the script over.
    */
  method ScriptedScenario() returns (bs: seq<bool>, after: u32)
    ensures bs == [true, false, true, false]
    ensures after == 4
  {
    var rng := new Rng(Scripted([4, 7, 0, 1], 0));
    var b0 := RandBool(rng);
    var b1 := RandBool(rng);
    var b2 := RandBool(rng);
    var b3 := RandBool(rng);
    bs := [b0, b1, b2, b3];
    after := rng.Next32();
  }

  /**
    * One call of `bool::rand` over the script 4, 7, 0 consumes 4 and nothing
    * more: the next value drawn is 7 (two draws would leave 0, three 4).
    */
  method ConsumesOneValue() returns (b: bool, following: u32)
    ensures b && following == 7
  {
    var rng := new Rng(Scripted([4, 7, 0], 0));
    b := RandBool(rng);
    following := rng.Next32();
  }

  /** `bool::rand` over `SomeRng` is false: 99 is odd. */
  method SomeRngScenario() returns (b: bool)
    ensures !b
  {
    var rng := new Rng(SomeRng);
    b := RandBool(rng);
  }
}
