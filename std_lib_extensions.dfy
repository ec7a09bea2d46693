/**
 * Small standard-library conveniences: `Boolean?.yesNoOrNull`, `withInstanceOf`
 * and `withEach` over collections and arrays.
 *
 * A caller's block is run for its effect; `Block` records every value it was
 * applied to, in order, which is all of that effect the helpers decide.
 */
module StdLibExtensions {
  import opened Wrappers

  /** `Boolean?.yesNoOrNull`. */
  function YesNoOrNull(b: Option<bool>): (s: string)
    ensures s == "null" <==> b.None?
    ensures s == "YES" <==> b == Some(true)
    ensures s == "NO" <==> b == Some(false)
  {
    match b
    case None => "null"
    case Some(true) => "YES"
    case Some(false) => "NO"
  }

  /** The three inputs give three different strings. */
  lemma YesNoOrNullInjective(a: Option<bool>, b: Option<bool>)
    ensures YesNoOrNull(a) == YesNoOrNull(b) <==> a == b
  {
  }

  /** A caller's block, seen through the values it is applied to. */
  class Block<T> {
    var applied: seq<T>

    constructor ()
      ensures applied == []
    {
      applied := [];
    }

    /** One run of the block on `x`. */
    method Apply(x: T)
      modifies this
      ensures applied == old(applied) + [x]
    {
      applied := applied + [x];
    }
  }

  /** A value whose runtime type either is `T` or is some other type. */
  datatype Any<T, U> = Instance(value: T) | Other(other: U)

  /** `withInstanceOf<T>(any, doWithA)`: runs the block once on `any` when it is a `T`, and says whether it did. */
  method WithInstanceOf<T, U>(any: Any<T, U>, doWithA: Block<T>) returns (matched: bool)
    modifies doWithA
    ensures matched <==> any.Instance?
    ensures any.Instance? ==> doWithA.applied == old(doWithA.applied) + [any.value]
    ensures any.Other? ==> doWithA.applied == old(doWithA.applied)
  {
    match any
    case Instance(a) =>
      doWithA.Apply(a);
      matched := true;
    case Other(_) =>
      matched := false;
  }

  /** `Collection<T>.withEach(applyThis)`: the block runs on every element once, in iteration order. */
  method WithEach<T>(elements: seq<T>, applyThis: Block<T>)
    modifies applyThis
    ensures applyThis.applied == old(applyThis.applied) + elements
  {
    for i := 0 to |elements|
      invariant applyThis.applied == old(applyThis.applied) + elements[..i]
    {
      applyThis.Apply(elements[i]);
      assert elements[..i + 1] == elements[..i] + [elements[i]];
    }
    assert elements[..|elements|] == elements;
  }

  /** `Array<T>.withEach(applyThis)`: the same, over the array's elements in index order. */
  method WithEachInArray<T>(a: array<T>, applyThis: Block<T>)
    modifies applyThis
    ensures applyThis.applied == old(applyThis.applied) + a[..]
  {
    for i := 0 to a.Length
      invariant applyThis.applied == old(applyThis.applied) + a[..i]
    {
      applyThis.Apply(a[i]);
      assert a[..i + 1] == a[..i] + [a[i]];
    }
    assert a[..a.Length] == a[..];
  }
}
