/** Wrappers and machine integers shared by the other modules. */
module Prelude {

  datatype Option<+T> = None | Some(value: T)

  datatype Result<+T, +E> = Ok(value: T) | Err(error: E)

  ghost predicate Distinct<T>(s: seq<T>) {
    forall i, j :: 0 <= i < j < |s| ==> s[i] != s[j]
  }

  /** Go's `int32`. */
  type int32 = x: int | -0x8000_0000 <= x < 0x8000_0000

  /** Two's complement wrap-around of a 32-bit addition. */
  function Wrap32(x: int): (r: int32)
    ensures -0x8000_0000 <= x < 0x8000_0000 ==> r == x
  {
    (x + 0x8000_0000) % 0x1_0000_0000 - 0x8000_0000
  }

  predicate Fits64(x: int) {
    -0x8000_0000_0000_0000 <= x < 0x8000_0000_0000_0000
  }

  /** Two's complement wrap-around of a 64-bit operation. */
  function Wrap64(x: int): (r: int)
    ensures Fits64(r)
    ensures Fits64(x) ==> r == x
  {
    (x + 0x8000_0000_0000_0000) % 0x1_0000_0000_0000_0000 - 0x8000_0000_0000_0000
  }

  /** Wrapping changes a number by a multiple of the range only. */
  lemma WrapIsCongruent(x: int)
    ensures (x - Wrap32(x)) % 0x1_0000_0000 == 0 && (x - Wrap64(x)) % 0x1_0000_0000_0000_0000 == 0
  {}

  /** Labels of a namespace or of an option; a nil Go map is modelled by `Option` where it matters. */
  type Labels = map<string, string>

  datatype Requirement = Requirement(key: string, operator: string, values: seq<string>)

  /** A label selector as written in a custom resource. */
  datatype LabelSelector = LabelSelector(matchLabels: map<string, string>, matchExpressions: seq<Requirement>)

  /** Selector compilation is library code: an arbitrary partial function from selectors
      to predicates on label sets. Every statement below holds for each such function. */
  type Compiler = LabelSelector -> Option<Labels -> bool>
}
