// Types shared by every component: bytes, labels, names and the usual Option.
module Prelude {

  datatype Option<+T> = None | Some(value: T)

  type Byte = b: int | 0 <= b < 256

  type Word = x: int | 0 <= x < 0x1_0000_0000

  // A C string without its terminator.
  type Name = seq<Byte>

  type Label = seq<Byte>

  // Labels of a name from the top-level domain downwards: the order in which
  // the tree is walked.
  type Path = seq<Label>

  const DOT: Byte := 46
  const HYPHEN: Byte := 45

  function Last<T>(s: seq<T>): T
    requires s != []
  {
    s[|s| - 1]
  }

  function Front<T>(s: seq<T>): seq<T>
    requires s != []
  {
    s[..|s| - 1]
  }

  function Reverse<T>(s: seq<T>): (r: seq<T>)
    ensures |r| == |s|
    ensures forall i :: 0 <= i < |s| ==> r[i] == s[|s| - 1 - i]
  {
    if s == [] then [] else Reverse(s[1..]) + [s[0]]
  }

  ghost predicate Distinct<T>(s: seq<T>) {
    forall i, j :: 0 <= i < j < |s| ==> s[i] != s[j]
  }

  function MinNat(a: nat, b: nat): nat {
    if a <= b then a else b
  }

  function MaxNat(a: nat, b: nat): nat {
    if a >= b then a else b
  }
}
