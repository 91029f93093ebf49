/** What every part of the project shares. */
module Basics {

  datatype Option<T> = None | Some(value: T)

  ghost predicate Distinct<T>(s: seq<T>)
  {
    forall i, j :: 0 <= i < j < |s| ==> s[i] != s[j]
  }

  const PAGE := 0x1000
  const TWO_64 := 0x1_0000_0000_0000_0000

  function PageOf(addr: nat): nat
  {
    addr - addr % PAGE
  }
}
