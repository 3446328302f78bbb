/** Sequences: as sets, and put together. */
module Seqs {

  function Elems(s: seq<nat>): set<nat> {
    set d | d in s
  }

  lemma Associate<T>(a: seq<T>, b: seq<T>, c: seq<T>)
    ensures (a + b) + c == a + (b + c)
  {
  }
}
