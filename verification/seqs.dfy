/** Facts about sequences used by several modules. */
module Seqs {
  /** Concatenation is associative; stated once so that callers need not re-derive it. */
  lemma Assoc<T>(a: seq<T>, b: seq<T>, c: seq<T>)
    ensures a + b + c == a + (b + c)
  {
  }
}
