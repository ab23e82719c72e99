/** Error-carrying results, standing in for the exceptions the library throws. */
module Results {

  /** Either the value an operation returns or the error it throws. */
  datatype Result<+T, +E> = Ok(value: T) | Err(error: E)

  /** A value that may be absent (a null pointer in the library). */
  datatype Option<+T> = None | Some(value: T)
}

/** Small facts about sequences of sequences shared by the other modules. */
module Seqs {

  /** All the pieces of `xss`, concatenated in order. */
  function Flatten<X>(xss: seq<seq<X>>): seq<X>
  {
    if |xss| == 0 then [] else xss[0] + Flatten(xss[1..])
  }

  /** Flattening distributes over concatenation. */
  lemma {:induction false} FlattenAppend<X>(a: seq<seq<X>>, b: seq<seq<X>>)
    ensures Flatten(a + b) == Flatten(a) + Flatten(b)
  {
    if |a| == 0 {
      assert a + b == b;
    } else {
      assert (a + b)[1..] == a[1..] + b;
      FlattenAppend(a[1..], b);
    }
  }
}
