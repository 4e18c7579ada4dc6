/** The failure-carrying values the model uses in place of Java's exceptions and nulls. */
module Wrappers {

  /** The Java exceptions that the core can raise on the paths the model follows. */
  datatype Exception =
    | NumberFormat            // Integer.parseInt on a malformed or out-of-range field
    | StringIndexOutOfBounds  // String.substring with an index outside the string
    | IndexOutOfBounds        // ArrayList.get with an index outside the list
    | EndOfFile               // DataInput.readInt past the end of the stream

  datatype Option<+T> = None | Some(value: T)

  /** A computation that returns a value or throws. */
  datatype Result<+T> = Success(value: T) | Failure(error: Exception)

  /** A computation that returns nothing or throws. */
  datatype Outcome = Pass | Fail(error: Exception)
}

/** The part of Hadoop's task context the core uses: the pairs a task writes. */
module MapReduce {

  class Context<K, V> {
    /** Every (key, value) pair written through this context, in order. */
    var written: seq<(K, V)>

    constructor ()
      ensures written == []
    {
      written := [];
    }

    method Write(key: K, value: V)
      modifies this
      ensures written == old(written) + [(key, value)]
    {
      written := written + [(key, value)];
    }
  }
}
