/**
  Shared vocabulary of the model: bytes, the Option and Result wrappers, the
  failures the pipeline can end in, and flattening of nested sequences.
 */
module Base {

  type Byte = bv8
  type Bytes = seq<Byte>

  const NEWLINE: Byte := 10
  const AT_SIGN: Byte := 64

  datatype Option<T> = None | Some(value: T)

  /** The ways a run ends without a result. */
  datatype Failure =
    | NoGuideKeys        // `next(iter(...))` on an empty guide map (StopIteration)
    | UnboundLastMatch   // `m.end()` before any match was ever bound (NameError)
    | UnboundLastBatch   // `seqs` after a loop that never ran (UnboundLocalError)

  datatype Result<T> = Ok(value: T) | Err(error: Failure)

  /** Concatenation of a sequence of sequences, left to right. */
  function Flatten<T>(xss: seq<seq<T>>): seq<T>
  {
    if xss == [] then [] else xss[0] + Flatten(xss[1..])
  }

  lemma {:induction false} FlattenAppend<T>(xss: seq<seq<T>>, yss: seq<seq<T>>)
    ensures Flatten(xss + yss) == Flatten(xss) + Flatten(yss)
  {
    if xss == [] {
      assert xss + yss == yss;
    } else {
      assert (xss + yss)[0] == xss[0];
      assert (xss + yss)[1..] == xss[1..] + yss;
      FlattenAppend(xss[1..], yss);
    }
  }

  lemma FlattenSnoc<T>(xss: seq<seq<T>>, ys: seq<T>)
    ensures Flatten(xss + [ys]) == Flatten(xss) + ys
  {
    FlattenAppend(xss, [ys]);
    assert [ys][1..] == [];
  }

  /** Python's `d[e:]` for a non-negative `e`: empty once `e` passes the end. */
  function Drop(d: Bytes, e: nat): (r: Bytes)
    ensures e <= |d| ==> r == d[e..]
    ensures e > |d| ==> r == []
  {
    if e <= |d| then d[e..] else []
  }
}
