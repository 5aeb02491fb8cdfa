/** What both reactors share: bytes on a wire and callbacks. */
module Wire {
  type Byte = x: int | 0 <= x < 256

  /** A completion callback: the call it belongs to and the result it is given. */
  datatype Callback<I> = Callback(id: I, result: int)

  function LogIds<I>(log: seq<Callback<I>>): (ids: seq<I>)
    ensures |ids| == |log|
  {
    seq(|log|, i requires 0 <= i < |log| => log[i].id)
  }
}
