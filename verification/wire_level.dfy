/** A buffer level as the run of records the reference reader reads from
    it, one after the other, until the level ends. */
module WireLevel {
  import opened Wrappers
  import opened Bytes
  import opened Wire

  /** The records of a level from offset `i`, in the order the reader meets
      them; every blob body is shorter than the buffer. */
  function Records(buf: seq<Byte>, i: nat): (r: seq<Item>)
    ensures forall k :: 0 <= k < |r| ==> r[k].BlobItem? ==> |r[k].body| < |buf|
    decreases |buf| - i
  {
    match Step(buf, i)
    case None => []
    case Some((item, n)) => [item] + Records(buf, n)
  }

  /** The field numbers of a run of records. */
  function Fields(items: seq<Item>): (r: seq<nat>)
    ensures |r| == |items|
    ensures forall k :: 0 <= k < |r| ==> r[k] == items[k].field
  {
    if |items| == 0 then [] else [items[0].field] + Fields(items[1..])
  }
}
