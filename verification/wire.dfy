/** The record structure of one protobuf buffer level ("Message Structure" in
    Google's protobuf Encoding guide) as the repository's permissive walkers
    see it: a tag varint whose low three bits are the wire type and whose
    remaining bits are the field number, then a varint value (type 0), a
    length-prefixed body (type 2), or 8 / 4 fixed bytes (types 1 / 5). Any
    read failure or any other wire type ends the level. This is the reference
    against which the individual walkers are checked. */
module Wire {
  import opened Wrappers
  import opened Bytes
  import Varint

  /** `tag >> 3` */
  function FieldOf(tag: nat): nat {
    tag / 8
  }

  /** `tag & 0x7` */
  function WireOf(tag: nat): nat {
    tag % 8
  }

  datatype Item =
    | VarintItem(field: nat, value: nat)
    | BlobItem(field: nat, len: nat, body: seq<Byte>)
    | Fixed64Item(field: nat)
    | Fixed32Item(field: nat)

  /** One record read at offset `i` with the ceiling-free varint reader,
      with the offset where the next record starts; `None` when the level
      ends here (end of buffer, truncated varint, or wire type 3, 4, 6, 7).
      A body is the clamped slice `buf[k:k+len]`. */
  function Step(buf: seq<Byte>, i: nat): (r: Option<(Item, nat)>)
    ensures r.Some? ==> i < |buf| && i < r.value.1
    ensures r.Some? && r.value.0.BlobItem? ==> |r.value.0.body| + 2 <= r.value.1 - i
    ensures r.Some? && r.value.0.BlobItem? ==> |r.value.0.body| + 2 <= |buf| - i
    ensures r.Some? && r.value.0.VarintItem? ==> r.value.1 <= |buf|
  {
    if i >= |buf| then None
    else match Varint.Read(buf, i, None)
      case Failure(_) => None
      case Success((tag, j)) =>
        var f := FieldOf(tag);
        var w := WireOf(tag);
        if w == 0 then
          match Varint.Read(buf, j, None)
          case Failure(_) => None
          case Success((v, k)) => Some((VarintItem(f, v), k))
        else if w == 2 then
          match Varint.Read(buf, j, None)
          case Failure(_) => None
          case Success((ln, k)) => Some((BlobItem(f, ln, Slice(buf, k, k + ln)), k + ln))
        else if w == 1 then Some((Fixed64Item(f), j + 8))
        else if w == 5 then Some((Fixed32Item(f), j + 4))
        else None
  }

  /** The reads of a blob record written as its tag, its length and its
      body: the tag, then the length, then the body. */
  lemma BlobReads(buf: seq<Byte>, i: nat, tag: nat, body: seq<Byte>, et: seq<Byte>, el: seq<Byte>)
    requires et == Varint.Encode(tag) && el == Varint.Encode(|body|)
    requires At(buf, i, et + el + body)
    ensures i < |buf| && Varint.Read(buf, i, None) == Success((tag, i + |et|))
    ensures Varint.Read(buf, i + |et|, None) == Success((|body|, i + |et| + |el|))
    ensures Slice(buf, i + |et| + |el|, i + |et| + |el| + |body|) == body
  {
    BlobParts(buf, i, et, el, body);
    Varint.ReadAt(buf, i, tag);
    Varint.ReadAt(buf, i + |et|, |body|);
    SliceAt(buf, i + |et| + |el|, body);
  }

  /** Where the three parts of a blob record sit. */
  lemma BlobParts(buf: seq<Byte>, i: nat, et: seq<Byte>, el: seq<Byte>, body: seq<Byte>)
    requires At(buf, i, et + el + body)
    ensures At(buf, i, et) && At(buf, i + |et|, el) && At(buf, i + |et| + |el|, body)
  {
    AtSplit(buf, i, et + el, body);
    AtSplit(buf, i, et, el);
  }

  /** `Step` on a blob record whose tag and length have been read and whose
      body is `body`. */
  lemma StepBlob(buf: seq<Byte>, i: nat, tag: nat, j: nat, body: seq<Byte>, k: nat)
    requires i < |buf| && WireOf(tag) == 2
    requires Varint.Read(buf, i, None) == Success((tag, j)) && Varint.Read(buf, j, None) == Success((|body|, k))
    requires Slice(buf, k, k + |body|) == body
    ensures Step(buf, i) == Some((BlobItem(FieldOf(tag), |body|, body), k + |body|))
  {
  }

  /** `Step` on a varint record whose tag and value have been read. */
  lemma StepVarint(buf: seq<Byte>, i: nat, tag: nat, j: nat, v: nat, k: nat)
    requires i < |buf| && WireOf(tag) == 0
    requires Varint.Read(buf, i, None) == Success((tag, j)) && Varint.Read(buf, j, None) == Success((v, k))
    ensures Step(buf, i) == Some((VarintItem(FieldOf(tag), v), k))
  {
  }

  /** `Step` on a fixed 64-bit record whose tag has been read: the eight
      bytes are skipped whether or not they are there. */
  lemma StepFixed64(buf: seq<Byte>, i: nat, tag: nat, j: nat)
    requires i < |buf| && WireOf(tag) == 1
    requires Varint.Read(buf, i, None) == Success((tag, j))
    ensures Step(buf, i) == Some((Fixed64Item(FieldOf(tag)), j + 8))
  {
  }
}
