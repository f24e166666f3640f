/** `Buffers` (importer.rs:8-32): the resolved buffers, index-aligned with
    the document's buffer declarations, with checked lookup and slicing. */
module Accessor {
  import opened Outcome

  /** A buffer-view declaration: which buffer, and the byte range in it. */
  datatype ViewDecl = ViewDecl(buffer: nat, offset: nat, length: nat)

  datatype Buffers = Buffers(contents: seq<seq<byte>>) {

    /** `Buffers::buffer`: the whole buffer at `index`, or nothing when the
        index is past the resolved buffers; it never fails. */
    function Buffer(index: nat): (r: Option<seq<byte>>)
      ensures r.Some? <==> index < |contents|
      ensures r.Some? ==> r.value == contents[index]
    {
      if index < |contents| then Some(contents[index]) else None
    }

    /** `Buffers::view`: nothing when the view's buffer is absent, the bytes
        `[offset, offset + length)` of that buffer when they lie inside it,
        and a slice panic when they run past its end. */
    function View(view: ViewDecl): (r: Outcome<Option<seq<byte>>>)
      ensures !r.Err?
      ensures r == Ok(None) <==> Buffer(view.buffer) == None
      ensures r.Panic? <==> Buffer(view.buffer).Some? && view.offset + view.length > |Buffer(view.buffer).value|
      ensures r.Panic? ==> r.reason == SliceOutOfRange
      ensures r.Ok? && r.value.Some? ==>
        && |r.value.value| == view.length
        && forall k :: 0 <= k < view.length ==> r.value.value[k] == contents[view.buffer][view.offset + k]
    {
      match Buffer(view.buffer)
      case None => Ok(None)
      case Some(data) =>
        var begin := view.offset;
        var end := begin + view.length;
        if end <= |data| then Ok(Some(data[begin..end])) else Panic(SliceOutOfRange)
    }

    /** `Buffers::take`: the buffers themselves, each the one `Buffer` returns. */
    function Take(): (r: seq<seq<byte>>)
      ensures |r| == |contents|
      ensures forall i :: 0 <= i < |r| ==> Buffer(i) == Some(r[i])
    {
      contents
    }
  }

  /** A view from offset 0 over the whole length of its buffer is the whole buffer. */
  lemma WholeBufferView(b: Buffers, index: nat)
    requires index < |b.contents|
    ensures b.View(ViewDecl(index, 0, |b.contents[index]|)) == Ok(Some(b.contents[index]))
  {
    assert b.contents[index][0..|b.contents[index]|] == b.contents[index];
  }
}
