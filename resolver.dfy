/** `load_external_buffers` (importer.rs:62-95): every declared buffer, in
    declaration order, gets its bytes from an inline `data:` URI, from a file
    next to the asset, or from the single embedded BIN chunk; bytes shorter
    than the declared length stop the import. */
module Resolver {
  import opened Outcome
  import Paths
  import DataUri
  import JsonPath

  /** `AssetSource::load`: the bytes stored under a key. A key with nothing
      stored under it fails, standing for every read error. */
  datatype AssetSource = AssetSource(files: map<string, seq<byte>>) {
    function Load(key: string): Outcome<seq<byte>> {
      if key in files then Ok(files[key]) else Err(NotFound(key))
    }
  }

  /** `gltf::buffer::Source`. */
  datatype BufferSource = Uri(uri: string) | Bin

  /** A buffer declaration of the glTF document: `byteLength` and where its bytes are. */
  datatype BufferDecl = BufferDecl(length: nat, source: BufferSource)

  predicate IsDataUri(uri: string) {
    |uri| >= 5 && uri[..5] == "data:"
  }

  /** The bytes a URI stands for: decoded inline for `data:` URIs, read from
      the file next to the asset otherwise (importer.rs:72-81). */
  function FetchUri(source: AssetSource, assetPath: Paths.Path, uri: string): (r: Outcome<seq<byte>>)
    ensures r.Panic? ==> IsDataUri(uri) && r.reason == UriWithoutComma
    ensures r.Err? ==> r.error == (if IsDataUri(uri) then InvalidBase64 else NotFound(Paths.Render(Paths.ResolveUri(assetPath, uri))))
  {
    if IsDataUri(uri) then DataUri.ParseDataUri(uri)
    else source.Load(Paths.Render(Paths.ResolveUri(assetPath, uri)))
  }

  /** What one buffer obtained, and what is left of the BIN chunk afterwards. */
  datatype Obtained = Obtained(data: seq<byte>, bin: Option<seq<byte>>)

  /** The bytes for one buffer source. `Bin` moves the chunk out, as
      `Option::take` does, and panics when it is not there (importer.rs:71-86). */
  function Obtain(source: AssetSource, assetPath: Paths.Path, from: BufferSource, bin: Option<seq<byte>>): (r: Outcome<Obtained>)
    ensures from == Bin ==> (r.Panic? <==> bin.None?)
    ensures from == Bin && bin.Some? ==> r == Ok(Obtained(bin.value, None))
    ensures from == Bin && r.Ok? ==> bin == Some(r.value.data) && r.value.bin == None
    ensures from != Bin && r.Ok? ==> r.value.bin == bin
  {
    match from
    case Uri(uri) =>
      var data :- FetchUri(source, assetPath, uri);
      Ok(Obtained(data, bin))
    case Bin =>
      match bin
      case None => Panic(BinUnavailable)
      case Some(chunk) => Ok(Obtained(chunk, None))
  }

  /** The loop's state: the buffers pushed so far and the unclaimed chunk. */
  datatype Progress = Progress(buffers: seq<seq<byte>>, bin: Option<seq<byte>>)

  /** One iteration of the loop: obtain the bytes, check the declared
      length, push (importer.rs:71-92). */
  function Step(source: AssetSource, assetPath: Paths.Path, before: Progress, index: nat, decl: BufferDecl): (r: Outcome<Progress>)
    ensures r.Ok? ==> |r.value.buffers| == |before.buffers| + 1
    ensures r.Ok? ==> r.value.buffers[..|before.buffers|] == before.buffers
    ensures r.Ok? ==> |r.value.buffers[|before.buffers|]| >= decl.length
  {
    var got :- Obtain(source, assetPath, decl.source, before.bin);
    if |got.data| < decl.length then Err(FromString(JsonPath.BufferPath(index)))
    else Ok(Progress(before.buffers + [got.data], got.bin))
  }

  /** The state after the loop has run over `decls`, starting with chunk `bin`. */
  function Resolve(source: AssetSource, assetPath: Paths.Path, decls: seq<BufferDecl>, bin: Option<seq<byte>>): (r: Outcome<Progress>)
    ensures r.Ok? ==> |r.value.buffers| == |decls|
    ensures r.Ok? ==> forall i :: 0 <= i < |decls| ==> |r.value.buffers[i]| >= decls[i].length
  {
    if |decls| == 0 then Ok(Progress([], bin))
    else
      var before :- Resolve(source, assetPath, decls[..|decls| - 1], bin);
      Step(source, assetPath, before, |decls| - 1, decls[|decls| - 1])
  }

  /** What `load_external_buffers` returns. */
  function LoadExternalBuffersSpec(source: AssetSource, assetPath: Paths.Path, decls: seq<BufferDecl>, bin: Option<seq<byte>>): Outcome<seq<seq<byte>>> {
    var done :- Resolve(source, assetPath, decls, bin);
    Ok(done.buffers)
  }

  /** `load_external_buffers` as the source writes it: a loop that pushes
      onto `buffers`, moves the chunk out of `bin`, and returns at the first
      failure. */
  method LoadExternalBuffers(source: AssetSource, assetPath: Paths.Path, decls: seq<BufferDecl>, bin0: Option<seq<byte>>)
    returns (r: Outcome<seq<seq<byte>>>)
    ensures r == LoadExternalBuffersSpec(source, assetPath, decls, bin0)
  {
    var bin := bin0;
    var buffers: seq<seq<byte>> := [];
    for index := 0 to |decls|
      invariant Resolve(source, assetPath, decls[..index], bin0) == Ok(Progress(buffers, bin))
    {
      var decl := decls[index];
      LoopStep(source, assetPath, decls, bin0, index, Progress(buffers, bin));
      var got := ObtainBytes(source, assetPath, decl.source, bin);
      var obtained :- got;
      var data := obtained.data;
      bin := obtained.bin;
      if |data| < decl.length {
        return Err(FromString(JsonPath.BufferPath(index)));
      }
      buffers := buffers + [data];
    }
    assert decls[..|decls|] == decls;
    r := Ok(buffers);
  }

  /** The `match buffer.source()` of one iteration: fetch the URI, or move
      the chunk out of `bin` (`bin.take().expect(...)`). */
  method ObtainBytes(source: AssetSource, assetPath: Paths.Path, from: BufferSource, bin: Option<seq<byte>>)
    returns (r: Outcome<Obtained>)
    ensures r == Obtain(source, assetPath, from, bin)
  {
    match from {
      case Uri(uri) =>
        var fetched: Outcome<seq<byte>>;
        if IsDataUri(uri) {
          fetched := DataUri.ParseDataUri(uri);
        } else {
          fetched := source.Load(Paths.Render(Paths.ResolveUri(assetPath, uri)));
        }
        var data :- fetched;
        r := Ok(Obtained(data, bin));
      case Bin =>
        if bin.None? {
          return Panic(BinUnavailable);
        }
        r := Ok(Obtained(bin.value, None));
    }
  }

  /** One iteration, in the terms the loop body uses: a failure to obtain
      the bytes, or bytes that fall short, decide the whole call; otherwise
      the resolved prefix grows by the obtained bytes. */
  lemma LoopStep(source: AssetSource, assetPath: Paths.Path, decls: seq<BufferDecl>, bin0: Option<seq<byte>>, index: nat, before: Progress)
    requires index < |decls|
    requires Resolve(source, assetPath, decls[..index], bin0) == Ok(before)
    ensures var got := Obtain(source, assetPath, decls[index].source, before.bin);
      && (got.IsFailure() ==>
            LoadExternalBuffersSpec(source, assetPath, decls, bin0) == got.PropagateFailure())
      && (got.Ok? && |got.value.data| < decls[index].length ==>
            LoadExternalBuffersSpec(source, assetPath, decls, bin0) == Err(FromString(JsonPath.BufferPath(index))))
      && (got.Ok? && |got.value.data| >= decls[index].length ==>
            Resolve(source, assetPath, decls[..index + 1], bin0) == Ok(Progress(before.buffers + [got.value.data], got.value.bin)))
  {
    assert decls[..index + 1][..index] == decls[..index];
    var next := Step(source, assetPath, before, index, decls[index]);
    assert Resolve(source, assetPath, decls[..index + 1], bin0) == next;
    if next.IsFailure() {
      FailureSticks(source, assetPath, decls, bin0, index + 1);
    }
  }

  /** Once a prefix of the declarations fails, the whole call fails the
      same way: no later declaration is looked at. */
  lemma {:induction false} FailureSticks(source: AssetSource, assetPath: Paths.Path, decls: seq<BufferDecl>, bin: Option<seq<byte>>, k: nat)
    requires k <= |decls|
    requires Resolve(source, assetPath, decls[..k], bin).IsFailure()
    ensures Resolve(source, assetPath, decls, bin) == Resolve(source, assetPath, decls[..k], bin)
  {
    if k < |decls| {
      var shorter := decls[..|decls| - 1];
      assert shorter[..k] == decls[..k];
      FailureSticks(source, assetPath, shorter, bin, k);
    } else {
      assert decls[..k] == decls;
    }
  }

  /** Resolving a longer list first resolves its prefix the same way. */
  lemma {:induction false} PrefixResolves(source: AssetSource, assetPath: Paths.Path, decls: seq<BufferDecl>, bin: Option<seq<byte>>, k: nat)
    requires k <= |decls|
    requires Resolve(source, assetPath, decls, bin).Ok?
    ensures Resolve(source, assetPath, decls[..k], bin).Ok?
    ensures Resolve(source, assetPath, decls[..k], bin).value.buffers == Resolve(source, assetPath, decls, bin).value.buffers[..k]
  {
    if k < |decls| {
      var shorter := decls[..|decls| - 1];
      assert shorter[..k] == decls[..k];
      PrefixResolves(source, assetPath, shorter, bin, k);
      var before := Resolve(source, assetPath, shorter, bin).value.buffers;
      var after := Resolve(source, assetPath, decls, bin).value.buffers;
      assert after[..|before|] == before;
      assert after[..k] == before[..k];
    } else {
      assert decls[..k] == decls;
    }
  }

  /** The buffer at `i` is exactly what step `i` obtained, given the state
      the earlier declarations left. */
  lemma EntryObtained(source: AssetSource, assetPath: Paths.Path, decls: seq<BufferDecl>, bin: Option<seq<byte>>, i: nat)
    requires i < |decls|
    requires Resolve(source, assetPath, decls, bin).Ok?
    ensures Resolve(source, assetPath, decls[..i], bin).Ok?
    ensures Obtain(source, assetPath, decls[i].source, Resolve(source, assetPath, decls[..i], bin).value.bin).Ok?
    ensures Obtain(source, assetPath, decls[i].source, Resolve(source, assetPath, decls[..i], bin).value.bin).value.data
            == Resolve(source, assetPath, decls, bin).value.buffers[i]
  {
    PrefixResolves(source, assetPath, decls, bin, i + 1);
    PrefixResolves(source, assetPath, decls, bin, i);
    var upto := decls[..i + 1];
    assert upto[..i] == decls[..i] && upto[i] == decls[i];
  }

  /** Whether some declaration before `k` names the BIN chunk. */
  predicate ClaimsBinBefore(decls: seq<BufferDecl>, k: nat)
    requires k <= |decls|
  {
    exists j :: 0 <= j < k && decls[j].source == Bin
  }

  /** A declaration before `n + 1` claims the chunk when one before `n` does or the one at `n` does. */
  lemma ClaimsBinExtend(decls: seq<BufferDecl>, n: nat)
    requires n < |decls|
    ensures ClaimsBinBefore(decls, n + 1) <==> ClaimsBinBefore(decls[..n], n) || decls[n].source == Bin
  {
    if ClaimsBinBefore(decls, n + 1) && decls[n].source != Bin {
      var j :| 0 <= j < n + 1 && decls[j].source == Bin;
      assert decls[..n][j] == decls[j];
    }
    if ClaimsBinBefore(decls[..n], n) {
      var j :| 0 <= j < n && decls[..n][j].source == Bin;
      assert decls[j] == decls[..n][j];
    }
  }

  /** After a successful run the chunk is gone exactly when some declaration
      claimed it; otherwise it is still the one the call started with. */
  lemma {:induction false} ChunkLeft(source: AssetSource, assetPath: Paths.Path, decls: seq<BufferDecl>, bin: Option<seq<byte>>)
    requires Resolve(source, assetPath, decls, bin).Ok?
    ensures Resolve(source, assetPath, decls, bin).value.bin == if ClaimsBinBefore(decls, |decls|) then None else bin
  {
    if |decls| > 0 {
      var n := |decls| - 1;
      var shorter := decls[..n];
      ChunkLeft(source, assetPath, shorter, bin);
      ClaimsBinExtend(decls, n);
      var before := Resolve(source, assetPath, shorter, bin).value;
      assert Resolve(source, assetPath, decls, bin) == Step(source, assetPath, before, n, decls[n]);
    }
  }

  /** A declaration with a URI source gets exactly the bytes its URI stands
      for: no truncation, no padding, and the chunk plays no part. */
  lemma UriBufferExact(source: AssetSource, assetPath: Paths.Path, decls: seq<BufferDecl>, bin: Option<seq<byte>>, i: nat)
    requires i < |decls| && decls[i].source.Uri?
    requires Resolve(source, assetPath, decls, bin).Ok?
    ensures FetchUri(source, assetPath, decls[i].source.uri) == Ok(Resolve(source, assetPath, decls, bin).value.buffers[i])
  {
    EntryObtained(source, assetPath, decls, bin, i);
  }

  /** The chunk goes to at most one declaration: in a successful run, a
      `Bin` declaration received exactly the chunk's bytes, the chunk was
      there, and no other declaration is `Bin`. */
  lemma BinClaimedOnce(source: AssetSource, assetPath: Paths.Path, decls: seq<BufferDecl>, bin: Option<seq<byte>>, i: nat)
    requires i < |decls| && decls[i].source == Bin
    requires Resolve(source, assetPath, decls, bin).Ok?
    ensures bin == Some(Resolve(source, assetPath, decls, bin).value.buffers[i])
    ensures forall j :: 0 <= j < |decls| && j != i ==> decls[j].source != Bin
  {
    EntryObtained(source, assetPath, decls, bin, i);
    ChunkLeft(source, assetPath, decls[..i], bin);
    assert !ClaimsBinBefore(decls[..i], i);
    forall j | 0 <= j < |decls| && j != i
      ensures decls[j].source != Bin
    {
      if j < i {
        assert decls[..i][j] == decls[j];
      } else if decls[j].source == Bin {
        EntryObtained(source, assetPath, decls, bin, j);
        ChunkLeft(source, assetPath, decls[..j], bin);
        assert false;
      }
    }
  }

  /** A `Bin` declaration reached after the chunk was claimed, or when there
      never was one, panics, and that panic is the outcome of the whole call. */
  lemma BinUnavailablePanics(source: AssetSource, assetPath: Paths.Path, decls: seq<BufferDecl>, bin: Option<seq<byte>>, k: nat)
    requires k < |decls| && decls[k].source == Bin
    requires Resolve(source, assetPath, decls[..k], bin).Ok?
    requires bin == None || ClaimsBinBefore(decls, k)
    ensures Resolve(source, assetPath, decls, bin) == Panic(BinUnavailable)
  {
    var before := Resolve(source, assetPath, decls[..k], bin).value;
    ChunkLeft(source, assetPath, decls[..k], bin);
    if ClaimsBinBefore(decls, k) {
      var j :| 0 <= j < k && decls[j].source == Bin;
      assert decls[..k][j] == decls[j];
    }
    assert before.bin == None;
    var upto := decls[..k + 1];
    assert upto[..k] == decls[..k] && upto[k] == decls[k];
    assert Step(source, assetPath, before, k, decls[k]) == Panic(BinUnavailable);
    assert Resolve(source, assetPath, upto, bin) == Panic(BinUnavailable);
    FailureSticks(source, assetPath, decls, bin, k + 1);
  }

  /** The first declaration whose bytes fall short decides the outcome: an
      error naming `buffers[k]`, whatever follows it. */
  lemma ShortBufferReported(source: AssetSource, assetPath: Paths.Path, decls: seq<BufferDecl>, bin: Option<seq<byte>>, k: nat)
    requires k < |decls|
    requires Resolve(source, assetPath, decls[..k], bin).Ok?
    requires Obtain(source, assetPath, decls[k].source, Resolve(source, assetPath, decls[..k], bin).value.bin).Ok?
    requires |Obtain(source, assetPath, decls[k].source, Resolve(source, assetPath, decls[..k], bin).value.bin).value.data| < decls[k].length
    ensures Resolve(source, assetPath, decls, bin) == Err(FromString(JsonPath.BufferPath(k)))
  {
    var upto := decls[..k + 1];
    assert upto[..k] == decls[..k] && upto[k] == decls[k];
    FailureSticks(source, assetPath, decls, bin, k + 1);
  }

  /** Every failure is the failure of the first declaration that fails:
      all declarations before it resolved, and its own step gave the outcome. */
  lemma {:induction false} FailureIsFirst(source: AssetSource, assetPath: Paths.Path, decls: seq<BufferDecl>, bin: Option<seq<byte>>)
    requires Resolve(source, assetPath, decls, bin).IsFailure()
    ensures exists k :: (0 <= k < |decls| && Resolve(source, assetPath, decls[..k], bin).Ok? &&
      Step(source, assetPath, Resolve(source, assetPath, decls[..k], bin).value, k, decls[k]) == Resolve(source, assetPath, decls, bin))
  {
    var n := |decls| - 1;
    var shorter := decls[..n];
    if Resolve(source, assetPath, shorter, bin).IsFailure() {
      FailureIsFirst(source, assetPath, shorter, bin);
      var k :| 0 <= k < |shorter| && Resolve(source, assetPath, shorter[..k], bin).Ok? &&
        Step(source, assetPath, Resolve(source, assetPath, shorter[..k], bin).value, k, shorter[k]) == Resolve(source, assetPath, shorter, bin);
      assert shorter[..k] == decls[..k] && shorter[k] == decls[k];
      assert Resolve(source, assetPath, decls, bin) == Resolve(source, assetPath, shorter, bin);
    } else {
      assert Resolve(source, assetPath, decls, bin) == Step(source, assetPath, Resolve(source, assetPath, shorter, bin).value, n, decls[n]);
    }
  }

  /** A `data:` URI is decoded inline: neither the asset source nor the
      asset's path plays any part. */
  lemma DataUriIgnoresSource(source1: AssetSource, source2: AssetSource, path1: Paths.Path, path2: Paths.Path, uri: string)
    requires IsDataUri(uri)
    ensures FetchUri(source1, path1, uri) == FetchUri(source2, path2, uri) == DataUri.ParseDataUri(uri)
  {
  }

  /** Any other URI is read from the asset source under the path next to
      the asset, and fails exactly when the source has nothing there. */
  lemma ExternalUriReadsSibling(source: AssetSource, assetPath: Paths.Path, uri: string)
    requires !IsDataUri(uri)
    ensures var key := Paths.Render(Paths.ResolveUri(assetPath, uri));
      FetchUri(source, assetPath, uri) == if key in source.files then Ok(source.files[key]) else Err(NotFound(key))
  {
  }
}
