/** `import`, `import_standard` and `import_binary` (importer.rs:34-46,
    97-117): read the asset, choose the GLB or the JSON path from its first
    four bytes, parse, and resolve the buffers. The glTF document parser
    (`Gltf::from_slice`) and the GLB splitter (`Glb::from_slice`) belong to
    the `gltf` crate and are parameters here. */
module Importer {
  import opened Outcome
  import Paths
  import Resolver
  import Accessor

  /** The parts of a parsed glTF document the importer uses. */
  datatype Document = Document(buffers: seq<Resolver.BufferDecl>, views: seq<Accessor.ViewDecl>)

  /** A split GLB container: the JSON chunk and the optional BIN chunk. */
  datatype Glb = Glb(json: seq<byte>, bin: Option<seq<byte>>)

  /** What a successful import hands to the caller. */
  datatype Imported = Imported(document: Document, buffers: Accessor.Buffers)

  /** The GLB magic, ASCII `glTF`. */
  const GlbMagic: seq<byte> := [0x67, 0x6C, 0x54, 0x46]

  /** `data.starts_with(b"glTF")`. */
  predicate HasGlbMagic(data: seq<byte>) {
    |data| >= 4 && data[..4] == GlbMagic
  }

  /** One buffer per declared buffer, each present and at least as long as declared. */
  predicate Aligned(res: Imported) {
    && |res.buffers.contents| == |res.document.buffers|
    && forall i :: 0 <= i < |res.document.buffers| ==>
         res.buffers.Buffer(i).Some? && |res.buffers.contents[i]| >= res.document.buffers[i].length
  }

  /** `import_standard`: the bytes are the JSON document, and no BIN chunk exists. */
  function ImportStandard(data: seq<byte>, source: Resolver.AssetSource, assetPath: Paths.Path,
                          parseGltf: seq<byte> -> Outcome<Document>): (r: Outcome<Imported>)
    ensures r.Ok? ==> parseGltf(data) == Ok(r.value.document)
    ensures r.Ok? ==> Aligned(r.value)
  {
    var document :- parseGltf(data);
    var buffers :- Resolver.LoadExternalBuffersSpec(source, assetPath, document.buffers, None);
    Ok(Imported(document, Accessor.Buffers(buffers)))
  }

  /** `import_binary`: split the container, parse its JSON chunk, and offer
      its BIN chunk to the buffers. */
  function ImportBinary(data: seq<byte>, source: Resolver.AssetSource, assetPath: Paths.Path,
                        parseGltf: seq<byte> -> Outcome<Document>, splitGlb: seq<byte> -> Outcome<Glb>): (r: Outcome<Imported>)
    ensures r.Ok? ==> splitGlb(data).Ok? && parseGltf(splitGlb(data).value.json) == Ok(r.value.document)
    ensures r.Ok? ==> Aligned(r.value)
  {
    var glb :- splitGlb(data);
    var document :- parseGltf(glb.json);
    var buffers :- Resolver.LoadExternalBuffersSpec(source, assetPath, document.buffers, glb.bin);
    Ok(Imported(document, Accessor.Buffers(buffers)))
  }

  /** `import`: read the asset, then take the GLB path exactly when it starts with the magic. */
  function Import(source: Resolver.AssetSource, assetPath: Paths.Path,
                  parseGltf: seq<byte> -> Outcome<Document>, splitGlb: seq<byte> -> Outcome<Glb>): (r: Outcome<Imported>)
    ensures Paths.Render(assetPath) !in source.files ==> r == Err(NotFound(Paths.Render(assetPath)))
    ensures r.Ok? ==> Aligned(r.value)
  {
    var data :- source.Load(Paths.Render(assetPath));
    if HasGlbMagic(data) then ImportBinary(data, source, assetPath, parseGltf, splitGlb)
    else ImportStandard(data, source, assetPath, parseGltf)
  }

  /** The first four bytes alone choose the path: with the magic the import
      is the GLB import of the asset's bytes; without it the GLB splitter is
      never consulted and the import is the JSON import. */
  lemma ImportDispatch(source: Resolver.AssetSource, assetPath: Paths.Path, data: seq<byte>,
                       parseGltf: seq<byte> -> Outcome<Document>, split1: seq<byte> -> Outcome<Glb>, split2: seq<byte> -> Outcome<Glb>)
    requires source.Load(Paths.Render(assetPath)) == Ok(data)
    ensures HasGlbMagic(data) ==> Import(source, assetPath, parseGltf, split1) == ImportBinary(data, source, assetPath, parseGltf, split1)
    ensures !HasGlbMagic(data) ==>
      Import(source, assetPath, parseGltf, split1) == Import(source, assetPath, parseGltf, split2) == ImportStandard(data, source, assetPath, parseGltf)
  {
  }

  /** The magic test looks at the first four bytes and nothing else. */
  lemma MagicIsPrefixOnly(data: seq<byte>, other: seq<byte>)
    requires |data| >= 4 && |other| >= 4 && data[..4] == other[..4]
    ensures HasGlbMagic(data) <==> HasGlbMagic(other)
  {
  }

  /** After a successful import, every view the document declares inside
      its buffer's declared length reads that many bytes through `View`;
      none of them can hit the slice panic. */
  lemma DeclaredViewsReadable(res: Imported)
    requires Aligned(res)
    ensures forall v ::
      (v in res.document.views && v.buffer < |res.document.buffers| &&
       v.offset + v.length <= res.document.buffers[v.buffer].length) ==>
        res.buffers.View(v).Ok? && res.buffers.View(v).value.Some? && |res.buffers.View(v).value.value| == v.length
  {
  }

  /** The JSON path has no BIN chunk, so a document with a `Bin` buffer never imports. */
  lemma StandardRejectsBin(data: seq<byte>, source: Resolver.AssetSource, assetPath: Paths.Path,
                           parseGltf: seq<byte> -> Outcome<Document>, i: nat)
    requires parseGltf(data).Ok?
    requires i < |parseGltf(data).value.buffers| && parseGltf(data).value.buffers[i].source == Resolver.Bin
    ensures !ImportStandard(data, source, assetPath, parseGltf).Ok?
  {
    var decls := parseGltf(data).value.buffers;
    if Resolver.Resolve(source, assetPath, decls, None).Ok? {
      Resolver.BinClaimedOnce(source, assetPath, decls, None, i);
    }
  }

  /** On the GLB path the `Bin` buffer receives exactly the container's BIN
      chunk, and it is the only `Bin` buffer. */
  lemma BinaryBinBuffer(data: seq<byte>, source: Resolver.AssetSource, assetPath: Paths.Path,
                        parseGltf: seq<byte> -> Outcome<Document>, splitGlb: seq<byte> -> Outcome<Glb>, i: nat)
    requires ImportBinary(data, source, assetPath, parseGltf, splitGlb).Ok?
    requires var doc := ImportBinary(data, source, assetPath, parseGltf, splitGlb).value.document;
      i < |doc.buffers| && doc.buffers[i].source == Resolver.Bin
    ensures var res := ImportBinary(data, source, assetPath, parseGltf, splitGlb).value;
      && splitGlb(data).Ok?
      && splitGlb(data).value.bin == Some(res.buffers.contents[i])
      && forall j :: 0 <= j < |res.document.buffers| && j != i ==> res.document.buffers[j].source != Resolver.Bin
  {
    var glb := splitGlb(data).value;
    var decls := parseGltf(glb.json).value.buffers;
    Resolver.BinClaimedOnce(source, assetPath, decls, glb.bin, i);
  }
}
