# glTF buffer importer, modelled in Dafny

This project models the buffer-resolution engine of a glTF 2.0 importer
(`src/importer.rs`). The importer reads an asset through an asset source. It
takes the GLB (binary container) path when the bytes start with ASCII
`glTF`, and the JSON path otherwise. It then gives every buffer the
document declares its bytes, from one of three places:

- an inline `data:` URI, whose payload is standard base64 (section 4 of RFC 4648);
- a file next to the asset;
- the GLB container's single BIN chunk, which at most one buffer can claim.

Bytes shorter than the declared length stop the import, and the error names
the JSON path `buffers[i]` of the first offending declaration. The resolved
buffers are handed out through `Buffers`: index-checked lookup and
bounds-checked view slicing.

Modules, one per component:

- `Outcome` (outcome.dfy): bytes, `Option`, the errors, and the panics. `Outcome<T>`
  is `Ok`, `Err` or `Panic`. Rust's `?` becomes Dafny's `:-`, and an `expect`
  or an out-of-range slice becomes a `Panic` value.
- `Base64` (base64.dfy): padded standard base64, with encoding and strict decoding
  proved to be inverse to each other.
- `DataUri` (datauri.dfy): `str::split(',')`, `nth(1)` and `parse_data_uri`.
- `JsonPath` (jsonpath.dfy): the `buffers[i]` message and its decimal index.
- `Paths` (paths.dfy): paths as component sequences, with `parent`, `join` and the
  base directory used for external buffers.
- `Resolver` (resolver.dfy): `load_external_buffers`. It is an imperative method
  whose loop is proved equal to a specification function, `Resolve`. The
  lemmas about `Resolve` state the ownership, ordering and length properties.
- `Accessor` (accessor.dfy): the `Buffers` value with `buffer`, `view` and `take`.
- `Importer` (importer.dfy): `import`, `import_standard` and `import_binary`.

The asset source is a map from path text to bytes. A path with nothing stored
under it fails with `NotFound`, and that failure stands for every read error.
The glTF document parser (`Gltf::from_slice`) and the GLB splitter
(`Glb::from_slice`) come from the `gltf` crate. Here they are function-valued
parameters of the import functions.

Behaviours of `src/importer.rs` worth knowing, which the model keeps:

- A data URI without a comma panics (the `expect` at `src/importer.rs:57`).
  No error value is returned for it.
- The payload is the text between the first comma and the next comma
  (`split(',').nth(1)`), not everything after the first comma.
- A `Bin` buffer with no chunk left panics with a fixed message
  (`src/importer.rs:83-85`). The message does not name the declaration.
- Buffer indices are `usize`, so lookup takes a natural number.

## Model

| member | source | states |
|---|---|---|
| `Resolver.FetchUri` | src/importer.rs:72-81 | Only a `data:` URI can panic, and only for a missing comma. A `data:` URI fails only with `InvalidBase64`; any other URI fails only with `NotFound` of its resolved sibling path. `Resolver.DataUriIgnoresSource` and `Resolver.ExternalUriReadsSibling` state the successful results. |
| `Resolver.Obtain` | src/importer.rs:71-86 | For `Bin`, it panics exactly when no chunk is left, and when a chunk is present it returns `Ok` with that chunk and leaves none behind, as `Option::take` does. A URI source leaves the chunk untouched. |
| `Resolver.IsDataUri` | src/importer.rs:73 | `uri.starts_with("data:")`: the URI's first five characters are `data:`. `Resolver.FetchUri`, `Resolver.DataUriIgnoresSource` and `Resolver.ExternalUriReadsSibling` state what each side of this test does. |
| `Resolver.ObtainBytes` | src/importer.rs:71-86 | The `match` of one loop iteration, written imperatively: it returns exactly what `Resolver.Obtain` specifies, so it fetches the URI or moves the chunk out and panics when none is left. |
| `Resolver.LoadExternalBuffers` | src/importer.rs:62-95 | The imperative loop matches the specification on every input: the result `Resolve` gives, with the same error or panic. |
| `Resolver.Resolve` | src/importer.rs:69-94 | A successful run returns exactly one buffer per declaration. Each buffer is at least as long as its declared `byteLength`. |
| `Resolver.Step` | src/importer.rs:71-92 | One iteration keeps every buffer pushed so far. It appends exactly one buffer, and that buffer meets its declared length. |
| `Resolver.FailureSticks` | src/importer.rs:74-91 | Once a prefix of the declarations fails, the whole call fails the same way. No later declaration is resolved. |
| `Resolver.FailureIsFirst` | src/importer.rs:70-93 | Every failure comes from the first failing declaration in order. All declarations before it resolved, and its step produced the outcome. |
| `Resolver.ShortBufferReported` | src/importer.rs:88-91 | The first declaration whose bytes are shorter than declared makes the call return `Err("buffers[k]")`, whatever follows it. |
| `Resolver.PrefixResolves` | src/importer.rs:70-93 | In a successful run, every prefix of the declarations resolves to the matching prefix of the buffers. |
| `Resolver.EntryObtained` | src/importer.rs:71-92 | Buffer `i` is exactly the bytes step `i` obtained, with no truncation or padding. |
| `Resolver.UriBufferExact` | src/importer.rs:72-81 | A buffer with a URI source holds exactly the bytes its URI stands for. The BIN chunk plays no part. |
| `Resolver.ChunkLeft` | src/importer.rs:83-85 | After a successful run, the chunk is gone exactly when some declaration claimed it. Otherwise it is unchanged. |
| `Resolver.BinClaimedOnce` | src/importer.rs:83-85 | In a successful run, a `Bin` buffer holds exactly the chunk's bytes, the chunk existed, and no other declaration is `Bin`. |
| `Resolver.BinUnavailablePanics` | src/importer.rs:83-85 | A `Bin` declaration reached after the chunk was claimed, or when none existed, makes the whole call panic. |
| `Resolver.DataUriIgnoresSource` | src/importer.rs:73-74 | A `data:` URI is decoded inline. Neither the asset source nor the asset path affects it. |
| `Resolver.ExternalUriReadsSibling` | src/importer.rs:75-81 | Any other URI reads the source under the resolved sibling path. It fails with `NotFound` exactly when nothing is stored there. |
| `Paths.ResolveUri` | src/importer.rs:76-79 | The resolved path's parent is the asset's parent, or `./` when the asset has none, and its last component is the URI. `Paths.ResolveUriIsSibling` shows no other path has both properties. |
| `Paths.ResolveUriIsSibling` | src/importer.rs:76-79 | For an asset path with a parent, the URI resolves to the one path that shares the asset's parent and ends in the URI. |
| `Paths.ResolveUriWithoutParent` | src/importer.rs:78-79 | When the asset path has no parent, the URI resolves to `./` followed by the URI. |
| `Paths.ResolveUriExample` | src/importer.rs:76-80 | `models/scene.gltf` with URI `data.bin` reads `models/data.bin`. |
| `Paths.Parent` | src/importer.rs:77-78 | A path has a parent exactly when it is not empty. The parent plus the last component gives the path back. |
| `DataUri.ParseDataUri` | src/importer.rs:56-60 | Its only panic is `UriWithoutComma` and its only error is `InvalidBase64`. `DataUri.ParseDataUriPanics`, `DataUri.ParseDataUriDecodes` and `DataUri.DataUriRoundTrip` state when each outcome occurs. |
| `DataUri.Split` | src/importer.rs:57 | `split` yields at least one field, and no field contains the separator. |
| `DataUri.JoinSplit` | src/importer.rs:57 | Joining the fields with the separator gives back the original text. |
| `DataUri.SplitHasSeveralFields` | src/importer.rs:57 | There is a second field exactly when the text contains the separator. |
| `DataUri.SecondFieldBetweenCommas` | src/importer.rs:57 | `nth(1)` is the text between the first comma and the next comma, or the end of the text. |
| `DataUri.SecondField` | src/importer.rs:57 | `split(',').nth(1)`: there is a second field exactly when the URI contains a comma. `DataUri.SecondFieldBetweenCommas` states which text it is. |
| `DataUri.ParseDataUriPanics` | src/importer.rs:57 | `parse_data_uri` panics exactly when the URI has no comma, and only for that reason. |
| `DataUri.ParseDataUriDecodes` | src/importer.rs:56-59 | With a comma present, the result is the decoded second field, or `InvalidBase64` when that field is not base64. |
| `DataUri.ParseEncoded` | src/importer.rs:56-59 | A comma-free header, a comma and the base64 encoding of any bytes parse back to those bytes. |
| `DataUri.DataUriRoundTrip` | src/importer.rs:56-59 | `data:application/octet-stream;base64,` plus base64(X) parses to X for every X, including the empty sequence. |
| `Base64.Encode` | src/importer.rs:58 | Padded standard base64 encoding. Its meaning is stated by `Base64.DecodeEncode`, `Base64.EncodeDecode` and `Base64.DecodeIsInverse`. |
| `Base64.Decode` | src/importer.rs:58 | Strict decoding of padded standard base64, the `base64::decode` call. It is the exact inverse of `Base64.Encode`, as `Base64.DecodeIsInverse` states. |
| `Base64.DecodeEncode` | src/importer.rs:58 | Decoding the base64 encoding of any bytes gives them back. |
| `Base64.EncodeDecode` | src/importer.rs:58 | Every text the model's decoder accepts is the encoding of its result. So under this canonical decoder no byte sequence has a second spelling; a decoder that tolerates missing padding would have one (see `Base64.Decode` under Left out). |
| `Base64.DecodeIsInverse` | src/importer.rs:58 | For the model's canonical decoder, `Decode(s) == Some(x)` holds exactly when `s == Encode(x)`. |
| `Base64.EncodeHasNoComma` | src/importer.rs:57-58 | No base64 encoding contains a comma, so an encoded payload is always a whole `split` field. |
| `JsonPath.BufferPath` | src/importer.rs:89-90 | The `buffers[i]` JSON path text for declaration `i`. `JsonPath.BufferPathInjective` states that it identifies the declaration and `JsonPath.ParseDecimalOfDecimal` that its index reads back. |
| `JsonPath.ParseDecimalOfDecimal` | src/importer.rs:89 | Reading the decimal index in the message gives back the index. |
| `JsonPath.BufferPathInjective` | src/importer.rs:89-90 | Different declarations get different `buffers[i]` messages, so the error names the offending buffer. |
| `Accessor.Buffers.Buffer` | src/importer.rs:15-17 | Lookup returns `Some` of the whole buffer exactly when the index is below the number of buffers, and `None` otherwise. |
| `Accessor.Buffers.View` | src/importer.rs:20-26 | A view returns `None` exactly when its buffer is absent. It panics exactly when `offset + length` passes the buffer's end. Otherwise it returns `length` bytes equal to the buffer's bytes from `offset`. It never returns an `Err`. |
| `Accessor.Buffers.Take` | src/importer.rs:29-31 | `take` returns one vector per buffer, each equal to what `buffer` returns for that index. |
| `Accessor.WholeBufferView` | src/importer.rs:20-26 | A view at offset 0 over the buffer's full length returns the whole buffer. |
| `Importer.Import` | src/importer.rs:35-46 | An asset the source cannot supply fails the import with `NotFound` of its path. A successful import returns one present buffer per declared buffer, each at least as long as declared. `Importer.ImportDispatch` states which import path runs. |
| `Importer.ImportStandard` | src/importer.rs:97-105 | A successful result carries the document parsed from the asset's bytes and one buffer per declaration, each long enough. `Importer.StandardRejectsBin` shows no `Bin` buffer can resolve here. |
| `Importer.ImportBinary` | src/importer.rs:107-117 | A successful result means the container split, and it carries the document parsed from the JSON chunk with one buffer per declaration, each long enough. `Importer.BinaryBinBuffer` states where the `Bin` buffer comes from. |
| `Importer.HasGlbMagic` | src/importer.rs:41 | `data.starts_with(b"glTF")`: at least four bytes, the first four being ASCII `glTF`. `Importer.ImportDispatch` and `Importer.MagicIsPrefixOnly` state how it chooses the path. |
| `Importer.DeclaredViewsReadable` | src/importer.rs:20-26 | After a successful import, every view the document declares inside its buffer's declared length reads exactly `length` bytes through `View` and never hits the slice panic. |
| `Importer.ImportDispatch` | src/importer.rs:39-45 | With the magic, `import` is the GLB import of the asset's bytes. Without it, the GLB splitter is never consulted and `import` is the JSON import. |
| `Importer.MagicIsPrefixOnly` | src/importer.rs:41 | The choice of path depends only on the first four bytes. |
| `Importer.StandardRejectsBin` | src/importer.rs:102-103 | The JSON path passes no chunk, so a document with a `Bin` buffer never imports. |
| `Importer.BinaryBinBuffer` | src/importer.rs:112-115 | On the GLB path, the `Bin` buffer holds exactly the container's BIN chunk, and it is the only `Bin` buffer. |

## Left out

- Reading the asset source (`AssetSource::load`, `read_to_end`, the `Arc` sharing) is an abstract map from path text to bytes. Every read error is represented as an absent key.
- The UTF-8 check on paths (`to_str().expect(...)`) is left out, because model paths are always text.
- JSON parsing (`Gltf::from_slice`) and GLB header and chunk parsing (`Glb::from_slice`) belong to the external `gltf` crate. They are parameters, not reimplementations. The parsed document keeps only its buffer and buffer-view declarations.
- `Paths.Render`: a path is a sequence of components joined by `/`. The components of an asset path are assumed non-empty and free of `/`; a value such as `["models/scene.gltf"]` is not the path `models/scene.gltf`, and its parent is the empty path. A buffer URI may contain `/`, and renders as Rust's `join` does. Other parts of `std::path` are not modelled: an absolute URI replacing the base on `join`, `..` components, and platform separators. A bare file name's parent is the empty path, as in Rust. Only the empty path has no parent.
- `Base64.Decode`: the decoder accepts only canonical padded text. Some versions of the `base64` crate also accept a last group with its `=` padding left out. The model rejects that input.
- The text of errors from the `base64` crate and the I/O layer is reduced to the tags `InvalidBase64` and `NotFound`.
- `Accessor.Buffers.View`: `offset + length` is computed on unbounded naturals. The `usize` overflow of that sum is not modelled.
- A panic is modelled as an `Outcome.Panic` value returned to the caller. Unwinding across threads is not modelled.
- `src/main.rs`, `src/gltf_format.rs` and `src/gltf_asset.rs` are application plumbing, a framework adapter and type declarations. They are not part of this model.
