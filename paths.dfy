/** File-system paths as the importer uses them: a path is its sequence of
    components, `Parent` drops the last one, `Join` appends a relative one,
    and `Render` is the `/`-separated text handed to the asset source. */
module Paths {

  import opened Outcome

  type Path = seq<string>

  /** `Path::parent`: the path without its last component; the empty path has none. */
  function Parent(p: Path): (r: Option<Path>)
    ensures r.Some? <==> |p| > 0
    ensures r.Some? ==> r.value + [p[|p| - 1]] == p
  {
    if |p| == 0 then None else Some(p[..|p| - 1])
  }

  /** `Path::join` with a relative component. */
  function Join(base: Path, component: string): Path {
    base + [component]
  }

  /** `Path::new("./")`, the base used when the asset path has no parent. */
  const CurrentDir: Path := ["."]

  /** The text of a path, its components separated by `/`. */
  function Render(p: Path): string {
    if |p| == 0 then ""
    else if |p| == 1 then p[0]
    else Render(p[..|p| - 1]) + "/" + p[|p| - 1]
  }

  /** The directory external buffer files are read from: the asset's parent,
      or `./` when the asset path has none. */
  function BaseDir(assetPath: Path): Path {
    match Parent(assetPath)
    case Some(dir) => dir
    case None => CurrentDir
  }

  /** The path an external buffer URI is read from (importer.rs:76-79). */
  function ResolveUri(assetPath: Path, uri: string): (r: Path)
    ensures Parent(r) == Some(BaseDir(assetPath))
    ensures r[|r| - 1] == uri
  {
    Join(BaseDir(assetPath), uri)
  }

  /** The buffer file is a sibling of the asset: it has the asset's parent
      and ends in the URI; and no other path has both properties. */
  lemma ResolveUriIsSibling(assetPath: Path, uri: string, q: Path)
    requires |assetPath| > 0
    ensures q == ResolveUri(assetPath, uri) <==> Parent(q) == Parent(assetPath) && q[|q| - 1] == uri
  {
    if Parent(q) == Parent(assetPath) && q[|q| - 1] == uri {
      assert q == Parent(q).value + [q[|q| - 1]];
    }
  }

  /** Without a parent the URI is read relative to `./`. */
  lemma ResolveUriWithoutParent(uri: string)
    ensures Render(ResolveUri([], uri)) == "./" + uri
  {
    assert ResolveUri([], uri) == [".", uri];
    assert Render([".", uri][..1]) == ".";
  }

  /** `models/scene.gltf` with buffer URI `data.bin` reads `models/data.bin`,
      not `data.bin` in the working directory. */
  lemma ResolveUriExample()
    ensures Render(ResolveUri(["models", "scene.gltf"], "data.bin")) == "models/data.bin"
  {
    var p := ResolveUri(["models", "scene.gltf"], "data.bin");
    assert p == ["models", "data.bin"];
    assert p[..1] == ["models"];
  }
}
