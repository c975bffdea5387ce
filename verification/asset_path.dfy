/** Asset path resolution: `GetAssetsPath` (Renderer.h) and
    `Renderer::GetAssetFullPath` (Renderer.cpp). The directory of the running
    executable is found by asking the OS for the module file name and cutting
    it immediately after its last backslash. */
module AssetPath {
  import opened Ints
  import opened Outcomes

  const BACKSLASH: char := '\\'

  /** Size of the `WCHAR assetsPath[512]` buffer `Renderer::Init` passes in. */
  const INIT_BUFFER_SIZE: uint32 := 512

  /** Index of the last occurrence of `c` in `s`, if any (the index form of `wcsrchr`). */
  function LastIndexOf(s: seq<char>, c: char): (r: Option<nat>)
    ensures r.None? <==> c !in s
    ensures r.Some? ==> r.value < |s| && s[r.value] == c
    ensures r.Some? ==> forall j :: r.value < j < |s| ==> s[j] != c
    decreases |s|
  {
    if |s| == 0 then None
    else if s[|s| - 1] == c then Some(|s| - 1)
    else LastIndexOf(s[..|s| - 1], c)
  }

  /** `wcsrchr(path, c)`: scans the string from the front, remembering the
      latest match, and returns its position (or nothing, for a null result). */
  method Wcsrchr(s: seq<char>, c: char) returns (r: Option<nat>)
    ensures r == LastIndexOf(s, c)
  {
    r := None;
    var k := 0;
    while k < |s|
      invariant k <= |s|
      invariant r == LastIndexOf(s[..k], c)
    {
      assert s[..k + 1][..k] == s[..k];
      if s[k] == c {
        r := Some(k);
      }
      k := k + 1;
    }
    assert s[..k] == s;
  }

  /** `*(lastSlash + 1) = L'\0'`: keep everything up to and including the last
      backslash; a path without a backslash is left unchanged. */
  function TruncateAfterLastBackslash(s: seq<char>): (r: seq<char>)
    ensures |r| <= |s| && r == s[..|r|]
    ensures BACKSLASH in s ==> |r| > 0 && r[|r| - 1] == BACKSLASH && BACKSLASH !in s[|r|..]
    ensures BACKSLASH !in s ==> r == s
  {
    match LastIndexOf(s, BACKSLASH)
    case None => s
    case Some(i) => s[..i + 1]
  }

  /** What `GetModuleFileName(nullptr, path, pathSize)` leaves behind: the
      count it returns and the NUL-terminated text it wrote. */
  datatype ModuleFileName = ModuleFileName(size: nat, text: seq<char>)

  /** The documented contract of `GetModuleFileName`, with the executable's
      full name as a parameter (`None` when the call fails): a name that fits
      is copied and its length returned; a name that does not fit is cut to
      `pathSize - 1` characters plus the terminator and `pathSize` is returned. */
  function GetModuleFileName(moduleName: Option<seq<char>>, pathSize: uint32): (r: ModuleFileName)
    ensures r.size <= pathSize
    ensures moduleName.Some? && |moduleName.value| < pathSize ==> r == ModuleFileName(|moduleName.value|, moduleName.value)
    ensures moduleName.Some? && |moduleName.value| >= pathSize ==> r.size == pathSize
    ensures moduleName.None? ==> r.size == 0
  {
    match moduleName
    case None => ModuleFileName(0, [])
    case Some(name) =>
      if |name| < pathSize then ModuleFileName(|name|, name)
      else ModuleFileName(pathSize, if pathSize == 0 then [] else name[..pathSize - 1])
  }

  /** `GetAssetsPath(path, pathSize)`: throws for a null buffer, for a failed
      query (size 0) and for a truncated one (size == pathSize); otherwise the
      directory part of the module name, ending in its last backslash. */
  function GetAssetsPath(bufferIsNull: bool, pathSize: uint32, moduleName: Option<seq<char>>): (r: Result<seq<char>>)
    ensures r.Throw? <==> bufferIsNull || moduleName.None? || |moduleName.value| == 0 || |moduleName.value| >= pathSize
    ensures r.Throw? ==> r.exception == StdException
    ensures r.Ok? ==> r.value == TruncateAfterLastBackslash(moduleName.value)
  {
    if bufferIsNull then Throw(StdException)
    else
      var written := GetModuleFileName(moduleName, pathSize);
      if written.size == 0 || written.size == pathSize then Throw(StdException)
      else Ok(TruncateAfterLastBackslash(written.text))
  }

  /** `m_assetsPath + assetName`: the asset name appended to the directory. */
  function GetAssetFullPath(assetsPath: seq<char>, assetName: seq<char>): (r: seq<char>)
    ensures |r| == |assetsPath| + |assetName|
    ensures r[..|assetsPath|] == assetsPath && r[|assetsPath|..] == assetName
  {
    assetsPath + assetName
  }

  /** Cutting a path twice gives the same directory as cutting it once. */
  lemma {:induction false} TruncateIdempotent(s: seq<char>)
    ensures TruncateAfterLastBackslash(TruncateAfterLastBackslash(s)) == TruncateAfterLastBackslash(s)
  {
    var r := TruncateAfterLastBackslash(s);
    if BACKSLASH in s {
      assert r[|r| - 1] == BACKSLASH;
      assert LastIndexOf(r, BACKSLASH) == Some(|r| - 1);
    }
  }

  /** Appending text without the searched character does not move its last occurrence. */
  lemma {:induction false} LastIndexOfAppend(a: seq<char>, b: seq<char>, c: char)
    requires c !in b
    ensures LastIndexOf(a + b, c) == LastIndexOf(a, c)
    decreases |b|
  {
    if |b| == 0 {
      assert a + b == a;
    } else {
      var b' := b[..|b| - 1];
      assert (a + b)[..|a + b| - 1] == a + b';
      assert (a + b)[|a + b| - 1] == b[|b| - 1];
      LastIndexOfAppend(a, b', c);
    }
  }

  /** The directory of a full asset path is the assets path it was built from,
      as long as the asset name is a bare file name. */
  lemma FullPathDirectory(assetsPath: seq<char>, assetName: seq<char>)
    requires |assetsPath| > 0 && assetsPath[|assetsPath| - 1] == BACKSLASH
    requires BACKSLASH !in assetName
    ensures TruncateAfterLastBackslash(GetAssetFullPath(assetsPath, assetName)) == assetsPath
  {
    LastIndexOfAppend(assetsPath, assetName, BACKSLASH);
    assert LastIndexOf(assetsPath, BACKSLASH) == Some(|assetsPath| - 1);
    assert (assetsPath + assetName)[..|assetsPath|] == assetsPath;
  }

  /** `Renderer::Init` resolves "shaders.hlsl" next to the executable: when the
      module name fits the 512-character buffer and contains a backslash, the
      shader path lies in the same directory as the executable. */
  lemma ShaderPathBesideExecutable(moduleName: seq<char>)
    requires 0 < |moduleName| < INIT_BUFFER_SIZE
    requires BACKSLASH in moduleName
    ensures GetAssetsPath(false, INIT_BUFFER_SIZE, Some(moduleName)).Ok?
    ensures
      var dir := GetAssetsPath(false, INIT_BUFFER_SIZE, Some(moduleName)).value;
      && dir == moduleName[..|dir|]
      && TruncateAfterLastBackslash(GetAssetFullPath(dir, "shaders.hlsl")) == dir
  {
    var dir := GetAssetsPath(false, INIT_BUFFER_SIZE, Some(moduleName)).value;
    assert BACKSLASH !in "shaders.hlsl";
    FullPathDirectory(dir, "shaders.hlsl");
  }
}
