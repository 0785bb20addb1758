/** `AbstractController`: the resource path every controller's routes hang under. */
module Controllers {
  import Text

  /** The text `resourcePath + "/" + p1 + ... + "/" + pn` spelled out: a slash before every part. */
  function Slashed(paths: seq<string>): string
    decreases |paths|
  {
    if paths == [] then "" else "/" + paths[0] + Slashed(paths[1..])
  }

  /** Joining the resource path and the parts with `/` is the resource path followed by each
      part with a slash in front. */
  lemma {:induction false} JoinIsSlashed(root: string, paths: seq<string>)
    ensures Text.Join([root] + paths, "/") == root + Slashed(paths)
    decreases |paths|
  {
    if paths != [] {
      JoinIsSlashed(paths[0], paths[1..]);
      assert ([root] + paths)[1..] == [paths[0]] + paths[1..];
      assert [paths[0]] + paths[1..] == paths;
    } else {
      assert [root] + paths == [root];
    }
  }

  /** One more part lands at the end: parts keep their order. */
  lemma {:induction false} SlashedAppend(paths: seq<string>, last: string)
    ensures Slashed(paths + [last]) == Slashed(paths) + "/" + last
    decreases |paths|
  {
    if paths == [] {
      assert paths + [last] == [last];
    } else {
      assert (paths + [last])[1..] == paths[1..] + [last];
      SlashedAppend(paths[1..], last);
    }
  }

  class AbstractController {
    const resourcePath: string

    constructor (resourcePath: string)
      ensures this.resourcePath == resourcePath
    {
      this.resourcePath := resourcePath;
    }

    /** `buildPath`: a fresh array holding the resource path and then the parts, joined by `/`.
        The result starts with the resource path, is the resource path alone without parts, and
        otherwise lists every part, in order, each behind a slash. */
    method BuildPath(paths: seq<string>) returns (r: string)
      ensures r == resourcePath + Slashed(paths)
      ensures Text.StartsWith(r, resourcePath)
      ensures paths == [] ==> r == resourcePath
    {
      var allPaths := new string[|paths| + 1];
      allPaths[0] := resourcePath;
      var i := 0;
      while i < |paths|
        invariant 0 <= i <= |paths|
        invariant allPaths[0] == resourcePath
        invariant forall k :: 0 <= k < i ==> allPaths[k + 1] == paths[k]
      {
        allPaths[i + 1] := paths[i];
        i := i + 1;
      }
      assert allPaths[..] == [resourcePath] + paths;
      r := Text.Join(allPaths[..], "/");
      JoinIsSlashed(resourcePath, paths);
    }
  }
}
