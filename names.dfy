/**
 * Name normalisation: the local file a remote archive is stored under is
 * the last segment of the URL's path with the vendor prefix `openZIM_`
 * removed once, placed in the download directory.
 */
module Names {
  import opened Strings

  const VendorPrefix: string := "openZIM_"

  /**
   * `os.path.basename(urlparse(url).path)`: the query (`?`) and fragment
   * (`#`) are cut off, the text after the last `/` is taken, and the
   * parameters (`;`) of that last segment are cut off.
   */
  function UrlBasename(url: string): (name: string)
    ensures forall k :: 0 <= k < |name| ==> name[k] !in {'/', '?', '#', ';'}
  {
    var hierarchical := Before(url, {'?', '#'});
    Before(AfterLast(hierarchical, '/'), {';'})
  }

  /** The basename is the last segment of the URL's path, cut at its first `;`. */
  lemma UrlBasenameLocated(url: string)
    ensures NameOfLastSegment(Before(url, {'?', '#'}), UrlBasename(url))
  {
    var hierarchical := Before(url, {'?', '#'});
    var segment := AfterLast(hierarchical, '/');
    var i := |hierarchical| - |segment|;
    assert forall k :: 0 <= k < |segment| ==> segment[k] == hierarchical[i + k];
    assert hierarchical[i..] == segment;
    assert LastSegmentAt(hierarchical, i);
    var name := Before(segment, {';'});
    assert |name| < |segment| ==> segment[|name|] == ';';
    assert |name| < |hierarchical| - i ==> hierarchical[i + |name|] == segment[|name|];
    assert StartsWith(hierarchical[i..], name);
    assert SegmentNameAt(hierarchical, i, name);
  }

  /** `name` is the last `/`-separated segment of `h` up to its first `;`. */
  ghost predicate NameOfLastSegment(h: string, name: string) {
    exists i :: SegmentNameAt(h, i, name)
  }

  /** The last segment of `h` starts at `i`, and `name` is that segment up to its first `;`. */
  ghost predicate SegmentNameAt(h: string, i: int, name: string) {
    && LastSegmentAt(h, i)
    && StartsWith(h[i..], name)
    && (|name| < |h| - i ==> h[i + |name|] == ';')
  }

  /** The last `/`-separated segment of `h` starts at index `i`. */
  ghost predicate LastSegmentAt(h: string, i: int) {
    && 0 <= i <= |h|
    && (i == 0 || h[i - 1] == '/')
    && forall k :: i <= k < |h| ==> h[k] != '/'
  }

  /** The local file name of `url`: its basename, `openZIM_` removed once when it starts the name. */
  function LocalName(url: string): (name: string)
    ensures StartsWith(UrlBasename(url), VendorPrefix) ==> VendorPrefix + name == UrlBasename(url)
    ensures !StartsWith(UrlBasename(url), VendorPrefix) ==> name == UrlBasename(url)
    ensures forall k :: 0 <= k < |name| ==> name[k] != '/'
  {
    RemovePrefix(UrlBasename(url), VendorPrefix)
  }

  /** Removing the vendor prefix never touches a `.zim` extension. */
  lemma StripKeepsExtension(b: string)
    requires EndsWith(b, ".zim")
    ensures EndsWith(RemovePrefix(b, VendorPrefix), ".zim")
  {
    if StartsWith(b, VendorPrefix) {
      assert b[..8] == VendorPrefix && b[|b| - 4] == '.';
      assert '.' !in VendorPrefix;
      assert |b| >= 12;
      assert b[8..][|b[8..]| - 4..] == b[|b| - 4..];
    }
  }

  /** The local name of a `.zim` archive is still a `.zim` name. */
  lemma LocalNameKeepsExtension(url: string)
    requires EndsWith(UrlBasename(url), ".zim")
    ensures EndsWith(LocalName(url), ".zim")
  {
    StripKeepsExtension(UrlBasename(url));
  }

  /** `os.path.join(dir, name)` for a name that is not an absolute path. */
  function Join(dir: string, name: string): (path: string)
    ensures StartsWith(path, dir) && EndsWith(path, name)
    ensures |path| == |dir| + |name| || (|path| == |dir| + 1 + |name| && path[|dir|] == '/')
  {
    if dir == [] || dir[|dir| - 1] == '/' then dir + name else dir + "/" + name
  }

  /** `os.path.join` inserts a `/` exactly when the directory is non-empty and does not end in one. */
  lemma JoinAddsSlash(dir: string, name: string)
    ensures |Join(dir, name)| == |dir| + 1 + |name| <==> dir != [] && dir[|dir| - 1] != '/'
  {
  }

  /** Two different names never share a path within one directory. */
  lemma JoinInjective(dir: string, a: string, b: string)
    requires Join(dir, a) == Join(dir, b)
    ensures a == b
  {
    var d := if dir == [] || dir[|dir| - 1] == '/' then dir else dir + "/";
    assert Join(dir, a) == d + a && Join(dir, b) == d + b;
    assert a == (d + a)[|d|..] && b == (d + b)[|d|..];
  }

  /** The path `url` is stored at inside `dir`. */
  function LocalPath(dir: string, url: string): string {
    Join(dir, LocalName(url))
  }

  /** The local path is the directory, a `/` when the directory does not end in one, and the local name. */
  lemma LocalPathShape(dir: string, url: string)
    ensures StartsWith(LocalPath(dir, url), dir) && EndsWith(LocalPath(dir, url), LocalName(url))
    ensures |LocalPath(dir, url)| == |dir| + |LocalName(url)| + (if dir != [] && dir[|dir| - 1] != '/' then 1 else 0)
    ensures |LocalPath(dir, url)| > |dir| + |LocalName(url)| ==> LocalPath(dir, url)[|dir|] == '/'
  {
  }
}
