/**
 * The download directory as a map from path to contents, with the
 * primitives the downloader calls: `os.path.exists`, `os.path.getsize`,
 * `os.remove`, `open(path, 'wb')` and `f.write`.
 */
module FileSystem {
  import opened Bytes

  type Files = map<string, seq<Byte>>

  /** `a` and `b` hold the same files at every path other than `path`. */
  ghost predicate AgreeExcept(a: Files, b: Files, path: string) {
    forall p :: p != path ==> (p in a <==> p in b) && (p in a ==> a[p] == b[p])
  }

  class Disk {
    var files: Files

    constructor (initial: Files)
      ensures files == initial
    {
      files := initial;
    }

    method Exists(path: string) returns (present: bool)
      ensures present <==> path in files
    {
      present := path in files;
    }

    method Size(path: string) returns (size: nat)
      requires path in files
      ensures size == |files[path]|
    {
      size := |files[path]|;
    }

    method Remove(path: string)
      requires path in files
      modifies this
      ensures files == old(files) - {path}
    {
      files := files - {path};
    }

    /** Opening for writing in binary mode creates the file or truncates it. */
    method Create(path: string)
      modifies this
      ensures files == old(files)[path := []]
    {
      files := files[path := []];
    }

    method Append(path: string, chunk: Chunk)
      requires path in files
      modifies this
      ensures files == old(files)[path := old(files)[path] + chunk]
    {
      files := files[path := files[path] + chunk];
    }

    /**
     * The chunk loop shared by both scripts: open `path` for writing,
     * write every chunk in turn and count the bytes in `downloaded`.
     */
    method WriteStream(path: string, chunks: seq<Chunk>) returns (downloaded: nat)
      modifies this
      ensures files == old(files)[path := Concat(chunks)]
      ensures downloaded == TotalLength(chunks) == |files[path]|
    {
      Create(path);
      downloaded := 0;
      for i := 0 to |chunks|
        invariant files == old(files)[path := Concat(chunks[..i])]
        invariant downloaded == TotalLength(chunks[..i])
      {
        assert chunks[..i + 1][..i] == chunks[..i];
        Append(path, chunks[i]);
        downloaded := downloaded + |chunks[i]|;
      }
      assert chunks[..|chunks|] == chunks;
      ConcatLength(chunks);
    }
  }
}
