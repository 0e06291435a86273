/**
 * The downloading pass (DownloadZims.py): every archive of the index page
 * that has no local file yet is streamed to disk; a file that exists is
 * never touched, whatever its size.
 */
module DownloadZims {
  import opened Wrappers
  import opened Bytes
  import opened Names
  import opened Links
  import opened Http
  import opened FileSystem

  /** The loop that builds `zim_links` with `append`, in document order. */
  method CollectZimLinks(hrefs: seq<string>, resolve: string -> string) returns (zimLinks: seq<string>)
    ensures zimLinks == ZimLinks(hrefs, resolve)
  {
    zimLinks := [];
    for i := 0 to |hrefs|
      invariant zimLinks == ZimLinks(hrefs[..i], resolve)
    {
      assert hrefs[..i + 1][..i] == hrefs[..i];
      if IsZimHref(hrefs[i]) {
        zimLinks := zimLinks + [resolve(hrefs[i])];
      }
    }
    assert hrefs[..|hrefs|] == hrefs;
  }

  /** How one archive was handled. */
  datatype Outcome =
    | AlreadyExists          // skipped: a file of that name is present
    | Saved(downloaded: nat) // the whole body was written
    | Failed                 // a RequestException or IOError, caught and reported
    | Crashed                // a ValueError from the Content-Length header, which nothing catches

  datatype Step = Step(outcome: Outcome, files: Files)

  /** One iteration of the main loop, for the archive at `url` with GET reply `reply`. */
  function DownloadEntry(files: Files, dir: string, url: string, reply: GetReply): (s: Step)
    ensures LocalPath(dir, url) in files ==> s == Step(AlreadyExists, files)
    ensures s.outcome == AlreadyExists <==> LocalPath(dir, url) in files
    ensures s.outcome == Crashed <==> LocalPath(dir, url) !in files && reply.Responded? && reply.contentLength.NotAnInteger?
    ensures LocalPath(dir, url) !in files && reply.Opens() ==> s.files == files[LocalPath(dir, url) := Concat(reply.chunks)]
    ensures !reply.Opens() ==> s.files == files
    ensures s.outcome.Saved? <==> LocalPath(dir, url) !in files && reply.Completes()
    ensures s.outcome.Saved? ==> s.outcome.downloaded == |s.files[LocalPath(dir, url)]|
  {
    var path := LocalPath(dir, url);
    if path in files then Step(AlreadyExists, files)
    else match reply
      case RequestFailed => Step(Failed, files)
      case Responded(contentLength, chunks, end) =>
        if contentLength.NotAnInteger? then Step(Crashed, files)
        else if end == OpenFailed then Step(Failed, files)
        else
          var written := files[path := Concat(chunks)];
          if end == Completed then
            ConcatLength(chunks);
            Step(Saved(TotalLength(chunks)), written)
          else Step(Failed, written)
  }

  /** The only files a run creates are at the local paths of its links. */
  lemma {:induction false} DownloadRunCreatesOnlyLinkPaths(files: Files, dir: string, links: seq<string>, server: Server, p: string)
    requires p in DownloadRun(files, dir, links, server).files && p !in files
    ensures exists u :: u in links && LocalPath(dir, u) == p
    decreases |links|
  {
    var s := DownloadEntry(files, dir, links[0], server.get(links[0]));
    if p !in s.files {
      DownloadRunCreatesOnlyLinkPaths(s.files, dir, links[1..], server, p);
      var u :| u in links[1..] && LocalPath(dir, u) == p;
      assert u in links;
    } else {
      assert LocalPath(dir, links[0]) == p;
    }
  }

  /**
   * Fault isolation: request and disk errors are caught per entry, so a run
   * in which no archive has an unparsable Content-Length header handles every entry.
   */
  lemma {:induction false} DownloadRunReachesEveryEntry(files: Files, dir: string, links: seq<string>, server: Server)
    requires forall u :: u in links ==> !(server.get(u).Responded? && server.get(u).contentLength.NotAnInteger?)
    ensures !DownloadRun(files, dir, links, server).aborted
    ensures |DownloadRun(files, dir, links, server).outcomes| == |links|
    decreases |links|
  {
    if links != [] {
      assert forall u :: u in links[1..] ==> u in links;
      var s := DownloadEntry(files, dir, links[0], server.get(links[0]));
      DownloadRunReachesEveryEntry(s.files, dir, links[1..], server);
    }
  }

  /** Once every file of the listing exists, a run skips every entry and changes nothing. */
  lemma {:induction false} DownloadRunSkipsExisting(files: Files, dir: string, links: seq<string>, server: Server)
    requires forall u :: u in links ==> LocalPath(dir, u) in files
    ensures var b := DownloadRun(files, dir, links, server);
            b.files == files && !b.aborted && forall k :: 0 <= k < |links| ==> b.outcomes[k] == AlreadyExists
    decreases |links|
  {
    if links != [] {
      assert forall u :: u in links[1..] ==> u in links;
      DownloadRunSkipsExisting(files, dir, links[1..], server);
      assert DownloadEntry(files, dir, links[0], server.get(links[0])) == Step(AlreadyExists, files);
      var rest := DownloadRun(files, dir, links[1..], server);
      var b := DownloadRun(files, dir, links, server);
      assert b == Batch([AlreadyExists] + rest.outcomes, rest.files, rest.aborted);
      forall k | 0 <= k < |links|
        ensures b.outcomes[k] == AlreadyExists
      {
        if k > 0 {
          assert b.outcomes[k] == rest.outcomes[k - 1];
        }
      }
    }
  }

  /**
   * Re-running from the directory `g` that a first run left behind keeps
   * `g` as it is and stops, or not, just as the first run did.
   */
  lemma {:induction false} RerunKeepsResult(files: Files, g: Files, dir: string, links: seq<string>, server: Server)
    requires g == DownloadRun(files, dir, links, server).files
    ensures DownloadRun(g, dir, links, server).files == g
    ensures DownloadRun(g, dir, links, server).aborted == DownloadRun(files, dir, links, server).aborted
    decreases |links|
  {
    if links != [] {
      var x := links[0];
      var s := DownloadEntry(files, dir, x, server.get(x));
      var t := DownloadEntry(g, dir, x, server.get(x));
      if s.outcome != Crashed {
        RerunKeepsResult(s.files, g, dir, links[1..], server);
        assert t.files == g;
        assert t.outcome != Crashed by {
          if LocalPath(dir, x) !in s.files {
            assert s.files == files && !server.get(x).Opens();
          }
        }
      }
    }
  }

  /**
   * Idempotence: with the server unchanged, a second run over the same
   * listing leaves the directory exactly as the first run left it.
   */
  lemma DownloadRunIdempotent(files: Files, dir: string, links: seq<string>, server: Server)
    ensures var first := DownloadRun(files, dir, links, server);
            DownloadRun(first.files, dir, links, server).files == first.files
  {
    RerunKeepsResult(files, DownloadRun(files, dir, links, server).files, dir, links, server);
  }

  /** The body of the main loop: skip an existing file, else stream the archive into it. */
  method SaveArchive(disk: Disk, dir: string, url: string, reply: GetReply) returns (outcome: Outcome)
    modifies disk
    ensures Step(outcome, disk.files) == DownloadEntry(old(disk.files), dir, url, reply)
  {
    var path := LocalPath(dir, url);
    var present := disk.Exists(path);
    if present {
      return AlreadyExists;
    }
    if reply.RequestFailed? {
      return Failed;
    }
    if reply.contentLength.NotAnInteger? {
      return Crashed;
    }
    if reply.end == OpenFailed {
      return Failed;
    }
    var downloaded := disk.WriteStream(path, reply.chunks);
    if reply.end == Completed {
      outcome := Saved(downloaded);
    } else {
      outcome := Failed;
    }
  }

  /** The outcomes in listing order, the directory afterwards, and whether an uncaught error stopped the loop. */
  datatype Batch = Batch(outcomes: seq<Outcome>, files: Files, aborted: bool)

  /**
   * The main loop over `links`: each entry in turn, until one crashes.
   * Existing files are kept as they are and never removed.
   */
  function DownloadRun(files: Files, dir: string, links: seq<string>, server: Server): (b: Batch)
    ensures b.aborted <==> Crashed in b.outcomes
    ensures b.aborted ==> 0 < |b.outcomes| <= |links| && b.outcomes[|b.outcomes| - 1] == Crashed
    ensures !b.aborted ==> |b.outcomes| == |links|
    ensures files.Keys <= b.files.Keys
    ensures forall p :: p in files ==> b.files[p] == files[p]
    decreases |links|
  {
    if links == [] then Batch([], files, false)
    else
      var s := DownloadEntry(files, dir, links[0], server.get(links[0]));
      if s.outcome == Crashed then Batch([Crashed], files, true)
      else
        var rest := DownloadRun(s.files, dir, links[1..], server);
        Batch([s.outcome] + rest.outcomes, rest.files, rest.aborted)
  }

  /**
   * Where a run stops: the outcome reported for link `k` is the one
   * `DownloadEntry` gives for it on the directory the earlier links left,
   * and those earlier links did not stop the run.
   */
  lemma {:induction false} DownloadRunOutcomeAt(files: Files, dir: string, links: seq<string>, server: Server, k: nat)
    requires k < |DownloadRun(files, dir, links, server).outcomes|
    ensures var before := DownloadRun(files, dir, links[..k], server);
            && !before.aborted
            && DownloadRun(files, dir, links, server).outcomes[k]
               == DownloadEntry(before.files, dir, links[k], server.get(links[k])).outcome
    decreases k
  {
    var s := DownloadEntry(files, dir, links[0], server.get(links[0]));
    if k == 0 {
      assert links[..0] == [];
    } else {
      assert s.outcome != Crashed;
      var rest := DownloadRun(s.files, dir, links[1..], server);
      assert DownloadRun(files, dir, links, server).outcomes == [s.outcome] + rest.outcomes;
      DownloadRunOutcomeAt(s.files, dir, links[1..], server, k - 1);
      assert links[1..][k - 1] == links[k];
      PrefixRunUnfolds(files, dir, links, server, k);
    }
  }

  /** The run over the first `k` links, unfolded by its first entry when that one does not crash. */
  lemma PrefixRunUnfolds(files: Files, dir: string, links: seq<string>, server: Server, k: nat)
    requires 0 < k <= |links|
    requires DownloadEntry(files, dir, links[0], server.get(links[0])).outcome != Crashed
    ensures var s := DownloadEntry(files, dir, links[0], server.get(links[0]));
            var later := DownloadRun(s.files, dir, links[1..][..k - 1], server);
            DownloadRun(files, dir, links[..k], server) == Batch([s.outcome] + later.outcomes, later.files, later.aborted)
  {
    var prefix := links[..k];
    assert prefix[0] == links[0] && prefix[1..] == links[1..][..k - 1];
  }

  /** The run over the links from index `i` on, unfolded by one entry. */
  lemma RunFrom(files: Files, dir: string, links: seq<string>, server: Server, i: nat)
    requires i < |links|
    ensures var s := DownloadEntry(files, dir, links[i], server.get(links[i]));
            var rest := DownloadRun(s.files, dir, links[i + 1..], server);
            DownloadRun(files, dir, links[i..], server)
            == if s.outcome == Crashed then Batch([Crashed], files, true)
               else Batch([s.outcome] + rest.outcomes, rest.files, rest.aborted)
  {
    assert links[i..][0] == links[i] && links[i..][1..] == links[i + 1..];
  }

  /**
   * `download_zim_files(url, download_dir)` for an index page whose anchors
   * are `page` (`None` when the page cannot be fetched). `aborted` is set
   * when the ValueError of a bad Content-Length header leaves the function.
   */
  method DownloadZimFiles(disk: Disk, dir: string, page: Option<seq<string>>, resolve: string -> string, server: Server)
    returns (outcomes: seq<Outcome>, aborted: bool)
    modifies disk
    ensures page.None? ==> disk.files == old(disk.files) && outcomes == [] && !aborted
    ensures page.Some? ==>
              Batch(outcomes, disk.files, aborted) == DownloadRun(old(disk.files), dir, ZimLinks(page.value, resolve), server)
  {
    outcomes, aborted := [], false;
    if page.None? {
      return;
    }
    var zimLinks := CollectZimLinks(page.value, resolve);
    if |zimLinks| == 0 {
      return;
    }
    ghost var whole := DownloadRun(old(disk.files), dir, zimLinks, server);
    assert zimLinks[0..] == zimLinks;
    for i := 0 to |zimLinks|
      invariant var rest := DownloadRun(disk.files, dir, zimLinks[i..], server);
                whole == Batch(outcomes + rest.outcomes, rest.files, rest.aborted)
    {
      RunFrom(disk.files, dir, zimLinks, server, i);
      ghost var before := disk.files;
      var outcome := SaveArchive(disk, dir, zimLinks[i], server.get(zimLinks[i]));
      if outcome == Crashed {
        outcomes, aborted := outcomes + [outcome], true;
        return;
      }
      ghost var rest := DownloadRun(disk.files, dir, zimLinks[i + 1..], server);
      assert DownloadRun(before, dir, zimLinks[i..], server) == Batch([outcome] + rest.outcomes, rest.files, rest.aborted);
      assert outcomes + ([outcome] + rest.outcomes) == (outcomes + [outcome]) + rest.outcomes;
      outcomes := outcomes + [outcome];
    }
    assert zimLinks[|zimLinks|..] == [];
  }
}
