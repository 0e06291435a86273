/**
 * The verifying pass (VerifyZim.py): every archive of the index page is
 * compared by size with its local copy; a copy that is missing or of the
 * wrong size is (re)downloaded, one of unknown remote size is left alone.
 */
module VerifyZim {
  import opened Wrappers
  import opened Bytes
  import opened Strings
  import opened Names
  import opened Links
  import opened Http
  import opened FileSystem

  /** URLs holding this fragment are never downloaded. */
  const DenyFragment: string := "survivorlibrary"

  /** `get_zim_links`: a page that cannot be fetched lists nothing. */
  function GetZimLinks(page: Option<seq<string>>, resolve: string -> string): (links: seq<string>)
    ensures page.None? ==> links == []
    ensures page.Some? ==> links == ZimLinks(page.value, resolve)
  {
    match page
    case None => []
    case Some(hrefs) => ZimLinks(hrefs, resolve)
  }

  /**
   * `get_remote_file_size`: the declared length of a HEAD reply. A missing
   * header reads as 0; only a failed request or an unparsable header is unknown.
   */
  function RemoteSize(reply: HeadReply): (size: Option<int>)
    ensures size.None? <==> reply.HeadFailed? || reply.contentLength.NotAnInteger?
    ensures reply == HeadOk(Absent) ==> size == Some(0)
    ensures reply.HeadOk? && reply.contentLength.Integer? ==> size == Some(reply.contentLength.n)
  {
    match reply
    case HeadFailed => None
    case HeadOk(Absent) => Some(0)
    case HeadOk(Integer(n)) => Some(n)
    case HeadOk(NotAnInteger) => None
  }

  /** What `download_file` achieved; every exception it raises ends as `Failed`. */
  datatype DownloadResult = Denylisted | Failed | Done(downloaded: nat)

  datatype Transfer = Transfer(result: DownloadResult, files: Files)

  /** The effect of `download_file(url, path)` on the directory `files`. */
  function DownloadEffect(files: Files, url: string, path: string, reply: GetReply): (t: Transfer)
    ensures Contains(url, DenyFragment) ==> t == Transfer(Denylisted, files)
    ensures !Contains(url, DenyFragment) && !reply.Opens() ==> t == Transfer(Failed, files)
    ensures !Contains(url, DenyFragment) && reply.Opens() ==> t.files == files[path := Concat(reply.chunks)]
    ensures !Contains(url, DenyFragment) && reply.Opens() && !reply.Completes() ==> t.result == Failed
    ensures t.result.Done? <==> !Contains(url, DenyFragment) && reply.Completes()
    ensures t.result.Done? ==> path in t.files && t.result.downloaded == |t.files[path]|
    ensures AgreeExcept(files, t.files, path)
  {
    if Contains(url, DenyFragment) then Transfer(Denylisted, files)
    else if !reply.Opens() then Transfer(Failed, files)
    else
      var written := files[path := Concat(reply.chunks)];
      if reply.end == Completed then
        ConcatLength(reply.chunks);
        Transfer(Done(TotalLength(reply.chunks)), written)
      else Transfer(Failed, written)
  }

  /** `download_file`: the denylist check, then the streamed GET into `path`. */
  method DownloadFile(disk: Disk, url: string, path: string, reply: GetReply) returns (result: DownloadResult)
    modifies disk
    ensures Transfer(result, disk.files) == DownloadEffect(old(disk.files), url, path, reply)
  {
    if Contains(url, DenyFragment) {
      return Denylisted;
    }
    if reply.RequestFailed? || reply.contentLength.NotAnInteger? || reply.end == OpenFailed {
      return Failed;
    }
    var downloaded := disk.WriteStream(path, reply.chunks);
    if reply.end == Completed {
      result := Done(downloaded);
    } else {
      result := Failed;
    }
  }

  /** How one archive was handled, as the script reports it. */
  datatype Outcome =
    | SkippedUnknownSize
    | UpToDate
    | Redownloaded(download: DownloadResult)
    | Downloaded(download: DownloadResult)

  datatype Step = Step(outcome: Outcome, files: Files)

  /** The local copy at `path` is complete: it exists and has the remote size. */
  predicate Complete(files: Files, path: string, size: Option<int>) {
    size.Some? && path in files && |files[path]| == size.value
  }

  /** One iteration of the loop of `verify_and_redownload`, for the archive at `url`. */
  function VerifyEntry(files: Files, dir: string, url: string, server: Server): (s: Step)
    ensures RemoteSize(server.head(url)).None? ==> s == Step(SkippedUnknownSize, files)
    ensures Complete(files, LocalPath(dir, url), RemoteSize(server.head(url))) ==> s == Step(UpToDate, files)
    ensures RemoteSize(server.head(url)).Some? && LocalPath(dir, url) in files
            && !Complete(files, LocalPath(dir, url), RemoteSize(server.head(url))) ==>
              s.outcome.Redownloaded?
              && Transfer(s.outcome.download, s.files)
                 == DownloadEffect(files - {LocalPath(dir, url)}, url, LocalPath(dir, url), server.get(url))
    ensures RemoteSize(server.head(url)).Some? && LocalPath(dir, url) !in files ==>
              s.outcome.Downloaded?
              && Transfer(s.outcome.download, s.files) == DownloadEffect(files, url, LocalPath(dir, url), server.get(url))
    ensures AgreeExcept(files, s.files, LocalPath(dir, url))
  {
    var path := LocalPath(dir, url);
    var size := RemoteSize(server.head(url));
    if size.None? then Step(SkippedUnknownSize, files)
    else if path in files then
      if |files[path]| == size.value then Step(UpToDate, files)
      else
        var t := DownloadEffect(files - {path}, url, path, server.get(url));
        Step(Redownloaded(t.result), t.files)
    else
      var t := DownloadEffect(files, url, path, server.get(url));
      Step(Downloaded(t.result), t.files)
  }

  /**
   * A denylisted archive whose local copy has the wrong size loses that
   * copy: it is removed before `download_file` declines to fetch it.
   */
  lemma DenylistedMismatchIsDeleted(files: Files, dir: string, url: string, server: Server)
    requires Contains(url, DenyFragment)
    requires RemoteSize(server.head(url)).Some? && LocalPath(dir, url) in files
    requires !Complete(files, LocalPath(dir, url), RemoteSize(server.head(url)))
    ensures VerifyEntry(files, dir, url, server) == Step(Redownloaded(Denylisted), files - {LocalPath(dir, url)})
  {
  }

  /** The outcomes of a pass, in listing order, and the directory afterwards. */
  datatype Pass = Pass(outcomes: seq<Outcome>, files: Files)

  /** The loop of `verify_and_redownload` over `links`, one entry after another. */
  function VerifyRun(files: Files, dir: string, links: seq<string>, server: Server): (p: Pass)
    ensures |p.outcomes| == |links|
  {
    if links == [] then Pass([], files)
    else
      var prev := VerifyRun(files, dir, links[..|links| - 1], server);
      var s := VerifyEntry(prev.files, dir, links[|links| - 1], server);
      Pass(prev.outcomes + [s.outcome], s.files)
  }

  /**
   * Each entry is decided on its own: the outcome reported for link `k` is
   * the one `VerifyEntry` gives for it on the directory the earlier links left.
   */
  lemma {:induction false} VerifyRunOutcomeAt(files: Files, dir: string, links: seq<string>, server: Server, k: nat)
    requires k < |links|
    ensures VerifyRun(files, dir, links, server).outcomes[k]
            == VerifyEntry(VerifyRun(files, dir, links[..k], server).files, dir, links[k], server).outcome
  {
    var n := |links| - 1;
    var prev := VerifyRun(files, dir, links[..n], server);
    var s := VerifyEntry(prev.files, dir, links[n], server);
    assert VerifyRun(files, dir, links, server).outcomes == prev.outcomes + [s.outcome];
    if k < n {
      VerifyRunOutcomeAt(files, dir, links[..n], server, k);
      assert links[..n][..k] == links[..k];
      assert links[..n][k] == links[k];
      var before := VerifyRun(files, dir, links[..k], server);
      assert prev.outcomes[k] == VerifyEntry(before.files, dir, links[k], server).outcome;
      assert (prev.outcomes + [s.outcome])[k] == prev.outcomes[k];
    } else {
      assert links[..k] == links[..n];
      assert (prev.outcomes + [s.outcome])[k] == s.outcome;
    }
  }

  /** A pass changes no file but those at the local paths of its links. */
  lemma {:induction false} VerifyRunFrame(files: Files, dir: string, links: seq<string>, server: Server, p: string)
    requires forall u :: u in links ==> LocalPath(dir, u) != p
    ensures p in VerifyRun(files, dir, links, server).files <==> p in files
    ensures p in files ==> VerifyRun(files, dir, links, server).files[p] == files[p]
  {
    if links != [] {
      var init := links[..|links| - 1];
      assert forall u :: u in init ==> u in links;
      VerifyRunFrame(files, dir, init, server, p);
    }
  }

  /** The server hands out `url` whole, with exactly the size its HEAD reply declares. */
  predicate ServesCompletely(server: Server, url: string) {
    var size := RemoteSize(server.head(url));
    var reply := server.get(url);
    && size.Some?
    && !Contains(url, DenyFragment)
    && reply.Completes()
    && TotalLength(reply.chunks) == size.value
  }

  /** No two different links of the listing share a local name. */
  ghost predicate DistinctNames(links: seq<string>) {
    forall i, j :: 0 <= i < |links| && 0 <= j < |links| && LocalName(links[i]) == LocalName(links[j]) ==> links[i] == links[j]
  }

  /** One archive the server hands out whole ends with a complete local copy. */
  lemma EntrySettles(files: Files, dir: string, url: string, server: Server)
    requires ServesCompletely(server, url)
    ensures Complete(VerifyEntry(files, dir, url, server).files, LocalPath(dir, url), RemoteSize(server.head(url)))
  {
    ConcatLength(server.get(url).chunks);
  }

  /**
   * After a pass over a listing whose archives the server hands out whole
   * and whose names do not collide, every local copy is complete.
   */
  lemma {:induction false} VerifyRunSettles(files: Files, dir: string, links: seq<string>, server: Server)
    requires forall u :: u in links ==> ServesCompletely(server, u)
    requires DistinctNames(links)
    ensures forall u :: u in links ==>
              Complete(VerifyRun(files, dir, links, server).files, LocalPath(dir, u), RemoteSize(server.head(u)))
  {
    if links != [] {
      var n := |links| - 1;
      var init, x := links[..n], links[n];
      assert links == init + [x];
      assert DistinctNames(init) by {
        forall i, j | 0 <= i < |init| && 0 <= j < |init| && LocalName(init[i]) == LocalName(init[j])
          ensures init[i] == init[j]
        {
          assert init[i] == links[i] && init[j] == links[j];
        }
      }
      VerifyRunSettles(files, dir, init, server);
      var prev := VerifyRun(files, dir, init, server);
      var s := VerifyEntry(prev.files, dir, x, server);
      var path := LocalPath(dir, x);
      EntrySettles(prev.files, dir, x, server);
      forall u | u in links
        ensures Complete(s.files, LocalPath(dir, u), RemoteSize(server.head(u)))
      {
        if LocalPath(dir, u) == path {
          JoinInjective(dir, LocalName(u), LocalName(x));
          var i :| 0 <= i < |links| && links[i] == u;
          assert LocalName(links[i]) == LocalName(links[n]);
        } else {
          assert u in init;
        }
      }
    }
  }

  /** A pass over a listing whose local copies are all complete changes nothing and reports every archive OK. */
  lemma {:induction false} VerifyRunOnCompleteCopies(files: Files, dir: string, links: seq<string>, server: Server)
    requires forall u :: u in links ==> Complete(files, LocalPath(dir, u), RemoteSize(server.head(u)))
    ensures VerifyRun(files, dir, links, server).files == files
    ensures forall k :: 0 <= k < |links| ==> VerifyRun(files, dir, links, server).outcomes[k] == UpToDate
  {
    if links != [] {
      var init := links[..|links| - 1];
      assert forall u :: u in init ==> u in links;
      VerifyRunOnCompleteCopies(files, dir, init, server);
    }
  }

  /**
   * Idempotence: with the server unchanged, a second pass right after the
   * first finds every archive OK and changes nothing.
   */
  lemma VerifyTwiceFindsAllUpToDate(files: Files, dir: string, links: seq<string>, server: Server)
    requires forall u :: u in links ==> ServesCompletely(server, u)
    requires DistinctNames(links)
    ensures var first := VerifyRun(files, dir, links, server);
            var second := VerifyRun(first.files, dir, links, server);
            second.files == first.files && forall k :: 0 <= k < |links| ==> second.outcomes[k] == UpToDate
  {
    VerifyRunSettles(files, dir, links, server);
    VerifyRunOnCompleteCopies(VerifyRun(files, dir, links, server).files, dir, links, server);
  }

  /** The body of the loop of `verify_and_redownload`, for the archive at `url`. */
  method VerifyOne(disk: Disk, dir: string, url: string, server: Server) returns (outcome: Outcome)
    modifies disk
    ensures Step(outcome, disk.files) == VerifyEntry(old(disk.files), dir, url, server)
  {
    var path := LocalPath(dir, url);
    var remoteSize := RemoteSize(server.head(url));
    if remoteSize.None? {
      return SkippedUnknownSize;
    }
    var present := disk.Exists(path);
    if present {
      var localSize := disk.Size(path);
      if localSize == remoteSize.value {
        return UpToDate;
      }
      disk.Remove(path);
      var result := DownloadFile(disk, url, path, server.get(url));
      outcome := Redownloaded(result);
    } else {
      var result := DownloadFile(disk, url, path, server.get(url));
      outcome := Downloaded(result);
    }
  }

  /** `verify_and_redownload(url, download_dir)` for an index page whose anchors are `page`. */
  method VerifyAndRedownload(disk: Disk, dir: string, page: Option<seq<string>>, resolve: string -> string, server: Server)
    returns (outcomes: seq<Outcome>)
    modifies disk
    ensures Pass(outcomes, disk.files) == VerifyRun(old(disk.files), dir, GetZimLinks(page, resolve), server)
  {
    var zimLinks := GetZimLinks(page, resolve);
    outcomes := [];
    if |zimLinks| == 0 {
      return;
    }
    outcomes := VerifyLinks(disk, dir, zimLinks, server);
  }

  /** The loop of `verify_and_redownload` over the archive links it found. */
  method VerifyLinks(disk: Disk, dir: string, zimLinks: seq<string>, server: Server) returns (outcomes: seq<Outcome>)
    modifies disk
    ensures Pass(outcomes, disk.files) == VerifyRun(old(disk.files), dir, zimLinks, server)
  {
    outcomes := [];
    for i := 0 to |zimLinks|
      invariant Pass(outcomes, disk.files) == VerifyRun(old(disk.files), dir, zimLinks[..i], server)
    {
      assert zimLinks[..i + 1][..i] == zimLinks[..i];
      var outcome := VerifyOne(disk, dir, zimLinks[i], server);
      outcomes := outcomes + [outcome];
    }
    assert zimLinks[..|zimLinks|] == zimLinks;
  }
}
