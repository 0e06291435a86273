# Kiwix ZIM puller — a Dafny model of the fetch-and-verify logic

The repository holds two scripts that mirror the `.zim` archives listed on
a Kiwix download page into a local directory:

- `DownloadZims.py` downloads every listed archive whose local file does not
  exist yet;
- `VerifyZim.py` compares each local copy with the size the server declares
  for it (a HEAD request), leaves complete copies alone, deletes and
  re-downloads copies of the wrong size, downloads missing ones, and skips
  archives whose size cannot be learnt.

This project models the decision logic of both scripts and proves what they
do to the download directory. The outside world is abstract:

- the index page is the sequence of its anchors' `href` targets (or `None`
  when the page cannot be fetched), and `urljoin` is a function parameter
  `resolve`;
- the server is a value `Server(head, get)` giving, for every URL, how a HEAD
  request ends and how a streamed GET ends (chunks delivered, then completed,
  broken connection, failed write or failed open);
- the download directory is a `Disk` object whose field `files` maps paths to
  contents; its methods are `os.path.exists`, `os.path.getsize`, `os.remove`,
  `open(path, 'wb')` and `f.write`.

Files: `wrappers.dfy` (Option), `strings.dfy` (startswith, endswith, `in`,
removeprefix, basename splitting), `bytes.dfy` (bytes and chunks),
`names.dfy` (local name and path), `links.dfy` (the `.zim` filter),
`http.dfy` (server replies), `filesystem.dfy` (the `Disk` class and the
chunk loop), `verify_zim.dfy` and `download_zims.dfy` (the two scripts).

Each script's loop is a method whose postcondition equates the outcomes and
the final directory with a function over values (`VerifyZim.VerifyRun`,
`DownloadZims.DownloadRun`); the properties are proved as lemmas about those
functions.

Behaviours of the code worth knowing (the model follows the code):

- A HEAD reply without a `Content-Length` header gives the size 0, not
  "unknown"; a non-empty local copy is then deleted and downloaded again.
  Only a failed request or a header `int()` rejects gives "unknown".
- The `survivorlibrary` denylist lives in `download_file` only. The HEAD
  request is still made, and a local copy of the wrong size is deleted
  before the denylist declines to fetch it again
  (`VerifyZim.DenylistedMismatchIsDeleted`).
- In `DownloadZims.py`, a `Content-Length` header that `int()` rejects
  raises a ValueError that neither `except` clause catches, so the whole run
  stops at that entry (`Crashed`, `aborted`). Request and disk errors are
  caught per entry.
- An empty or colliding local name is not detected. In `VerifyZim.py` the
  last archive written to a path wins. In `DownloadZims.py` the first
  colliding entry whose download actually creates the file wins, and later
  ones are skipped; an earlier entry whose GET failed before the file was
  opened leaves the path free.
- Neither script produces an outcome log or a summary; they print. The model
  returns the per-entry outcomes as values instead of the printed lines.

## Model

| member | source | states |
|---|---|---|
| `Strings.StartsWithSplits` | VerifyZim.py:66 | `startswith` holds exactly when the string is the prefix followed by the rest |
| `Strings.EndsWithSplits` | VerifyZim.py:20 | `endswith` holds exactly when the string is some text followed by the suffix |
| `Strings.Contains` | VerifyZim.py:36 | the substring test used by the denylist holds exactly when the fragment occurs at some index of the URL |
| `Strings.ContainsInfix` | VerifyZim.py:36 | every URL with `survivorlibrary` embedded anywhere passes the denylist test |
| `Strings.RemovePrefix` | VerifyZim.py:66 | `removeprefix`: when the prefix starts the string, prefix + result is the string (removed exactly once); otherwise the string is unchanged |
| `Strings.Before` | VerifyZim.py:65 | the longest prefix holding none of the stop characters: it is a prefix, holds no stop character, and is followed by one when it is shorter than the input |
| `Strings.AfterLast` | VerifyZim.py:65 | `os.path.basename`: a suffix of the path holding no `/`, preceded by a `/` whenever it is not the whole path |
| `Bytes.ConcatLength` | VerifyZim.py:46-48 | the running `downloaded_size` (sum of chunk lengths) equals the length of the bytes written |
| `Names.UrlBasename` | VerifyZim.py:65 | the basename of the URL's path contains no `/`, `?`, `#` or `;` |
| `Names.UrlBasenameLocated` | VerifyZim.py:65 | with the query and fragment cut off, the basename starts the last `/`-separated segment (at the start or right after a `/`, with no `/` after it) and ends at that segment's end or at its first `;` |
| `Names.LocalName` | VerifyZim.py:65-66 | the local name is the basename with `openZIM_` removed once when it starts the basename, and the basename itself otherwise; it holds no `/` |
| `Names.StripKeepsExtension` | VerifyZim.py:66 | removing `openZIM_` from a name ending in `.zim` leaves a name ending in `.zim` |
| `Names.LocalNameKeepsExtension` | DownloadZims.py:39-41 | the local name of an archive whose basename ends in `.zim` still ends in `.zim` |
| `Names.Join` | VerifyZim.py:67 | `os.path.join`: the path starts with the directory and ends with the name, with at most one `/` between them |
| `Names.JoinAddsSlash` | VerifyZim.py:67 | `os.path.join` inserts a `/` exactly when the directory is non-empty and does not already end in one |
| `Names.JoinInjective` | DownloadZims.py:43 | two different names never give the same path in one directory |
| `Names.LocalPathShape` | VerifyZim.py:65-67 | the local path starts with the directory and ends with the local name; its length is theirs together, plus one for a `/` right after the directory exactly when the directory is non-empty and does not end in `/` |
| `Links.IsZimHref` | DownloadZims.py:28 | an href is kept exactly when its last four characters are `.zim`, case-sensitively |
| `Links.ZimLinks` | VerifyZim.py:17-21 | every link is the resolution of an href of the page that ends in `.zim`; there are no more links than hrefs |
| `Links.ZimLinksAppend` | VerifyZim.py:17-21 | filtering two consecutive parts of the page gives the two filtered parts in the same order (document order) |
| `Links.ZimLinksComplete` | VerifyZim.py:17-21 | every href ending in `.zim` contributes its resolved URL |
| `Links.ZimLinksKeepsDuplicates` | VerifyZim.py:17-21 | an href listed n times yields its resolved URL at least n times: duplicates are kept |
| `FileSystem.Disk.Exists` | VerifyZim.py:75 | `os.path.exists` is true exactly when the path is in the directory |
| `FileSystem.Disk.Size` | VerifyZim.py:76 | `os.path.getsize` is the length of the file's contents |
| `FileSystem.Disk.Remove` | VerifyZim.py:82 | `os.remove` takes exactly that path out of the directory |
| `FileSystem.Disk.Create` | VerifyZim.py:45 | `open(path, 'wb')` leaves the file empty and changes no other path |
| `FileSystem.Disk.Append` | VerifyZim.py:47 | `f.write(chunk)` appends the chunk to that file only |
| `FileSystem.Disk.WriteStream` | VerifyZim.py:45-48 | after the chunk loop the file holds the concatenation of the chunks, no other path changed, and `downloaded_size` is the sum of their lengths, which is the file's size |
| `VerifyZim.GetZimLinks` | VerifyZim.py:6-21 | an index page that cannot be fetched yields no links; otherwise the `.zim` filter of its hrefs |
| `VerifyZim.RemoteSize` | VerifyZim.py:23-31 | the size is unknown exactly when the HEAD request fails or the header is not an integer; a missing header gives 0 |
| `VerifyZim.DownloadEffect` | VerifyZim.py:33-55 | a denylisted URL changes nothing; a request failing before the file is opened changes nothing; once opened, the file holds exactly the chunks received; a transfer that opened the file and then broke is `Failed`; the result is `Done` exactly when the whole body arrived, with a byte count equal to the file size; no other path changes |
| `VerifyZim.DownloadFile` | VerifyZim.py:33-55 | the result and the new directory are those `DownloadEffect` gives for the old directory |
| `VerifyZim.VerifyEntry` | VerifyZim.py:64-87 | unknown remote size: nothing deleted or written; local size equal to remote: nothing changes (OK); local copy of another size: it is removed and a download to the same path follows; missing copy: a download to the normalised path; only that path can change |
| `VerifyZim.DenylistedMismatchIsDeleted` | VerifyZim.py:80-87 | a denylisted archive whose local copy has the wrong size is left deleted |
| `VerifyZim.VerifyRun` | VerifyZim.py:64-87 | every listed entry gets exactly one outcome, whatever fails for the earlier ones |
| `VerifyZim.VerifyRunOutcomeAt` | VerifyZim.py:64-87 | the outcome reported for entry k is `VerifyEntry`'s for that link on the directory the earlier entries left: each entry is decided on its own |
| `VerifyZim.VerifyRunFrame` | VerifyZim.py:64-87 | a pass changes no path other than the local paths of its links |
| `VerifyZim.EntrySettles` | VerifyZim.py:80-87 | an archive served whole with its declared size ends with a complete local copy |
| `VerifyZim.VerifyRunSettles` | VerifyZim.py:64-87 | when every archive is served whole and no two URLs share a local name, every local copy is complete after a pass |
| `VerifyZim.VerifyRunOnCompleteCopies` | VerifyZim.py:75-79 | when every local copy is complete, a pass changes nothing and reports every entry OK |
| `VerifyZim.VerifyTwiceFindsAllUpToDate` | VerifyZim.py:57-87 | idempotence: under the same conditions a second pass reports every entry OK and changes nothing |
| `VerifyZim.VerifyOne` | VerifyZim.py:64-87 | one iteration of the loop on the `Disk`: its outcome and new directory are those `VerifyEntry` gives for the old directory |
| `VerifyZim.VerifyLinks` | VerifyZim.py:64-87 | the loop over the found links: the outcomes and final directory are those `VerifyRun` gives |
| `VerifyZim.VerifyAndRedownload` | VerifyZim.py:57-89 | the outcomes and the final directory are those `VerifyRun` gives for the filtered listing; an empty listing changes nothing |
| `DownloadZims.CollectZimLinks` | DownloadZims.py:25-30 | the links built by `append` are the `.zim` filter of the hrefs, in order |
| `DownloadZims.DownloadEntry` | DownloadZims.py:38-67 | the entry is skipped (`AlreadyExists`) exactly when its local path exists, and then nothing changes, whatever the file's size; a missing one gets exactly the streamed chunks once the file opens; `Saved` exactly when the whole body arrived, with a byte count equal to the file size; a rejected Content-Length header is the only uncaught error |
| `DownloadZims.SaveArchive` | DownloadZims.py:39-67 | the outcome and new directory are those `DownloadEntry` gives |
| `DownloadZims.DownloadRun` | DownloadZims.py:38-67 | existing files are never removed or overwritten; the run is stopped exactly when its last outcome is `Crashed`, and otherwise reports every entry |
| `DownloadZims.DownloadRunOutcomeAt` | DownloadZims.py:38-67 | the outcome reported for entry k is `DownloadEntry`'s for that link on the directory the earlier entries left, and none of them stopped the run; so the run stops at the first entry whose path is missing and whose Content-Length `int()` rejects |
| `DownloadZims.DownloadRunCreatesOnlyLinkPaths` | DownloadZims.py:43-59 | every file a run creates is at the local path of one of its links |
| `DownloadZims.DownloadRunReachesEveryEntry` | DownloadZims.py:51-67 | when no Content-Length header is rejected, request and disk errors never stop the run: every entry is handled |
| `DownloadZims.DownloadRunSkipsExisting` | DownloadZims.py:46-48 | once every listed file exists, a run skips every entry and changes nothing |
| `DownloadZims.RerunKeepsResult` | DownloadZims.py:38-67 | a run from the directory a first run left keeps it unchanged and stops exactly when the first run stopped |
| `DownloadZims.DownloadRunIdempotent` | DownloadZims.py:38-67 | idempotence: with the server unchanged, a second run leaves the directory exactly as the first left it |
| `DownloadZims.DownloadZimFiles` | DownloadZims.py:6-67 | a page that cannot be fetched changes nothing; otherwise the outcomes, the final directory and whether the run stopped early are those `DownloadRun` gives for the filtered listing; an empty listing changes nothing |

## Left out

- HTTP (`requests.get`, `requests.head`, `raise_for_status`, redirects, timeouts): replaced by the `Server` value; a URL listed twice gets the same replies both times.
- HTML parsing with BeautifulSoup: the page is given as the sequence of its anchors' `href` targets.
- `urljoin`: the function parameter `resolve`.
- `Names.UrlBasename`, `Names.Join`: the path functions are POSIX `os.path` (`posixpath`); on Windows `ntpath` also splits and joins on `\`, which is not modelled. The last segment is cut at its first `;` whatever the scheme, whereas `urlparse` splits parameters only for the schemes in `uses_params` (http, https, ftp and a few more, but not `file`).
- `Names.UrlBasename`: `urlparse`'s split of scheme and host is not modelled, so for a URL without a path the model's basename is the host, where Python's is empty.
- Progress percentages and `total_size` (floating point, printed only), and all console output; the final summary line.
- The `__main__` blocks and their hard-coded target URL; `base_url` in `download_zim_files`, which is computed and never used.
- Errors of `os.path.getsize` and `os.remove` in `verify_and_redownload` (outside any `try`, they would stop the run): the disk primitives of the model do not fail.
- An empty local name, which makes the path the directory itself: the model treats that path like a file path.
- How much of a chunk reaches the disk when a write fails: a failed write keeps the chunks written before it.
