/**
  The fetch-or-cache decision of the PDF view controller.  The file system
  is an abstract map from paths to contents; the download is an abstract
  completion event carrying the downloaded bytes, and whether the file
  manager's copy succeeded is an input.  Each handler returns the effects it
  has on the screen and the network, in the order they happen.
 */
module Fetch {
  import opened Wrappers
  import opened CacheKey
  import Progress

  newtype byte = x | 0 <= x < 256

  type Blob = seq<byte>

  /** The file system as far as the controller sees it: path to contents. */
  type Store = map<string, Blob>

  datatype Effect =
    | ShowPDF(path: string)        // display the document stored at `path`
    | ShowAlert                    // present the "loading" alert with its progress bar
    | HideAlert                    // dismiss the alert
    | ResumeDownload(url: Url)     // create and start one download task for `url`
    | SetProgress(fraction: real)  // the value passed to the progress view's `setProgress`

  /** Result of the download-completion handler. */
  datatype Finished = Finished(store: Store, effects: seq<Effect>)

  /** The cached file of `url`, if one exists (`getPDFFromCache`). */
  function GetPDFFromCache(fs: Store, root: string, url: Url): (r: Option<string>)
    ensures r.Some? <==> CachePath(root, url) in fs
    ensures r.Some? ==> r.value == CachePath(root, url)
  {
    var path := CachePath(root, url);
    if path in fs then Some(path) else None
  }

  /**
    Copies the downloaded bytes to the cache file of `url` (`movePDFToCache`).
    A failed copy is swallowed: the store is left as it was and nothing
    reports the failure.
   */
  function MovePDFToCache(fs: Store, root: string, tmp: Blob, url: Url, copySucceeds: bool): (fs': Store)
    ensures copySucceeds ==> CachePath(root, url) in fs' && fs'[CachePath(root, url)] == tmp
    ensures !copySucceeds ==> fs' == fs
    ensures fs'.Keys == fs.Keys + (if copySucceeds then {CachePath(root, url)} else {})
    ensures forall p :: p in fs && p != CachePath(root, url) ==> fs'[p] == fs[p]
  {
    if copySucceeds then fs[CachePath(root, url) := tmp] else fs
  }

  /**
    Shows the cached file on a hit; otherwise shows the alert and starts one
    download (`showPDFFile`).  The store is not changed.
   */
  function ShowPDFFile(fs: Store, root: string, url: Url): (es: seq<Effect>)
    ensures CachePath(root, url) in fs ==> es == [ShowPDF(CachePath(root, url))]
    ensures CachePath(root, url) !in fs ==> es == [ShowAlert, ResumeDownload(url)]
  {
    match GetPDFFromCache(fs, root, url)
    case Some(path) => [ShowPDF(path)]
    case None => [ShowAlert, ResumeDownload(url)]
  }

  /**
    Download finished (`urlSession(_:downloadTask:didFinishDownloadingTo:)`):
    hide the alert; when the download task still knows its original URL, copy the file
    into the cache and show the cache path of that URL, whether or not the
    copy succeeded.
   */
  function DidFinishDownloading(fs: Store, root: string, original: Option<Url>, tmp: Blob, copySucceeds: bool): (r: Finished)
    ensures original.None? ==> r == Finished(fs, [HideAlert])
    ensures original.Some? ==> r.effects == [HideAlert, ShowPDF(CachePath(root, original.value))]
    ensures original.Some? ==> r.store == MovePDFToCache(fs, root, tmp, original.value, copySucceeds)
  {
    match original
    case None => Finished(fs, [HideAlert])
    case Some(url) =>
      var fs' := MovePDFToCache(fs, root, tmp, url, copySucceeds);
      Finished(fs', [HideAlert, ShowPDF(CachePath(root, url))])
  }

  /**
    Progress callback (`urlSession(_:downloadTask:didWriteData:...)`): one
    `setProgress` call with the bytes written over the denominator; the bytes
    of this one write are not used.
   */
  function DidWriteData(written: Progress.int64, expected: Progress.int64): (es: seq<Effect>)
    ensures |es| == 1 && es[0].SetProgress?
    ensures es[0].fraction * Progress.Denominator(expected) as real == (written as int) as real
  {
    Progress.FractionTimesDenominator(written, expected);
    [SetProgress(Progress.Fraction(written, expected))]
  }

  /** The values passed to `setProgress` by a run of progress callbacks of one download. */
  function ProgressMoves(ws: seq<Progress.int64>, expected: Progress.int64): (ps: seq<real>)
    ensures |ps| == |ws|
    ensures forall i :: 0 <= i < |ws| ==> ps[i] * Progress.Denominator(expected) as real == (ws[i] as int) as real
  {
    seq(|ws|, i requires 0 <= i < |ws| => DidWriteData(ws[i], expected)[0].fraction)
  }

  /**
    Over one download the value passed to `setProgress` never drops while
    the written byte count does not drop.
   */
  lemma ProgressNeverMovesBack(ws: seq<Progress.int64>, expected: Progress.int64)
    requires Progress.NonDecreasing(ws)
    ensures Progress.NonDecreasingReals(ProgressMoves(ws, expected))
  {
    var ps := ProgressMoves(ws, expected);
    forall i, j | 0 <= i < j < |ps|
      ensures ps[i] <= ps[j]
    {
      Progress.FractionMonotone(ws[i], ws[j], expected);
    }
  }

  /**
    After a download of `url` completes and the copy succeeds, showing `url`
    again is a cache hit: the cached bytes are displayed and no download starts.
   */
  lemma DownloadThenHit(fs: Store, root: string, url: Url, tmp: Blob)
    ensures var r := DidFinishDownloading(fs, root, Some(url), tmp, true);
      && GetPDFFromCache(r.store, root, url) == Some(CachePath(root, url))
      && r.store[CachePath(root, url)] == tmp
      && ShowPDFFile(r.store, root, url) == [ShowPDF(CachePath(root, url))]
  {
  }

  /**
    A failed copy leaves the cache as it was and still shows the cache path;
    if nothing was cached before, showing `url` again downloads again.
   */
  lemma CopyFailureSwallowed(fs: Store, root: string, url: Url, tmp: Blob)
    ensures var r := DidFinishDownloading(fs, root, Some(url), tmp, false);
      && r.store == fs
      && r.effects == [HideAlert, ShowPDF(CachePath(root, url))]
      && (CachePath(root, url) !in fs ==> ShowPDFFile(r.store, root, url) == [ShowAlert, ResumeDownload(url)])
  {
  }

  /** The completion handler writes nothing but the cache file of its original URL. */
  lemma OnlyCompletionWrites(fs: Store, root: string, url: Url, original: Option<Url>, tmp: Blob, ok: bool)
    ensures var r := DidFinishDownloading(fs, root, original, tmp, ok);
      r.store.Keys <= fs.Keys + (if original.Some? then {CachePath(root, original.value)} else {})
  {
  }

  /**
    Because the key is not injective, downloading `u` makes a different but
    colliding URL `v` a cache hit that shows `u`'s bytes.
   */
  lemma CollidingUrlServedFromCache(fs: Store, root: string, u: Url, v: Url, tmp: Blob)
    requires Collide(u, v)
    ensures var r := DidFinishDownloading(fs, root, Some(u), tmp, true);
      && ShowPDFFile(r.store, root, v) == [ShowPDF(CachePath(root, u))]
      && r.store[CachePath(root, v)] == tmp
  {
    CachePathCollision(root, u, v);
  }
}
