/**
 * `generateDownloadLink`: the PDF request URL, the local file path and public
 * URL of the PDF, and the outcome of the conversion, download and metadata
 * write, whose results are inputs here.
 */
module DownloadLink {
  import opened Wrappers
  import opened Php

  const AfterQuery: string := "&output=pdf"
  const NewQuery: string := "?output=pdf"

  /**
   * `strpos($url, '?') ? '&output=pdf' : '?output=pdf'`: a '?' at index 0 reads
   * as false, so only a '?' after the first character selects '&'.
   */
  function QuerySuffix(url: string): (r: string)
    ensures r == AfterQuery || r == NewQuery
    ensures r == AfterQuery <==> '?' in url && url[0] != '?'
  {
    if IndexTruthy(StrPos(url, '?')) then AfterQuery else NewQuery
  }

  predicate IsSlash(c: char) {
    c == '/' || c == '\\'
  }

  /** WordPress `untrailingslashit`: `rtrim($value, '/\\')`. */
  function Untrailed(s: string): (r: string)
    ensures r <= s
    ensures r == [] || !IsSlash(r[|r| - 1])
    ensures forall i :: |r| <= i < |s| ==> IsSlash(s[i])
  {
    if s != [] && IsSlash(s[|s| - 1]) then Untrailed(s[..|s| - 1]) else s
  }

  /**
   * WordPress `trailingslashit`: the trailing run of '/' and '\' replaced by
   * exactly one '/'.
   */
  function TrailingSlashIt(s: string): (r: string)
    ensures |r| > 0 && r[|r| - 1] == '/'
    ensures r[..|r| - 1] <= s
    ensures |r| == 1 || !IsSlash(r[|r| - 2])
    ensures forall i :: |r| - 1 <= i < |s| ==> IsSlash(s[i])
  {
    var u := Untrailed(s);
    assert (u + "/")[..|u|] == u;
    u + "/"
  }

  /** `trailingslashit($dir) . $base . '.pdf'`. */
  function PdfLocation(dir: string, base: string): (r: string)
    ensures |r| >= |base| + 5
    ensures r[|r| - |base| - 5..] == "/" + base + ".pdf"
    ensures r[..|r| - |base| - 5] <= dir
    ensures forall i :: |r| - |base| - 5 <= i < |dir| ==> IsSlash(dir[i])
    ensures |r| == |base| + 5 || !IsSlash(r[|r| - |base| - 6])
  {
    var d := TrailingSlashIt(dir);
    assert d == d[..|d| - 1] + "/";
    var r := d + base + ".pdf";
    assert r[..|d| - 1] == d[..|d| - 1];
    assert r[|d| - 1..] == "/" + base + ".pdf";
    r
  }

  /** `wp_get_upload_dir()`: the current uploads directory as a path and as a URL. */
  datatype Uploads = Uploads(path: string, url: string)

  /** What `wp_safe_remote_get` returns: the response parts, or a `WP_Error` object. */
  datatype FetchAnswer = FetchResponse(code: int) | FetchError(message: string)

  /** PHP truthiness of that answer: the response array is never empty and an object is always true. */
  predicate FetchTruthy(a: FetchAnswer) {
    match a
    case FetchResponse(_) => true
    case FetchError(_) => true
  }

  /**
   * What the outside world answers: the decoded `status` and `file_url` of the
   * conversion response (status None when missing or undecodable), the answer
   * of the download, and whether `update_post_meta` returned a true value.
   */
  datatype PdfService = PdfService(status: Option<string>, fileUrl: string, download: FetchAnswer, metaSaved: bool)

  /** The download of file_url into path that the plugin asks for. */
  datatype Fetch = Fetch(fileUrl: string, path: string)

  /** The page rendered as PDF, the download asked for, the result, and the post metadata afterwards. */
  datatype Generated = Generated(pageUrl: string, fetch: Option<Fetch>, error: Option<string>, meta: map<int, string>)

  const SaveError: string := "Could not save PDF"
  const GenerateErrorPrefix: string := "Could not generate download link for "

  function GenerateDownloadLink(postId: int, meta: map<int, string>, permalink: string, basename: string,
                                uploads: Uploads, svc: PdfService): (r: Generated)
    ensures r.pageUrl == permalink + QuerySuffix(permalink)
    ensures r.fetch.Some? <==> svc.status == Some("success")
    ensures r.fetch.Some? ==> r.fetch.value == Fetch(svc.fileUrl, PdfLocation(uploads.path, basename))
    ensures r.error.None? <==> svc.status == Some("success") && svc.metaSaved
    ensures r.error.None? ==> r.meta == meta[postId := PdfLocation(uploads.url, basename)]
    ensures r.error.Some? ==> r.meta == meta && Truthy(r.error)
    ensures r.error.Some? ==> r.error.value == (if r.fetch.Some? then SaveError
                                                else GenerateErrorPrefix + permalink)
  {
    var pageUrl := permalink + QuerySuffix(permalink);
    var path := PdfLocation(uploads.path, basename);
    var pdfUrl := PdfLocation(uploads.url, basename);
    if svc.status == Some("success") then
      var fetch := Some(Fetch(svc.fileUrl, path));
      if FetchTruthy(svc.download) then
        if svc.metaSaved then Generated(pageUrl, fetch, None, meta[postId := pdfUrl])
        else Generated(pageUrl, fetch, Some(SaveError), meta)
      else Generated(pageUrl, fetch, Some(GenerateErrorPrefix + permalink), meta)
    else Generated(pageUrl, None, Some(GenerateErrorPrefix + permalink), meta)
  }

  /**
   * The download's answer is always a true value, so a download that failed
   * goes unnoticed: with a `success` status the PDF URL is stored and no error
   * is reported, although no file may have been written.
   */
  lemma FailedDownloadGoesUnnoticed(postId: int, meta: map<int, string>, permalink: string, basename: string,
                                    uploads: Uploads, svc: PdfService)
    requires svc.status == Some("success") && svc.download.FetchError? && svc.metaSaved
    ensures var r := GenerateDownloadLink(postId, meta, permalink, basename, uploads, svc);
      && r.error.None? && r.fetch.Some?
      && postId in r.meta && r.meta[postId] == PdfLocation(uploads.url, basename)
  {
  }
}
