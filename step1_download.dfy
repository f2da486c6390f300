/** `fcaesDes/step1_download.py`: downloads every bulletin not yet on disk
    into its year folder, re-encoding the link's path before the request. */
module Download {
  import opened Wrappers
  import opened Text
  import opened Percent
  import opened BulletinUrls

  /** Each element of `parts` percent-encoded with `quote`. */
  function QuoteAll(parts: seq<string>): (r: seq<string>)
    ensures |r| == |parts|
    ensures forall k :: 0 <= k < |parts| ==> r[k] == Quote(parts[k])
  {
    seq(|parts|, k requires 0 <= k < |parts| => Quote(parts[k]))
  }

  /** The request URL of `download_bulletin`: `https://`, the host part,
      and the quoted path segments joined by `/`. `None` is the index error
      of a link with fewer than three `/`-separated parts, which the caller
      catches as a failed download. */
  function EncodedUrl(url: string): (r: Option<string>)
    ensures r.None? <==> |Split(url, '/')| < 3
  {
    var parts := Split(url, '/');
    if |parts| < 3 then None
    else Some("https://" + parts[2] + "/" + Join(QuoteAll(parts[3..]), '/'))
  }

  /** Every quoted segment decodes back to its original. */
  lemma UnquoteAll(parts: seq<string>)
    ensures forall k :: 0 <= k < |parts| ==> Unquote(QuoteAll(parts)[k]) == parts[k]
  {
    forall k | 0 <= k < |parts| ensures Unquote(QuoteAll(parts)[k]) == parts[k] {
      UnquoteQuote(parts[k]);
    }
  }

  /** The request URL is the join of `https:`, an empty part, the host
      and the quoted segments. */
  lemma RequestIsJoin(host: string, quoted: seq<string>)
    requires |quoted| >= 1
    ensures "https://" + host + "/" + Join(quoted, '/') == Join(["https:", "", host] + quoted, '/')
  {
    JoinThree("https:", "", host, quoted, '/');
    assert "https://" == "https:" + "//";
    Rooted("https:", host, Join(quoted, '/'));
  }

  /** `scheme//host/path` regrouped one separator at a time. */
  lemma Rooted(scheme: string, host: string, path: string)
    ensures scheme + "//" + host + "/" + path == scheme + ("/" + ("" + ("/" + (host + ("/" + path)))))
  {
    assert "//" == "/" + ("" + "/");
  }

  /** For a link with a path, the request URL splits into `https:`, an
      empty part, the link's host part verbatim and one quoted segment per
      path segment of the link; with `UnquoteAll`, each segment decodes
      back to the link's. */
  lemma EncodedUrlParts(url: string)
    requires |Split(url, '/')| >= 4
    ensures var parts := Split(url, '/');
            Split(EncodedUrl(url).value, '/') == ["https:", "", parts[2]] + QuoteAll(parts[3..])
  {
    var parts := Split(url, '/');
    var quoted := QuoteAll(parts[3..]);
    var fields := ["https:", "", parts[2]] + quoted;
    RequestIsJoin(parts[2], quoted);
    forall k | 0 <= k < |fields| ensures '/' !in fields[k] {
      if k >= 3 {
        QuoteNoSlash(parts[k]);
      }
    }
    SplitJoin(fields, '/');
  }

  /** What `download_bulletin` returned, with the target path and the
      request it sent, if any. */
  datatype Outcome = Outcome(success: bool, filename: string, fullPath: seq<string>, request: Option<string>)

  /** `download_bulletin(url, base_dir)`; whether the target exists and
      whether the request succeeded are inputs. */
  function DownloadBulletin(url: string, baseDir: seq<string>, exists_: bool, fetched: bool): (r: Outcome)
    ensures r.filename == FileName(url)
    ensures r.fullPath == baseDir + [Year(url), "boletines_completos", r.filename]
    ensures r.request == if exists_ then None else EncodedUrl(url)
    ensures r.success <==> !exists_ && r.request.Some? && fetched
  {
    var filename := FileName(url);
    var fullPath := baseDir + [Year(url), "boletines_completos", filename];
    if exists_ then Outcome(false, filename, fullPath, None)
    else
      match EncodedUrl(url)
      case None => Outcome(false, filename, fullPath, None)
      case Some(u) => Outcome(fetched, filename, fullPath, Some(u))
  }

  const Host: string := "cobupem.edomex.gob.mx"

  /** `scheme//host/rest` splits into the scheme, an empty part, the host
      and then the parts of the rest. */
  lemma SplitRooted(scheme: string, host: string, rest: string)
    requires '/' !in scheme && '/' !in host
    ensures var parts := Split(scheme + ("/" + ("" + ("/" + (host + ("/" + rest))))), '/');
            |parts| >= 4 && parts[0] == scheme && parts[1] == "" && parts[2] == host
  {
    SplitFirst(host, rest, '/');
    SplitFirst("", host + ("/" + rest), '/');
    SplitFirst(scheme, "" + ("/" + (host + ("/" + rest))), '/');
  }

  /** The domain followed by a rooted path, written as scheme, host and
      the rest of the path. */
  lemma DomainLayout(path: string)
    requires |path| > 0 && path[0] == '/'
    ensures Domain + path == "https:" + ("/" + ("" + ("/" + (Host + ("/" + path[1..])))))
  {
    assert Domain == "https:" + "//" + Host;
    RootedPath(Domain, "https:", Host, path);
    Rooted("https:", Host, path[1..]);
  }

  lemma RootedPath(domain: string, scheme: string, host: string, path: string)
    requires domain == scheme + "//" + host && |path| > 0 && path[0] == '/'
    ensures domain + path == scheme + "//" + host + "/" + path[1..]
  {
    assert path == "/" + path[1..];
  }

  /** Every link the page scan yields has a host and a path, so it always
      gets a request, sent to the bulletin host. */
  lemma BulletinUrlEncodes(path: string)
    requires IsBulletinPath(path)
    ensures var parts := Split(Domain + path, '/');
            |parts| >= 4 && parts[2] == Host && EncodedUrl(Domain + path).Some?
  {
    assert path[0] == '/' by {
      assert path[0..|Prefix|] == Prefix;
      assert Prefix[0] == '/';
    }
    DomainLayout(path);
    SplitRooted("https:", Host, path[1..]);
  }

  /** The new-item counter of `main`. */
  method CountNew(successes: seq<bool>) returns (newCount: nat)
    ensures newCount == multiset(successes)[true]
    ensures newCount <= |successes|
  {
    newCount := 0;
    var i := 0;
    while i < |successes|
      invariant 0 <= i <= |successes|
      invariant newCount == multiset(successes[..i])[true] <= i
    {
      assert successes[..i + 1] == successes[..i] + [successes[i]];
      if successes[i] {
        newCount := newCount + 1;
      }
      i := i + 1;
    }
    assert successes[..i] == successes;
  }
}
