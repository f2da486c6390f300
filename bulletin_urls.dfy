/** The bulletin links of the COBUPEM page and the names derived from them:
    the `re.findall` of the one image-path pattern, the domain prefix and
    de-duplication, the year from `/Desaparecidos/dddd/`, and the file name
    `unquote(basename(url))`. */
module BulletinUrls {
  import opened Wrappers
  import opened Text
  import Percent

  const Domain: string := "https://cobupem.edomex.gob.mx"
  const SitePath: string := "/sites/cobupem.edomex.gob.mx/files/images"
  const YearMarker: string := "/Desaparecidos/"
  /** The literal head of the pattern, up to the four year digits. */
  const Prefix: string := SitePath + YearMarker
  const Jpg: string := ".jpg"

  /** `s` matches `<Prefix>\d{4}/[^/]+/[^"]+\.jpg` as a whole: four digits,
      a slash, a month without `/`, a slash, then a name without `"` and
      the `.jpg` suffix. */
  predicate IsBulletinPath(s: string) {
    HeadAt(s, 0) && exists j :: 0 <= j < |s| && SplitsAt(s, j)
  }

  /** The month of `s` ends at the slash at `j`, and the name runs from
      there to the `.jpg` suffix. */
  predicate SplitsAt(s: string, j: nat) {
    |Prefix| + 5 < j && j + 6 <= |s| && s[j] == '/' && NoneIs(s, |Prefix| + 5, j, '/') &&
    NoneIs(s, j + 1, |s| - 4, '"') && JpgAt(s, |s| - 4)
  }

  /** The literal head, the four digits and their slash start at `i`. */
  predicate HeadAt(t: string, i: nat) {
    var a := i + |Prefix|;
    a + 5 <= |t| && t[i..a] == Prefix && AllDigits(t[a..a + 4]) && t[a + 4] == '/'
  }

  /** No character of `t` between `lo` and `hi` is `c`. */
  predicate NoneIs(t: string, lo: nat, hi: nat, c: char)
    requires lo <= hi <= |t|
  {
    forall k :: lo <= k < hi ==> t[k] != c
  }

  /** `.jpg` starts at `k`. */
  predicate JpgAt(t: string, k: nat) {
    k + 4 <= |t| && t[k..k + 4] == Jpg
  }

  /** The first index at or after `from` holding `c`, or `|t|`. */
  function RunEnd(t: string, from: nat, c: char): (k: nat)
    requires from <= |t|
    ensures from <= k <= |t| && (k < |t| ==> t[k] == c)
    ensures NoneIs(t, from, k, c)
    decreases |t| - from
  {
    if from == |t| || t[from] == c then from else RunEnd(t, from + 1, c)
  }

  /** The last `k` with `lo <= k` and `k + 4 <= hi` where `.jpg` starts. */
  function LastJpg(t: string, lo: nat, hi: nat): (r: Option<nat>)
    requires hi <= |t|
    ensures r.Some? ==> lo <= r.value && r.value + 4 <= hi && JpgAt(t, r.value)
    ensures r.Some? ==> forall k :: r.value < k && k + 4 <= hi ==> !JpgAt(t, k)
    ensures r.None? ==> forall k :: lo <= k && k + 4 <= hi ==> !JpgAt(t, k)
    decreases hi
  {
    if hi < lo + 4 then None
    else if JpgAt(t, hi - 4) then Some(hi - 4)
    else LastJpg(t, lo, hi - 1)
  }

  /** The end of the match of the pattern starting at `i`, if any. The
      month `[^/]+` must run up to the next `/`; the name `[^"]+` takes
      the whole run of non-quote characters and gives back characters up
      to the last `.jpg` in it, as greedy matching does. */
  function MatchAt(t: string, i: nat): (e: Option<nat>)
    requires i <= |t|
    ensures e.Some? ==> i < e.value <= |t| && IsBulletinPath(t[i..e.value])
  {
    if !HeadAt(t, i) then None
    else
      var m := i + |Prefix| + 5;
      var slash := RunEnd(t, m, '/');
      if slash == m || slash == |t| then None
      else
        var n := slash + 1;
        var quote := RunEnd(t, n, '"');
        match LastJpg(t, n + 1, quote)
        case None => None
        case Some(k) =>
          MatchIsPath(t, i, slash, k + 4);
          Some(k + 4)
  }

  /** `MatchAt` misses no path: there is no match exactly when no bulletin
      path starts at `i`, and a match is the longest path starting there. */
  lemma MatchAtLongest(t: string, i: nat)
    requires i <= |t|
    ensures MatchAt(t, i).None? ==> forall k :: i < k <= |t| ==> !IsBulletinPath(t[i..k])
    ensures MatchAt(t, i).Some? ==> forall k :: MatchAt(t, i).value < k <= |t| ==> !IsBulletinPath(t[i..k])
  {
    forall k | i < k <= |t| && IsBulletinPath(t[i..k])
      ensures MatchAt(t, i).Some? && k <= MatchAt(t, i).value
    {
      PathMatched(t, i, k);
    }
  }

  /** A bulletin path from `i` to `k` is matched, up to `k` or further. */
  lemma PathMatched(t: string, i: nat, k: nat)
    requires i < k <= |t| && IsBulletinPath(t[i..k])
    ensures MatchAt(t, i).Some? && k <= MatchAt(t, i).value
  {
    SliceHead(t, i, k);
    var j :| 0 <= j < k - i && SplitsAt(t[i..k], j);
    SliceSplit(t, i, k, j);
    var m := i + |Prefix| + 5;
    RunEndIs(t, m, i + j, '/');
    var slash := i + j;
    var quote := RunEnd(t, slash + 1, '"');
    assert k <= quote;
    var last := LastJpg(t, slash + 2, quote);
    assert last.Some? && k - 4 <= last.value;
  }

  /** The head of a slice is a head of the text. */
  lemma SliceHead(t: string, i: nat, k: nat)
    requires i < k <= |t| && HeadAt(t[i..k], 0)
    ensures HeadAt(t, i)
  {
    var s, a := t[i..k], |Prefix|;
    assert s[..a] == t[i..i + a];
    forall x | a <= x < a + 4 ensures s[x] == t[i + x] {
    }
    assert s[a..a + 4] == t[i + a..i + a + 4];
    assert s[a + 4] == t[i + a + 4];
  }

  /** The month slash and name of a slice, read in the text. */
  lemma SliceSplit(t: string, i: nat, k: nat, j: nat)
    requires i < k <= |t| && SplitsAt(t[i..k], j)
    ensures |Prefix| + 5 < j && i + j + 6 <= k && t[i + j] == '/'
    ensures NoneIs(t, i + |Prefix| + 5, i + j, '/')
    ensures JpgAt(t, k - 4) && NoneIs(t, i + j + 1, k, '"')
  {
    var s := t[i..k];
    assert t[i + j] == s[j];
    forall x | i + |Prefix| + 5 <= x < i + j ensures t[x] != '/' {
      assert t[x] == s[x - i];
    }
    assert s[|s| - 4..] == t[k - 4..k];
    forall x | i + j + 1 <= x < k ensures t[x] != '"' {
      if x < k - 4 {
        assert t[x] == s[x - i];
      } else {
        assert t[x] == t[k - 4..k][x - (k - 4)] == Jpg[x - (k - 4)];
      }
    }
  }

  lemma MatchIsPath(t: string, i: nat, slash: nat, e: nat)
    requires i + |Prefix| + 5 < slash && slash + 6 <= e <= |t| && HeadAt(t, i)
    requires t[slash] == '/' && NoneIs(t, i + |Prefix| + 5, slash, '/')
    requires NoneIs(t, slash + 1, e - 4, '"') && JpgAt(t, e - 4)
    ensures IsBulletinPath(t[i..e])
  {
    var s := t[i..e];
    var a := |Prefix|;
    assert forall k :: 0 <= k < |s| ==> s[k] == t[i + k];
    assert s[..a] == t[i..i + a];
    assert s[a..a + 4] == t[i + a..i + a + 4];
    assert HeadAt(s, 0);
    assert s[|s| - 4..] == t[e - 4..e];
    assert SplitsAt(s, slash - i);
  }

  /** `re.findall` of the pattern from `from` on: leftmost matches, each
      search resuming where the previous match ended. */
  function FindAll(t: string, from: nat): (r: seq<string>)
    requires from <= |t|
    ensures forall k :: 0 <= k < |r| ==> IsBulletinPath(r[k])
    decreases |t| - from
  {
    if from == |t| then []
    else
      match MatchAt(t, from)
      case Some(e) => [t[from..e]] + FindAll(t, e)
      case None => FindAll(t, from + 1)
  }

  /** The search finds the leftmost match first: when no match starts
      between `from` and `p` but one does at `p`, it is the first path
      found, and the search resumes at its end. */
  lemma {:induction false} FindAllLeftmost(t: string, from: nat, p: nat)
    requires from <= p < |t| && MatchAt(t, p).Some?
    requires forall q :: from <= q < p ==> MatchAt(t, q).None?
    ensures FindAll(t, from) == [t[p..MatchAt(t, p).value]] + FindAll(t, MatchAt(t, p).value)
    decreases p - from
  {
    if from < p {
      FindAllLeftmost(t, from + 1, p);
    }
  }

  /** Where no match starts from `from` on, nothing more is found. */
  lemma {:induction false} FindAllNone(t: string, from: nat)
    requires from <= |t|
    requires forall q :: from <= q < |t| ==> MatchAt(t, q).None?
    ensures FindAll(t, from) == []
    decreases |t| - from
  {
    if from < |t| {
      FindAllNone(t, from + 1);
    }
  }

  /** `find_bulletin_urls(html)`: the domain prefixed to every match, as a
      set (the source turns it into a list in no particular order). */
  function FindBulletinUrls(html: string): (r: set<string>)
    ensures forall u :: u in r <==> exists p :: p in FindAll(html, 0) && u == Domain + p
  {
    set p | p in FindAll(html, 0) :: Domain + p
  }

  /** Every URL found is the domain followed by a bulletin path. */
  lemma UrlsAreBulletins(html: string, u: string)
    requires u in FindBulletinUrls(html)
    ensures |Domain| < |u| && u[..|Domain|] == Domain && IsBulletinPath(u[|Domain|..])
  {
    var p :| p in FindAll(html, 0) && u == Domain + p;
    assert u[|Domain|..] == p && u[..|Domain|] == Domain;
  }

  /** Nothing matches where no `/` can start the pattern. */
  lemma {:induction false} SkipNoSlash(t: string, from: nat, to: nat)
    requires from <= to <= |t| && NoneIs(t, from, to, '/')
    ensures FindAll(t, from) == FindAll(t, to)
    decreases |t| - from
  {
    if from < to {
      assert Prefix[0] == '/';
      SkipNoSlash(t, from + 1, to);
    }
  }

  lemma RunEndIs(t: string, from: nat, k: nat, c: char)
    requires from <= k <= |t| && NoneIs(t, from, k, c) && (k < |t| ==> t[k] == c)
    ensures RunEnd(t, from, c) == k
    decreases k - from
  {
    if from < k {
      RunEndIs(t, from + 1, k, c);
    }
  }

  /** A bulletin path written between quotes, with no `/` around them, is
      found, and is all that is found. */
  lemma FindsQuotedPath(pre: string, path: string, post: string)
    requires IsBulletinPath(path) && '/' !in pre && '/' !in post
    ensures FindBulletinUrls(pre + ['"'] + path + ['"'] + post) == {Domain + path}
  {
    var head, tail := pre + ['"'], ['"'] + post;
    var t := head + path + tail;
    assert t == pre + ['"'] + path + ['"'] + post;
    QuotedLayout(head, path, tail);
    FindAllQuoted(t, |head|, path);
    UrlsOfOne(t, path);
  }

  lemma QuotedLayout(head: string, path: string, tail: string)
    requires '/' !in head && |tail| > 0 && tail[0] == '"' && '/' !in tail
    ensures var t := head + path + tail;
      t[|head|..|head| + |path|] == path && t[|head| + |path|] == '"' &&
      NoneIs(t, 0, |head|, '/') && NoneIs(t, |head| + |path|, |t|, '/')
  {
    var t := head + path + tail;
    assert forall k :: 0 <= k < |head| ==> t[k] == head[k];
    assert forall k :: |head| + |path| <= k < |t| ==> t[k] == tail[k - |head| - |path|];
  }

  lemma UrlsOfOne(html: string, path: string)
    requires FindAll(html, 0) == [path]
    ensures FindBulletinUrls(html) == {Domain + path}
  {
    var r := FindBulletinUrls(html);
    assert path in FindAll(html, 0);
    assert Domain + path in r;
    forall u | u in r ensures u == Domain + path {
      OnlyFound(html, path, u);
    }
  }

  lemma OnlyFound(html: string, path: string, u: string)
    requires FindAll(html, 0) == [path] && u in FindBulletinUrls(html)
    ensures u == Domain + path
  {
    var p :| p in FindAll(html, 0) && u == Domain + p;
    assert p == path;
  }

  lemma FindAllQuoted(t: string, i0: nat, path: string)
    requires IsBulletinPath(path)
    requires i0 + |path| < |t| && t[i0..i0 + |path|] == path && t[i0 + |path|] == '"'
    requires NoneIs(t, 0, i0, '/') && NoneIs(t, i0 + |path|, |t|, '/')
    ensures FindAll(t, 0) == [path]
  {
    var e0 := i0 + |path|;
    SkipNoSlash(t, 0, i0);
    FindAllFrom(t, i0, path);
    SkipNoSlash(t, e0, |t|);
    FindAllEnd(t);
    assert [path] + [] == [path];
  }

  /** The quoted path is matched at `i0`, and the search resumes after it. */
  lemma FindAllFrom(t: string, i0: nat, path: string)
    requires IsBulletinPath(path)
    requires i0 + |path| < |t| && t[i0..i0 + |path|] == path && t[i0 + |path|] == '"'
    ensures FindAll(t, i0) == [path] + FindAll(t, i0 + |path|)
  {
    MatchQuotedPath(t, i0, path);
    FindAllAt(t, i0, i0 + |path|);
  }

  lemma FindAllEnd(t: string)
    ensures FindAll(t, |t|) == []
  {
  }

  lemma FindAllAt(t: string, i: nat, e: nat)
    requires i < e <= |t| && MatchAt(t, i) == Some(e)
    ensures FindAll(t, i) == [t[i..e]] + FindAll(t, e)
  {
  }

  /** The match at `i` once its parts are known. */
  lemma MatchAtIs(t: string, i: nat, slash: nat, quote: nat, k: nat)
    requires HeadAt(t, i)
    requires i + |Prefix| + 5 < slash < |t| && RunEnd(t, i + |Prefix| + 5, '/') == slash
    requires slash + 1 <= quote <= |t| && RunEnd(t, slash + 1, '"') == quote
    requires LastJpg(t, slash + 2, quote) == Some(k)
    ensures MatchAt(t, i) == Some(k + 4)
  {
  }

  lemma MatchQuotedPath(t: string, i0: nat, path: string)
    requires IsBulletinPath(path)
    requires i0 + |path| < |t| && t[i0..i0 + |path|] == path && t[i0 + |path|] == '"'
    ensures MatchAt(t, i0) == Some(i0 + |path|)
  {
    var e0 := i0 + |path|;
    var j :| SplitsAt(path, j);
    PathHead(t, i0, path);
    MonthRun(t, i0, path, j);
    NameRun(t, i0, path, j);
    RunEndIs(t, i0 + j + 1, e0, '"');
    JpgShift(t, i0, path);
    assert LastJpg(t, i0 + j + 2, e0) == Some(e0 - 4);
    MatchAtIs(t, i0, i0 + j, e0, e0 - 4);
  }

  lemma MonthRun(t: string, i0: nat, path: string, j: nat)
    requires SplitsAt(path, j) && i0 + |path| <= |t| && t[i0..i0 + |path|] == path
    ensures RunEnd(t, i0 + |Prefix| + 5, '/') == i0 + j
  {
    assert forall k :: 0 <= k < |path| ==> t[i0 + k] == path[k];
    RunEndIs(t, i0 + |Prefix| + 5, i0 + j, '/');
  }

  lemma JpgShift(t: string, i0: nat, path: string)
    requires |path| >= 4 && JpgAt(path, |path| - 4) && i0 + |path| <= |t| && t[i0..i0 + |path|] == path
    ensures JpgAt(t, i0 + |path| - 4)
  {
    assert t[i0 + |path| - 4..i0 + |path|] == path[|path| - 4..];
  }

  lemma PathHead(t: string, i0: nat, path: string)
    requires IsBulletinPath(path) && i0 + |path| <= |t| && t[i0..i0 + |path|] == path
    ensures HeadAt(t, i0)
  {
    var a := |Prefix|;
    assert forall k :: 0 <= k < |path| ==> t[i0 + k] == path[k];
    assert t[i0..i0 + a] == path[..a];
    assert forall k :: a <= k < a + 4 ==> t[i0 + k] == path[k];
    assert t[i0 + a..i0 + a + 4] == path[a..a + 4];
  }

  lemma NameRun(t: string, i0: nat, path: string, j: nat)
    requires j + 6 <= |path| && i0 + |path| <= |t| && t[i0..i0 + |path|] == path
    requires NoneIs(path, j + 1, |path| - 4, '"') && JpgAt(path, |path| - 4)
    ensures NoneIs(t, i0 + j + 1, i0 + |path|, '"')
  {
    forall k | i0 + j + 1 <= k < i0 + |path| ensures t[k] != '"' {
      assert t[k] == path[k - i0];
      if k - i0 >= |path| - 4 {
        assert path[k - i0] == path[|path| - 4..][k - i0 - (|path| - 4)];
      }
    }
  }

  // ---- the year folder ----

  /** `/Desaparecidos/dddd/` starts at `i`. */
  predicate YearAt(t: string, i: nat) {
    i + 20 <= |t| && t[i..i + 15] == YearMarker && AllDigits(t[i + 15..i + 19]) && t[i + 19] == '/'
  }

  /** The leftmost occurrence of `/Desaparecidos/dddd/` at or after `from`. */
  function FirstYear(t: string, from: nat): (r: Option<nat>)
    requires from <= |t|
    ensures r.Some? ==> from <= r.value && YearAt(t, r.value)
    ensures r.Some? ==> forall j :: from <= j < r.value ==> !YearAt(t, j)
    ensures r.None? ==> forall j :: from <= j ==> !YearAt(t, j)
    decreases |t| - from
  {
    if YearAt(t, from) then Some(from)
    else if from == |t| then None
    else FirstYear(t, from + 1)
  }

  const Unknown: string := "Desconocido"

  /** `re.search(r'/Desaparecidos/(\d{4})/', url)`'s group, or `Desconocido`. */
  function Year(url: string): (y: string)
    ensures y == Unknown <==> forall i :: !YearAt(url, i)
    ensures y != Unknown ==> |y| == 4 && AllDigits(y)
    ensures y != Unknown ==>
              exists i :: YearAt(url, i) && y == url[i + 15..i + 19] && forall j :: 0 <= j < i ==> !YearAt(url, j)
  {
    match FirstYear(url, 0)
    case Some(i) => url[i + 15..i + 19]
    case None => Unknown
  }

  /** A bulletin link always names its year folder. */
  lemma BulletinUrlHasYear(path: string)
    requires IsBulletinPath(path)
    ensures Year(Domain + path) != Unknown
  {
    var t := Domain + path;
    var p := |Domain| + |SitePath|;
    var a := |Prefix|;
    assert t[|Domain|..] == path;
    assert path[..a] == SitePath + YearMarker;
    assert t[p..p + 15] == path[|SitePath|..a];
    assert t[p + 15..p + 19] == path[a..a + 4];
    assert t[p + 19] == path[a + 4];
    assert YearAt(t, p);
  }

  // ---- the file name ----

  /** The separators of Windows paths. */
  predicate IsSep(c: char) {
    c == '/' || c == '\\'
  }

  /** `os.path.basename(p)` on Windows: what follows the last `/` or `\`. */
  function BaseName(p: string): (r: string)
    ensures |r| <= |p| && r == p[|p| - |r|..]
    ensures forall k :: 0 <= k < |r| ==> !IsSep(r[k])
    ensures |r| < |p| ==> IsSep(p[|p| - |r| - 1])
  {
    if p == [] || IsSep(p[|p| - 1]) then []
    else BaseName(p[..|p| - 1]) + [p[|p| - 1]]
  }

  /** `unquote(os.path.basename(url))`: a link without escapes is named
      by its last segment as it is. */
  function FileName(url: string): (r: string)
    ensures '%' !in url ==> r == BaseName(url)
  {
    var b := BaseName(url);
    assert '%' !in url ==> '%' !in b by {
      if '%' in b {
        var k :| 0 <= k < |b| && b[k] == '%';
        assert url[|url| - |b| + k] == '%';
      }
    }
    Percent.Unquote(b)
  }

  /** The name of a file behind a quoted last segment is the name before
      quoting: `unquote` undoes `quote`, and quoting writes no separator. */
  lemma FileNameOfQuoted(dir: string, name: string)
    requires '/' !in name
    ensures FileName(dir + "/" + Percent.Quote(name)) == name
  {
    var q := Percent.Quote(name);
    Percent.QuoteNoSlash(name);
    forall k | 0 <= k < |q| ensures !IsSep(q[k]) {
      assert Percent.QuotedChar(q[k]);
      assert q[k] in q;
    }
    BaseNameAfterSep(dir, q);
    Percent.UnquoteQuote(name);
  }

  /** The base name of a path ending in a separator and a name without
      one is that name. */
  lemma {:induction false} BaseNameAfterSep(dir: string, q: string)
    requires forall k :: 0 <= k < |q| ==> !IsSep(q[k])
    ensures BaseName(dir + "/" + q) == q
    decreases |q|
  {
    var p := dir + "/" + q;
    if q != [] {
      var q' := q[..|q| - 1];
      assert p[..|p| - 1] == dir + "/" + q';
      BaseNameAfterSep(dir, q');
      assert q == q' + [q[|q| - 1]];
    } else {
      assert p == dir + "/";
    }
  }
}
