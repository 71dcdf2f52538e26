/** The link checker run after a site build: it collects every internal
    `href` of the built HTML pages, maps each to the file it should resolve to
    under the output directory, and fails when a link resolves to nothing or
    lacks the site's base path. */
module LinkChecker {
  import opened TextUtil
  import opened OrderedSet
  import opened FileTree
  import opened Site

  // ---------------------------------------------------------------------
  // From a URL to a file under the output directory
  // ---------------------------------------------------------------------

  /** The number of ASCII letters and digits at the end of `p`. */
  function AlnumRun(p: string): (n: nat)
    ensures n <= |p|
    ensures forall i :: |p| - n <= i < |p| ==> IsAsciiAlnum(p[i])
    ensures n < |p| ==> !IsAsciiAlnum(p[|p| - n - 1])
  {
    if p == [] || !IsAsciiAlnum(p[|p| - 1]) then 0
    else AlnumRun(p[..|p| - 1]) + 1
  }

  /** A scanner for `/\.[a-z0-9]+$/i`: a dot, then the maximal run of
      letters and digits that ends the path, which must not be empty. */
  predicate HasExtension(p: string) {
    var n := AlnumRun(p);
    0 < n < |p| && p[|p| - n - 1] == '.'
  }

  /** What `/\.[a-z0-9]+$/i` finds somewhere in `p`. */
  ghost predicate EndsWithExtension(p: string) {
    exists k :: 0 <= k < |p| - 1 && p[k] == '.' &&
      forall j :: k < j < |p| ==> IsAsciiAlnum(p[j])
  }

  /** The scanner accepts exactly the paths the pattern matches. */
  lemma HasExtensionMeaning(p: string)
    ensures HasExtension(p) <==> EndsWithExtension(p)
  {
    var n := AlnumRun(p);
    if HasExtension(p) {
      assert p[|p| - n - 1] == '.';
    }
    if EndsWithExtension(p) {
      var k :| 0 <= k < |p| - 1 && p[k] == '.' && forall j :: k < j < |p| ==> IsAsciiAlnum(p[j]);
      assert !IsAsciiAlnum(p[k]);
    }
  }

  lemma AddedIndexHasExtension(prefix: string)
    ensures HasExtension(prefix + "index.html")
  {
    var p := prefix + "index.html";
    assert p[|p| - 5] == '.';
    assert EndsWithExtension(p) by {
      assert forall j :: |p| - 5 < j < |p| ==> IsAsciiAlnum(p[j]);
    }
    HasExtensionMeaning(p);
  }

  /** `url` with the base path and then one leading slash removed, if present. */
  function SitePath(url: string): string {
    var path := if StartsWith(url, BasePath) then url[|BasePath|..] else url;
    if StartsWith(path, "/") then path[1..] else path
  }

  /** The site path with its anchor dropped: everything before the first `#`. */
  function PagePath(url: string): (r: string)
    ensures var s := SitePath(url);
      && '#' !in r
      && |r| <= |s|
      && r == s[..|r|]
      && (|r| == |s| || s[|r|] == '#')
  {
    var path := SitePath(url);
    var anchorIndex := IndexOf(path, '#');
    if anchorIndex != -1 then path[..anchorIndex] else path
  }

  /** The path, relative to the output directory, of the file a URL should
      resolve to: the page path, completed with a default `index.html` unless
      it already ends in an extension. */
  function UrlToRelativePath(url: string): (r: string)
    ensures r != "" && '#' !in r && HasExtension(r)
    ensures StartsWith(r, PagePath(url))
    ensures r == PagePath(url) <==> HasExtension(PagePath(url))
  {
    var path := PagePath(url);
    if path == "" then
      WithIndex("", "index.html");
      assert "" + "index.html" == "index.html";
      "index.html"
    else if EndsWith(path, "/") then
      WithIndex(path, "index.html");
      SlashEndHasNoExtension(path);
      path + "index.html"
    else if HasExtension(path) then
      path
    else
      WithIndex(path, "/index.html");
      path + "/index.html"
  }

  /** A page path read as a directory: with a trailing slash, unless it is
      empty (the root) or already ends with one. */
  function AsDir(p: string): string {
    if p == "" || EndsWith(p, "/") then p else p + "/"
  }

  /** The default file: a page path without an extension names a
      directory, and the file is that directory's `index.html`. */
  lemma DefaultIndexFile(url: string)
    ensures !HasExtension(PagePath(url)) ==> UrlToRelativePath(url) == AsDir(PagePath(url)) + "index.html"
  {
    SlashIndex(PagePath(url));
  }

  lemma SlashIndex(path: string)
    ensures path + "/index.html" == (path + "/") + "index.html"
  {
    assert "/index.html" == "/" + "index.html";
  }

  /** A page path completed with a default file name: longer, still free of
      anchors, and ending in an extension. */
  lemma WithIndex(path: string, suffix: string)
    requires '#' !in path && (suffix == "index.html" || suffix == "/index.html")
    ensures var r := path + suffix;
      r != "" && '#' !in r && HasExtension(r) && StartsWith(r, path) && r != path
  {
    var r := path + suffix;
    assert r[..|path|] == path;
    if suffix == "index.html" {
      AddedIndexHasExtension(path);
    } else {
      assert suffix == "/" + "index.html";
      assert r == (path + "/") + "index.html";
      AddedIndexHasExtension(path + "/");
    }
  }

  lemma SlashEndHasNoExtension(path: string)
    requires EndsWith(path, "/")
    ensures !HasExtension(path)
  {
    assert path[|path| - 1] == path[|path| - 1..][0] == '/';
  }

  /** The file a URL should resolve to: the relative path joined onto the
      output directory. */
  function UrlToFilePath(dist: string, url: string): string
  {
    dist + "/" + UrlToRelativePath(url)
  }

  /** The file lies directly under the output directory's path and ends in
      an extension. */
  lemma UrlToFilePathShape(dist: string, url: string)
    ensures var r := UrlToFilePath(dist, url);
      StartsWith(r, dist + "/") && HasExtension(r) && r[|dist| + 1..] == UrlToRelativePath(url)
  {
    JoinedKeepsExtension(dist, UrlToRelativePath(url));
  }

  lemma JoinedKeepsExtension(dist: string, rel: string)
    requires HasExtension(rel)
    ensures var r := dist + "/" + rel;
      StartsWith(r, dist + "/") && HasExtension(r) && r[|dist| + 1..] == rel
  {
    var r := dist + "/" + rel;
    assert r == (dist + "/") + rel;
    assert r[|dist| + 1..] == rel;
    AlnumRunSuffix(dist + "/", rel);
  }

  lemma {:induction false} AlnumRunSuffix(prefix: string, p: string)
    requires HasExtension(p)
    ensures AlnumRun(prefix + p) == AlnumRun(p)
    decreases |p|
  {
    var q := prefix + p;
    if IsAsciiAlnum(p[|p| - 1]) {
      var p' := p[..|p| - 1];
      assert q[..|q| - 1] == prefix + p';
      assert AlnumRun(p') == AlnumRun(p) - 1;
      if AlnumRun(p') > 0 {
        assert HasExtension(p');
        AlnumRunSuffix(prefix, p');
      } else {
        assert p'[|p'| - 1] == '.';
        assert AlnumRun(q[..|q| - 1]) == 0;
      }
    }
  }

  /** Prefixing a URL with the base path does not change the file it
      resolves to, unless the URL already began with the base path. */
  lemma BasePrefixResolvesAlike(url: string)
    requires !StartsWith(url, BasePath)
    ensures UrlToRelativePath(BasePath + url) == UrlToRelativePath(url)
  {
    assert (BasePath + url)[..|BasePath|] == BasePath;
    assert (BasePath + url)[|BasePath|..] == url;
    assert SitePath(BasePath + url) == SitePath(url);
    assert PagePath(BasePath + url) == PagePath(url);
  }

  /** A URL under the base path resolves within the page path after it; a
      second leading slash is kept. */
  lemma BaseAndSlashStripped(rest: string)
    ensures SitePath(BasePath + "/" + rest) == rest
  {
    var u := BasePath + "/" + rest;
    assert u[..|BasePath|] == BasePath;
    assert u[|BasePath|..] == "/" + rest;
  }

  // ---------------------------------------------------------------------
  // Scanning a page for href values
  // ---------------------------------------------------------------------

  /** Where a match of `/href="([^"]+)"/` starting at `q` puts its closing
      quote: the capture runs from `q + 6` to the first quote after it and
      must not be empty. */
  function HrefMatchAt(s: string, q: nat): Option<nat>
  {
    if OccursAt(s, q, "href=\"") && q + 6 < |s| && s[q + 6] != '"' && QuoteFrom(s, q + 6) < |s|
    then Some(QuoteFrom(s, q + 6))
    else None
  }

  datatype Match = Match(start: nat, close: nat)

  /** `hrefPattern.exec(content)` with `lastIndex == from`: the leftmost
      match at or after `from`, as the capture's first index and the index of
      the closing quote. */
  function Exec(s: string, from: nat): (m: Option<Match>)
    requires from <= |s|
    decreases |s| - from
    ensures m.Some? ==> from + 6 <= m.value.start < m.value.close < |s|
    ensures m.Some? ==> HrefMatchAt(s, m.value.start - 6) == Some(m.value.close)
  {
    if from == |s| then None
    else match HrefMatchAt(s, from)
      case Some(close) => Some(Match(from + 6, close))
      case None => Exec(s, from + 1)
  }

  /** `exec` finds the leftmost match: nothing matches between `lastIndex`
      and the match it reports, and nothing matches from `lastIndex` on when
      it reports none. */
  lemma {:induction false} ExecLeftmost(s: string, from: nat)
    requires from <= |s|
    ensures Exec(s, from).None? ==> forall p :: from <= p < |s| ==> HrefMatchAt(s, p).None?
    ensures Exec(s, from).Some? ==> forall p :: from <= p < Exec(s, from).value.start - 6 ==> HrefMatchAt(s, p).None?
    decreases |s| - from
  {
    if from < |s| && HrefMatchAt(s, from).None? {
      ExecLeftmost(s, from + 1);
    }
  }

  /** The captures of successive `exec` calls from `lastIndex == from` on. */
  function Hrefs(s: string, from: nat): seq<string>
    requires from <= |s|
    decreases |s| - from
  {
    var m := Exec(s, from);
    if m.None? then [] else [s[m.value.start..m.value.close]] + Hrefs(s, m.value.close + 1)
  }

  /** `h` stands in `s` as a non-empty quoted `href` value. */
  ghost predicate IsAttributeValue(s: string, h: string) {
    h != "" && '"' !in h && exists q: nat :: QuotedAt(s, q, h)
  }

  /** `href="h"` stands in `s` at `q`. */
  predicate QuotedAt(s: string, q: nat, h: string) {
    OccursAt(s, q, "href=\"" + h + "\"")
  }

  /** Every value the scan yields is a non-empty run of non-quote characters
      that stands in the page between `href="` and `"`. */
  lemma {:induction false} HrefsAreAttributeValues(s: string, from: nat, h: string)
    requires from <= |s| && h in Hrefs(s, from)
    ensures IsAttributeValue(s, h)
    decreases |s| - from
  {
    var m := HeadOrTail(s, from, h);
    if h == s[m.start..m.close] {
      MatchIsAttribute(s, m);
    } else {
      HrefsAreAttributeValues(s, m.close + 1, h);
    }
  }

  /** A value the scan yields is the first match's capture or a later one. */
  lemma HeadOrTail(s: string, from: nat, h: string) returns (m: Match)
    requires from <= |s| && h in Hrefs(s, from)
    ensures Exec(s, from) == Some(m)
    ensures h == s[m.start..m.close] || h in Hrefs(s, m.close + 1)
  {
    HrefsFound(s, from, h);
    m := Exec(s, from).value;
    var rest := Hrefs(s, m.close + 1);
    assert Hrefs(s, from) == [s[m.start..m.close]] + rest by {
      HrefsStep(s, from);
    }
    InCons(h, s[m.start..m.close], rest);
  }

  lemma HrefsFound(s: string, from: nat, h: string)
    requires from <= |s| && h in Hrefs(s, from)
    ensures Exec(s, from).Some?
  {
  }

  lemma InCons(h: string, x: string, xs: seq<string>)
    requires h in [x] + xs
    ensures h == x || h in xs
  {
  }

  /** One match is a quoted attribute value that is not empty. */
  lemma MatchIsAttribute(s: string, m: Match)
    requires m.start >= 6 && HrefMatchAt(s, m.start - 6) == Some(m.close)
    ensures IsAttributeValue(s, s[m.start..m.close])
  {
    var h := s[m.start..m.close];
    var q := m.start - 6;
    forall i | 0 <= i < |h| ensures h[i] != '"' {
      assert h[i] == s[m.start + i];
    }
    assert s[q..m.close + 1] == s[q..q + 6] + h + "\"";
    assert QuotedAt(s, q, h);
  }

  /** Conversely, a non-empty quote-free value standing as `href="h"` at `q`
      is a match of the pattern there, closing at the quote after it. */
  lemma QuotedValueIsMatch(s: string, q: nat, h: string)
    requires QuotedAt(s, q, h) && h != "" && '"' !in h
    ensures HrefMatchAt(s, q) == Some(q + 6 + |h|)
  {
    var w := "href=\"" + h + "\"";
    var c := q + 6 + |h|;
    assert s[q..q + |w|] == w;
    assert s[q..q + 6] == w[..6] == "href=\"";
    assert s[q + 6] == w[6] == h[0];
    assert s[c] == w[|w| - 1] == '"';
    forall i | q + 6 <= i < c ensures s[i] != '"' {
      assert s[i] == w[i - q] == h[i - q - 6];
    }
  }

  /** `href.startsWith('/') && !href.startsWith('//') &&
      !href.startsWith('http://') && !href.startsWith('https://')` */
  predicate IsInternal(href: string) {
    StartsWith(href, "/") && !StartsWith(href, "//") &&
    !StartsWith(href, "http://") && !StartsWith(href, "https://")
  }

  /** The two scheme tests never decide anything: a value that starts with
      `/` cannot start with a scheme. */
  lemma IsInternalMeaning(href: string)
    ensures IsInternal(href) <==> |href| > 0 && href[0] == '/' && (|href| == 1 || href[1] != '/')
  {
  }

  /** The internal values of `hs`, in order. */
  function InternalOnly(hs: seq<string>): seq<string>
  {
    if hs == [] then []
    else InternalOnly(hs[..|hs| - 1]) + (if IsInternal(hs[|hs| - 1]) then [hs[|hs| - 1]] else [])
  }

  lemma {:induction false} InternalOnlyElements(hs: seq<string>)
    ensures forall h :: h in InternalOnly(hs) <==> h in hs && IsInternal(h)
    decreases |hs|
  {
    if hs != [] {
      var init := hs[..|hs| - 1];
      InternalOnlyElements(init);
      assert hs == init + [hs[|hs| - 1]];
    }
  }

  lemma InternalOnlySnoc(hs: seq<string>, h: string)
    ensures InternalOnly(hs + [h]) == InternalOnly(hs) + (if IsInternal(h) then [h] else [])
  {
    assert (hs + [h])[..|hs|] == hs;
  }

  /** What `extractLinks` returns for a page: its internal href values,
      each once, in order of first occurrence. */
  function InternalLinks(content: string): seq<string> {
    FirstOccurrences(InternalOnly(Hrefs(content, 0)))
  }

  /** `links.add(href)` behind the internal-link test. */
  function AddLink(links: seq<string>, href: string): seq<string> {
    if IsInternal(href) && href !in links then links + [href] else links
  }

  /** The rest of the `exec` loop: add each of `hs` in turn. */
  function AddLinks(links: seq<string>, hs: seq<string>): seq<string>
    decreases |hs|
  {
    if hs == [] then links else AddLinks(AddLink(links, hs[0]), hs[1..])
  }

  /** Adding the values one at a time into an insertion-ordered set builds
      the first occurrences of the internal ones. */
  lemma {:induction false} AddLinksBuildsFirstOccurrences(p: seq<string>, q: seq<string>)
    ensures AddLinks(FirstOccurrences(InternalOnly(p)), q) == FirstOccurrences(InternalOnly(p + q))
    decreases |q|
  {
    if q == [] {
      assert p + q == p;
    } else {
      var p' := p + [q[0]];
      AddOne(p, q[0]);
      AddLinksBuildsFirstOccurrences(p', q[1..]);
      ConsSplit(p, q);
    }
  }

  lemma ConsSplit(p: seq<string>, q: seq<string>)
    requires q != []
    ensures (p + [q[0]]) + q[1..] == p + q
  {
  }

  /** `extractLinks`: runs the href pattern over the page and adds every
      internal value to an insertion-ordered set. */
  method ExtractLinks(content: string) returns (links: seq<string>)
    ensures links == InternalLinks(content)
    ensures NoDuplicates(links)
    ensures forall h :: h in links <==> h in Hrefs(content, 0) && IsInternal(h)
  {
    links := [];
    var lastIndex := 0;
    var m := Exec(content, lastIndex);
    while m.Some?
      invariant lastIndex <= |content|
      invariant m == Exec(content, lastIndex)
      invariant AddLinks(links, Hrefs(content, lastIndex)) == AddLinks([], Hrefs(content, 0))
      decreases |content| - lastIndex
    {
      var href := content[m.value.start..m.value.close];
      HrefsStep(content, lastIndex);
      if IsInternal(href) && href !in links {
        links := links + [href];
      }
      lastIndex := m.value.close + 1;
      m := Exec(content, lastIndex);
    }
    AddLinksBuildsFirstOccurrences([], Hrefs(content, 0));
    assert [] + Hrefs(content, 0) == Hrefs(content, 0);
    InternalLinksElements(content);
  }

  /** The links of a page are its internal href values, each once. */
  lemma InternalLinksElements(content: string)
    ensures NoDuplicates(InternalLinks(content))
    ensures forall h :: h in InternalLinks(content) <==> h in Hrefs(content, 0) && IsInternal(h)
  {
    FirstOccurrencesElements(InternalOnly(Hrefs(content, 0)));
    InternalOnlyElements(Hrefs(content, 0));
  }

  /** One `exec` call yields the head of the captures. */
  lemma HrefsStep(content: string, lastIndex: nat)
    requires lastIndex <= |content| && Exec(content, lastIndex).Some?
    ensures var m := Exec(content, lastIndex).value;
      Hrefs(content, lastIndex) == [content[m.start..m.close]] + Hrefs(content, m.close + 1)
  {
  }

  lemma AddOne(scanned: seq<string>, href: string)
    ensures FirstOccurrences(InternalOnly(scanned + [href]))
      == AddLink(FirstOccurrences(InternalOnly(scanned)), href)
  {
    var ys := InternalOnly(scanned);
    FirstOccurrencesElements(ys);
    InternalOnlySnoc(scanned, href);
    if IsInternal(href) {
      var xs := ys + [href];
      assert InternalOnly(scanned + [href]) == xs;
      assert xs[..|xs| - 1] == ys;
      assert xs[|xs| - 1] == href;
      assert href in ys <==> href in FirstOccurrences(ys);
      assert FirstOccurrences(xs) == if href in ys then FirstOccurrences(ys) else FirstOccurrences(ys) + [href];
    } else {
      assert InternalOnly(scanned + [href]) == ys;
    }
  }


  // ---------------------------------------------------------------------
  // Collecting the links of every page
  // ---------------------------------------------------------------------

  /** url -> the pages (paths relative to the output directory) that link to it */
  type LinkMap = map<string, set<string>>

  function Lookup(m: LinkMap, url: string): set<string> {
    if url in m then m[url] else {}
  }

  /** Merging one link map into another by set union per url. */
  function Merge(a: LinkMap, b: LinkMap): (r: LinkMap)
    ensures r.Keys == a.Keys + b.Keys
    ensures forall u :: u in r ==> r[u] == Lookup(a, u) + Lookup(b, u)
  {
    map u | u in a.Keys + b.Keys :: Lookup(a, u) + Lookup(b, u)
  }

  /** The link map of one page: each of its links, found in that page. */
  function PageLinks(page: string, links: seq<string>): LinkMap {
    map u | u in links :: {page}
  }

  /** What `processDirectory` returns for a listing whose path below the
      output directory is `rel`: the merge, entry by entry, of what each
      not-skipped subdirectory and each `.html` file contributes. */
  function LinkMapOf(rel: seq<string>, es: seq<Entry>): LinkMap
    decreases es
  {
    if es == [] then map[]
    else Merge(LinkMapOf(rel, es[..|es| - 1]), EntryLinkMap(rel, es[|es| - 1]))
  }

  function EntryLinkMap(rel: seq<string>, e: Entry): LinkMap
    decreases e
  {
    match e
    case Dir(n, children) =>
      if IsSkippedBuildDir(n) then map[] else LinkMapOf(rel + [n], children)
    case File(n, c) =>
      if EndsWith(n, ".html") then PageLinks(PathString(rel + [n]), InternalLinks(c)) else map[]
    case Special(_) => map[]
  }

  /** `processDirectory`: walks a listing, recursing into every directory
      except `_astro` and `pagefind`, and files each internal link of each
      `.html` page under that page's path relative to the output directory. */
  method CollectLinks(rel: seq<string>, entries: seq<Entry>) returns (allLinks: LinkMap)
    ensures allLinks == LinkMapOf(rel, entries)
    decreases entries
  {
    allLinks := map[];
    for i := 0 to |entries|
      invariant allLinks == LinkMapOf(rel, entries[..i])
    {
      var entry := entries[i];
      ghost var before := allLinks;
      if entry.Dir? {
        if !IsSkippedBuildDir(entry.name) {
          var dirLinks := CollectLinks(rel + [entry.name], entry.entries);
          allLinks := MergeInto(allLinks, dirLinks);
        } else {
          MergeEmpty(allLinks);
        }
      } else if entry.File? && EndsWith(entry.name, ".html") {
        var links := ExtractLinks(entry.content);
        var relativePath := PathString(rel + [entry.name]);
        allLinks := AddPageLinks(allLinks, relativePath, links);
      } else {
        MergeEmpty(allLinks);
      }
      assert allLinks == Merge(before, EntryLinkMap(rel, entry));
      LinkMapStep(rel, entries, i);
    }
    assert entries[..|entries|] == entries;
  }

  lemma LinkMapStep(rel: seq<string>, es: seq<Entry>, i: nat)
    requires i < |es|
    ensures LinkMapOf(rel, es[..i + 1]) == Merge(LinkMapOf(rel, es[..i]), EntryLinkMap(rel, es[i]))
  {
    assert es[..i + 1][..i] == es[..i];
  }

  lemma MergeEmpty(a: LinkMap)
    ensures Merge(a, map[]) == a
  {
    MergeExtensional(a, a, map[]);
  }

  /** The loop over one page's links in `processDirectory`: create the
      url's set if missing, then add the page to it. */
  method AddPageLinks(m: LinkMap, page: string, links: seq<string>) returns (r: LinkMap)
    ensures r == Merge(m, PageLinks(page, links))
  {
    r := m;
    PageLinksNone(m, page, links);
    for k := 0 to |links|
      invariant Filed(r, m, page, links[..k])
    {
      var link := links[k];
      ghost var before := r;
      if link !in r {
        r := r[link := {}];
      }
      r := r[link := r[link] + {page}];
      AddPageLinkStep(m, page, links, k, before, r);
    }
    assert links[..|links|] == links;
  }

  /** `r` is `m` with the page filed under each url of `done`. */
  ghost predicate Filed(r: LinkMap, m: LinkMap, page: string, done: seq<string>) {
    r == Merge(m, PageLinks(page, done))
  }

  lemma PageLinksNone(m: LinkMap, page: string, links: seq<string>)
    ensures Filed(m, m, page, links[..0])
  {
    assert PageLinks(page, links[..0]) == map[];
    MergeEmpty(m);
  }

  /** The page filed under one url, whose set is created first if missing. */
  function AddPage(r: LinkMap, link: string, page: string): LinkMap {
    var created := if link !in r then r[link := {}] else r;
    created[link := created[link] + {page}]
  }

  /** One link of a page added to the merge of the links before it. */
  lemma AddPageLinkStep(m: LinkMap, page: string, links: seq<string>, k: nat, before: LinkMap, after: LinkMap)
    requires k < |links| && Filed(before, m, page, links[..k])
    requires after == AddPage(before, links[k], page)
    ensures Filed(after, m, page, links[..k + 1])
  {
    var done, link := links[..k], links[k];
    assert links[..k + 1] == done + [link];
    var pl := PageLinks(page, done + [link]);
    assert pl.Keys == PageLinks(page, done).Keys + {link};
    forall u | u in after
      ensures after[u] == Lookup(m, u) + Lookup(pl, u)
    {
      if u != link {
        assert Lookup(pl, u) == Lookup(PageLinks(page, done), u);
      }
    }
    MergeExtensional(after, m, pl);
  }

  /** The merge loop of `processDirectory`: for each url of the
      subdirectory's map, create its set if missing and add each file. */
  method MergeInto(allLinks: LinkMap, dirLinks: LinkMap) returns (r: LinkMap)
    ensures r == Merge(allLinks, dirLinks)
  {
    r := allLinks;
    var urls := dirLinks.Keys;
    ghost var done: set<string> := {};
    RestrictNone(allLinks, dirLinks);
    while urls != {}
      invariant urls !! done && urls + done == dirLinks.Keys
      invariant r == Merge(allLinks, Restrict(dirLinks, done))
      decreases urls
    {
      var url :| url in urls;
      ghost var before := r;
      r := AddFiles(r, url, dirLinks[url]);
      MergeIntoStep(allLinks, dirLinks, done, url, before, r);
      done := done + {url};
      urls := urls - {url};
    }
    RestrictAll(dirLinks, done);
  }

  lemma RestrictNone(a: LinkMap, b: LinkMap)
    ensures Merge(a, Restrict(b, {})) == a
  {
    assert Restrict(b, {}) == map[];
    MergeEmpty(a);
  }

  lemma RestrictAll(b: LinkMap, done: set<string>)
    requires done == b.Keys
    ensures Restrict(b, done) == b
  {
  }

  /** The part of `b` on the urls of `done`. */
  function Restrict(b: LinkMap, done: set<string>): LinkMap {
    map u | u in b.Keys * done :: b[u]
  }

  /** One url of the subdirectory's map merged in. */
  lemma MergeIntoStep(a: LinkMap, b: LinkMap, done: set<string>, url: string, before: LinkMap, after: LinkMap)
    requires url in b && before == Merge(a, Restrict(b, done))
    requires after.Keys == before.Keys + {url}
    requires after[url] == Lookup(before, url) + b[url]
    requires forall u :: u in after && u != url ==> after[u] == before[u]
    ensures after == Merge(a, Restrict(b, done + {url}))
  {
    var b' := Restrict(b, done + {url});
    assert b'.Keys == Restrict(b, done).Keys + {url};
    forall u | u in after
      ensures after[u] == Lookup(a, u) + Lookup(b', u)
    {
      if u != url {
        assert Lookup(b', u) == Lookup(Restrict(b, done), u);
      }
    }
    MergeExtensional(after, a, b');
  }

  lemma MergeExtensional(r: LinkMap, a: LinkMap, b: LinkMap)
    requires r.Keys == a.Keys + b.Keys
    requires forall u :: u in r ==> r[u] == Lookup(a, u) + Lookup(b, u)
    ensures r == Merge(a, b)
  {
    var m := Merge(a, b);
    assert r.Keys == m.Keys;
    assert forall u :: u in r ==> r[u] == m[u];
  }

  /** Adding every file of `files` under `url`, creating its set first if
      the map has none. */
  method AddFiles(m: LinkMap, url: string, files: set<string>) returns (r: LinkMap)
    ensures r.Keys == m.Keys + {url}
    ensures r[url] == Lookup(m, url) + files
    ensures forall u :: u in r && u != url ==> r[u] == m[u]
  {
    r := m;
    if url !in r {
      r := r[url := {}];
    }
    var rest := files;
    while rest != {}
      invariant rest <= files
      invariant r.Keys == m.Keys + {url}
      invariant r[url] == Lookup(m, url) + (files - rest)
      invariant forall u :: u in r && u != url ==> r[u] == m[u]
      decreases rest
    {
      var file :| file in rest;
      r := r[url := r[url] + {file}];
      rest := rest - {file};
    }
  }

  /** A path below the output directory that `processDirectory` reads as a
      page: an `.html` file, reached through no `_astro` or `pagefind`
      directory. */
  ghost predicate ScannedPage(p: seq<string>) {
    |p| >= 1 && EndsWith(p[|p| - 1], ".html") &&
    forall k :: 0 <= k < |p| - 1 ==> !IsSkippedBuildDir(p[k])
  }

  /** A page read by the walk: its path components from the output
      directory, and its text. */
  type Page = (seq<string>, string)

  /** The pages the walk reads below `rel`, listed independently of the
      link map. */
  ghost function Pages(rel: seq<string>, es: seq<Entry>): set<Page>
    decreases es
  {
    if es == [] then {} else Pages(rel, es[..|es| - 1]) + EntryPages(rel, es[|es| - 1])
  }

  ghost function EntryPages(rel: seq<string>, e: Entry): set<Page>
    decreases e
  {
    match e
    case Dir(n, children) => if IsSkippedBuildDir(n) then {} else Pages(rel + [n], children)
    case File(n, c) => if EndsWith(n, ".html") then {(rel + [n], c)} else {}
    case Special(_) => {}
  }

  /** Some page of `P` links to `u`. */
  ghost predicate LinkedFrom(P: set<Page>, u: string) {
    exists q, c :: (q, c) in P && u in InternalLinks(c)
  }

  /** Some page of `P` whose path reads `f` links to `u`. */
  ghost predicate LinkedFromAt(P: set<Page>, u: string, f: string) {
    exists q, c :: (q, c) in P && f == PathString(q) && u in InternalLinks(c)
  }

  lemma LinkedFromUnion(P1: set<Page>, P2: set<Page>, u: string, f: string)
    ensures LinkedFrom(P1 + P2, u) <==> LinkedFrom(P1, u) || LinkedFrom(P2, u)
    ensures LinkedFromAt(P1 + P2, u, f) <==> LinkedFromAt(P1, u, f) || LinkedFromAt(P2, u, f)
  {
    if LinkedFrom(P1 + P2, u) {
      var q, c :| (q, c) in P1 + P2 && u in InternalLinks(c);
    }
    if LinkedFromAt(P1 + P2, u, f) {
      var q, c :| (q, c) in P1 + P2 && f == PathString(q) && u in InternalLinks(c);
    }
  }

  /** A url is a key of the link map exactly when some read page links to
      it. */
  lemma {:induction false} LinkMapKeys(rel: seq<string>, es: seq<Entry>, u: string)
    ensures u in LinkMapOf(rel, es) <==> LinkedFrom(Pages(rel, es), u)
    decreases es
  {
    if es != [] {
      var init, last := es[..|es| - 1], es[|es| - 1];
      LinkMapKeys(rel, init, u);
      EntryLinkMapKeys(rel, last, u);
      LinkedFromUnion(Pages(rel, init), EntryPages(rel, last), u, "");
    }
  }

  lemma {:induction false} EntryLinkMapKeys(rel: seq<string>, e: Entry, u: string)
    ensures u in EntryLinkMap(rel, e) <==> LinkedFrom(EntryPages(rel, e), u)
    decreases e
  {
    match e
    case Dir(n, children) =>
      if !IsSkippedBuildDir(n) {
        LinkMapKeys(rel + [n], children, u);
      }
    case File(n, c) =>
      if LinkedFrom(EntryPages(rel, e), u) {
        var q, c' :| (q, c') in EntryPages(rel, e) && u in InternalLinks(c');
      }
    case Special(_) =>
  }

  /** The link map sends each url to exactly the paths of the read pages
      that link to it. */
  lemma {:induction false} LinkMapContents(rel: seq<string>, es: seq<Entry>, u: string, f: string)
    ensures (u in LinkMapOf(rel, es) && f in LinkMapOf(rel, es)[u]) <==> LinkedFromAt(Pages(rel, es), u, f)
    decreases es
  {
    if es != [] {
      var init, last := es[..|es| - 1], es[|es| - 1];
      LinkMapContents(rel, init, u, f);
      EntryLinkMapContents(rel, last, u, f);
      LinkedFromUnion(Pages(rel, init), EntryPages(rel, last), u, f);
    }
  }

  lemma {:induction false} EntryLinkMapContents(rel: seq<string>, e: Entry, u: string, f: string)
    ensures (u in EntryLinkMap(rel, e) && f in EntryLinkMap(rel, e)[u]) <==> LinkedFromAt(EntryPages(rel, e), u, f)
    decreases e
  {
    match e
    case Dir(n, children) =>
      if !IsSkippedBuildDir(n) {
        LinkMapContents(rel + [n], children, u, f);
      }
    case File(n, c) =>
      if LinkedFromAt(EntryPages(rel, e), u, f) {
        var q, c' :| (q, c') in EntryPages(rel, e) && f == PathString(q) && u in InternalLinks(c');
      }
    case Special(_) =>
  }

  /** Every page read below `rel` has a path that extends `rel`. */
  lemma {:induction false} PagesPrefix(rel: seq<string>, es: seq<Entry>, q: seq<string>, c: string)
    requires (q, c) in Pages(rel, es)
    ensures |q| > |rel| && q[..|rel|] == rel
    decreases es
  {
    var init, last := es[..|es| - 1], es[|es| - 1];
    if (q, c) in Pages(rel, init) {
      PagesPrefix(rel, init, q, c);
    } else {
      EntryPagesPrefix(rel, last, q, c);
    }
  }

  lemma {:induction false} EntryPagesPrefix(rel: seq<string>, e: Entry, q: seq<string>, c: string)
    requires (q, c) in EntryPages(rel, e)
    ensures |q| > |rel| && q[..|rel|] == rel
    decreases e
  {
    match e
    case Dir(n, children) =>
      PagesPrefix(rel + [n], children, q, c);
      assert q[..|rel|] == q[..|rel| + 1][..|rel|];
    case File(n, _) =>
      assert q == rel + [n];
  }

  /** The pages the walk reads are exactly the files at scanned paths. */
  lemma {:induction false} PagesAreScannedFiles(rel: seq<string>, es: seq<Entry>, p: seq<string>, c: string)
    ensures (rel + p, c) in Pages(rel, es) <==> ScannedPage(p) && FileAt(es, p, c)
    decreases es
  {
    if es != [] {
      var init, last := es[..|es| - 1], es[|es| - 1];
      PagesAreScannedFiles(rel, init, p, c);
      EntryPagesAreScannedFiles(rel, last, p, c);
    }
  }

  lemma {:induction false} EntryPagesAreScannedFiles(rel: seq<string>, e: Entry, p: seq<string>, c: string)
    ensures (rel + p, c) in EntryPages(rel, e) <==> ScannedPage(p) && File(p[|p| - 1], c) in EntryEntriesAt(e, p)
    decreases e
  {
    match e
    case Dir(n, children) =>
      if |p| >= 2 && p[0] == n {
        PagesAreScannedFiles(rel + [n], children, p[1..], c);
        DirPageStep(rel, n, children, p, c);
      } else {
        DirPageOther(rel, n, children, p, c);
      }
    case File(n, c0) =>
      if (rel + p, c) in EntryPages(rel, e) {
        assert rel + p == rel + [n];
        assert p == (rel + p)[|rel|..];
      }
    case Special(_) =>
  }

  /** A path through a directory: what the walk reads below the directory
      decides. */
  lemma DirPageStep(rel: seq<string>, n: string, children: seq<Entry>, p: seq<string>, c: string)
    requires |p| >= 2 && p[0] == n
    requires ((rel + [n]) + p[1..], c) in Pages(rel + [n], children) <==> ScannedPage(p[1..]) && FileAt(children, p[1..], c)
    ensures (rel + p, c) in EntryPages(rel, Dir(n, children)) <==>
      ScannedPage(p) && File(p[|p| - 1], c) in EntryEntriesAt(Dir(n, children), p)
  {
    assert rel + p == (rel + [n]) + p[1..];
    assert p[1..][|p[1..]| - 1] == p[|p| - 1];
    ScannedPageTail(n, p);
  }

  /** A path that does not go through the directory names no page in it. */
  lemma DirPageOther(rel: seq<string>, n: string, children: seq<Entry>, p: seq<string>, c: string)
    requires !(|p| >= 2 && p[0] == n)
    ensures (rel + p, c) !in EntryPages(rel, Dir(n, children))
    ensures !(ScannedPage(p) && File(p[|p| - 1], c) in EntryEntriesAt(Dir(n, children), p))
  {
    if (rel + p, c) in EntryPages(rel, Dir(n, children)) {
      PageThroughDir(rel, n, children, p, c);
      assert false;
    }
  }

  /** A page read below directory `n` has a path through `n`. */
  lemma PageThroughDir(rel: seq<string>, n: string, children: seq<Entry>, p: seq<string>, c: string)
    requires (rel + p, c) in Pages(rel + [n], children)
    ensures |p| >= 2 && p[0] == n
  {
    PagesPrefix(rel + [n], children, rel + p, c);
    assert (rel + p)[..|rel| + 1][|rel|] == n;
  }

  /** A scanned path through directory `n`: `n` is not skipped and the rest
      of the path is scanned. */
  lemma ScannedPageTail(n: string, p: seq<string>)
    requires |p| >= 2 && p[0] == n
    ensures ScannedPage(p) <==> !IsSkippedBuildDir(n) && ScannedPage(p[1..])
  {
    if !IsSkippedBuildDir(n) && ScannedPage(p[1..]) {
      forall k | 0 <= k < |p| - 1 ensures !IsSkippedBuildDir(p[k]) {
        if k > 0 { assert p[k] == p[1..][k - 1]; }
      }
    }
    if ScannedPage(p) {
      forall k | 0 <= k < |p[1..]| - 1 ensures !IsSkippedBuildDir(p[1..][k]) {
        assert p[1..][k] == p[k + 1];
      }
    }
  }

  // ---------------------------------------------------------------------
  // The verdict
  // ---------------------------------------------------------------------

  /** `isValidLink`: the file the url resolves to exists (`existing`
      stands for the paths `access` succeeds on). */
  predicate Resolves(dist: string, existing: set<string>, url: string) {
    UrlToFilePath(dist, url) in existing
  }

  /** The base-path test of `main`. */
  predicate LacksBasePath(url: string) {
    !StartsWith(url, BasePath) && !StartsWith(url, "#")
  }

  /** The loop of `main` over the link map: a link is broken when the file
      it resolves to does not exist, and misses the base path when it starts
      with neither the base path nor `#`. The run fails when either list is
      non-empty. */
  method CheckLinks(dist: string, existing: set<string>, allLinks: LinkMap)
    returns (broken: seq<string>, missing: seq<string>, exitCode: int)
    ensures forall u :: u in broken <==> u in allLinks && !Resolves(dist, existing, u)
    ensures forall u :: u in missing <==> u in allLinks && LacksBasePath(u)
    ensures NoDuplicates(broken) && NoDuplicates(missing)
    ensures exitCode == 0 || exitCode == 1
    ensures exitCode == 0 <==> forall u :: u in allLinks ==> Resolves(dist, existing, u) && !LacksBasePath(u)
  {
    broken, missing := [], [];
    ghost var bad := set u | u in allLinks && !Resolves(dist, existing, u);
    ghost var unprefixed := set u | u in allLinks && LacksBasePath(u);
    var remaining := allLinks.Keys;
    while remaining != {}
      invariant remaining <= allLinks.Keys
      invariant Gathered(broken, bad, remaining) && Gathered(missing, unprefixed, remaining)
      decreases remaining
    {
      var url :| url in remaining;
      var filePath := UrlToFilePath(dist, url);
      GatherStep(broken, bad, remaining, url);
      GatherStep(missing, unprefixed, remaining, url);
      if filePath !in existing {
        broken := broken + [url];
      }
      if LacksBasePath(url) {
        missing := missing + [url];
      }
      remaining := remaining - {url};
    }
    if |broken| > 0 {
      exitCode := 1;
      assert broken[0] in broken;
    } else if |missing| > 0 {
      exitCode := 1;
      assert missing[0] in missing;
    } else {
      exitCode := 0;
    }
  }

  /** `xs` lists, each once, the members of `wanted` no longer in `remaining`. */
  ghost predicate Gathered(xs: seq<string>, wanted: set<string>, remaining: set<string>) {
    NoDuplicates(xs) && forall u :: u in xs <==> u in wanted && u !in remaining
  }

  /** Taking `url` out of `remaining` and appending it exactly when it is
      wanted keeps the list gathered. */
  lemma GatherStep(xs: seq<string>, wanted: set<string>, remaining: set<string>, url: string)
    requires Gathered(xs, wanted, remaining) && url in remaining
    ensures Gathered(if url in wanted then xs + [url] else xs, wanted, remaining - {url})
  {
  }

  /** The whole test: collect the links of the output tree, check them, and
      pass exactly when every internal link of every scanned page carries the
      base path and resolves to an existing file. */
  method TestLinks(dist: string, existing: set<string>, tree: seq<Entry>) returns (exitCode: int)
    ensures exitCode == 0 || exitCode == 1
    ensures exitCode == 0 <==> forall u :: LinkedFromTree(tree, u) ==> StartsWith(u, BasePath) && Resolves(dist, existing, u)
  {
    var allLinks := CollectLinks([], tree);
    var broken, missing;
    broken, missing, exitCode := CheckLinks(dist, existing, allLinks);
    forall u
      ensures u in allLinks <==> LinkedFromTree(tree, u)
      ensures u in allLinks ==> (LacksBasePath(u) <==> !StartsWith(u, BasePath))
    {
      LinkMapKeysOfTree(tree, u);
      if u in allLinks {
        LinkMapKeys([], tree, u);
        var q, c :| (q, c) in Pages([], tree) && u in InternalLinks(c);
        InternalLinksElements(c);
      }
    }
  }

  /** Some internal link of some scanned page of the tree is `u`. */
  ghost predicate LinkedFromTree(tree: seq<Entry>, u: string) {
    exists p, c :: ScannedPage(p) && FileAt(tree, p, c) && u in InternalLinks(c)
  }

  /** The keys of the whole link map are the internal links of the scanned
      pages. */
  lemma LinkMapKeysOfTree(tree: seq<Entry>, u: string)
    ensures u in LinkMapOf([], tree) <==> LinkedFromTree(tree, u)
  {
    LinkMapKeys([], tree, u);
    if u in LinkMapOf([], tree) {
      var q, c :| (q, c) in Pages([], tree) && u in InternalLinks(c);
      PagesAreScannedFiles([], tree, q, c);
      assert [] + q == q;
    }
    if LinkedFromTree(tree, u) {
      var p, c :| ScannedPage(p) && FileAt(tree, p, c) && u in InternalLinks(c);
      PagesAreScannedFiles([], tree, p, c);
      assert [] + p == p;
    }
  }
}
