/** The link fixer run after a site build: it prefixes the site's base path
    onto internal `href` values of the built HTML pages that lack it. */
module FixLinks {
  import opened TextUtil
  import opened FileTree
  import opened Site
  import LinkChecker

  // ---------------------------------------------------------------------
  // The internal-link pattern, as written
  // ---------------------------------------------------------------------

  /** The negative lookahead `(?!opencode-warcraft-notifications(?:\/|"|$))`
      at `k`: true when it refuses, that is when the base name stands at `k`
      followed by `/`, `"` or the end of the text. */
  predicate BaseAhead(s: string, k: nat) {
    NameAhead(s, k, BaseName)
  }

  /** `(?!name(?:\/|"|$))` refuses at `k`. */
  predicate NameAhead(s: string, k: nat, name: string) {
    var e := k + |name|;
    OccursAt(s, k, name) && (e == |s| || s[e] == '/' || s[e] == '"')
  }

  /** A match of the internal-link pattern at `q`, as the index of its
      closing quote: `href="/`, the lookahead, then either the closing quote
      at once (the value `/`), or a character other than `"`, `#` and white
      space and the shortest run up to the next quote. */
  function LinkMatchAt(s: string, q: nat): (close: Option<nat>)
    ensures close.Some? ==> OccursAt(s, q, "href=\"/") && q + 7 <= close.value < |s| && s[close.value] == '"'
  {
    if OccursAt(s, q, "href=\"/") && !BaseAhead(s, q + 7) && q + 7 < |s|
       && s[q + 7] != '#' && !IsJsWhitespace(s[q + 7]) && QuoteFrom(s, q + 7) < |s|
    then Some(QuoteFrom(s, q + 7))
    else None
  }

  /** The outcome of a search: nothing found, or a match given by where it
      starts and where its closing quote is. */
  datatype Found = NotFound | Found(start: nat, close: nat)

  /** The leftmost match at or after `from`: its start and closing quote. */
  function NextLink(s: string, from: nat): (r: Found)
    requires from <= |s|
    decreases |s| - from
    ensures r.Found? ==> from <= r.start && LinkMatchAt(s, r.start) == Some(r.close)
  {
    if from == |s| then NotFound
    else match LinkMatchAt(s, from)
      case Some(close) => Found(from, close)
      case None => NextLink(s, from + 1)
  }

  /** The replacement's search finds the leftmost match: nothing matches
      between `from` and the match it reports, and nothing matches from `from`
      on when it reports none. */
  lemma NextLinkLeftmost(s: string, from: nat)
    requires from <= |s|
    ensures NextLink(s, from).NotFound? ==> forall p :: from <= p < |s| ==> LinkMatchAt(s, p).None?
    ensures NextLink(s, from).Found? ==> forall p :: from <= p < NextLink(s, from).start ==> LinkMatchAt(s, p).None?
  {
    forall p | from <= p < |s| && (NextLink(s, from).NotFound? || p < NextLink(s, from).start)
      ensures LinkMatchAt(s, p).None?
    {
      NextLinkBefore(s, from, p);
    }
  }

  /** The same at one position. */
  lemma {:induction false} NextLinkBefore(s: string, from: nat, p: nat)
    requires from <= p < |s| && (NextLink(s, from).NotFound? || p < NextLink(s, from).start)
    ensures LinkMatchAt(s, p).None?
    decreases p - from
  {
    if from < p {
      var next := from + 1;
      assert NextLink(s, from) == NextLink(s, next);
      NextLinkBefore(s, next, p);
    }
  }

  /** The search passes over positions where nothing matches. */
  lemma {:induction false} NextLinkSkips(s: string, from: nat, q: nat)
    requires from <= q <= |s|
    requires forall p :: from <= p < q ==> LinkMatchAt(s, p).None?
    ensures NextLink(s, from) == NextLink(s, q)
    decreases q - from
  {
    if from < q {
      NextLinkSkips(s, from + 1, q);
    }
  }

  /** The replacement callback: the text put in place of the match and
      whether it sets `modified`. */
  function Callback(path: string): (string, bool) {
    if StartsWith(path, "http://") || StartsWith(path, "https://") || StartsWith(path, "//") || StartsWith(path, "../") then
      ("href=\"" + path + "\"", false)
    else if path == BasePath then
      ("href=\"" + BasePath + "/\"", false)
    else
      ("href=\"" + BasePath + path + "\"", true)
  }

  /** `content.replace(INTERNAL_LINK_PATTERN, callback)` from `from` on: the
      text between matches is kept, each match is replaced by the callback's
      text, and the search resumes after the match. */
  function FixFrom(s: string, from: nat): string
    requires from <= |s|
    decreases |s| - from
  {
    var m := NextLink(s, from);
    if m.NotFound? then s[from..]
    else Spliced(s, from, m.start, m.close)
  }

  /** One step of the replacement: the text before the match at `q`, the
      callback's text in place of the match, then the rest of the pass. */
  function Spliced(s: string, from: nat, q: nat, close: nat): string
    requires from <= q && q + 6 <= close < |s|
    decreases |s| - from, 0
  {
    s[from..q] + Callback(s[q + 6..close]).0 + FixFrom(s, close + 1)
  }

  /** How many times the callback sets `modified` from `from` on. */
  function Rewrites(s: string, from: nat): nat
    requires from <= |s|
    decreases |s| - from
  {
    var m := NextLink(s, from);
    if m.NotFound? then 0
    else RewritesAt(s, m.start, m.close)
  }

  /** The count from the match at `q` on: one if the callback sets
      `modified` there, plus the count after the match. */
  function RewritesAt(s: string, q: nat, close: nat): nat
    requires q + 6 <= close < |s|
    decreases |s| - q, 0
  {
    (if Callback(s[q + 6..close]).1 then 1 else 0) + Rewrites(s, close + 1)
  }

  function Fixed(content: string): string {
    FixFrom(content, 0)
  }

  /** The branch for a value equal to the base path can never run: the
      lookahead has already refused it. */
  lemma BaseBranchDead(s: string, q: nat)
    requires LinkMatchAt(s, q).Some?
    ensures s[q + 6..LinkMatchAt(s, q).value] != BasePath
  {
    BasePathShape();
  }

  /** On a match, the callback either rewrites the value behind the base
      path or gives back the match itself. */
  lemma CallbackOnMatch(s: string, q: nat)
    requires LinkMatchAt(s, q).Some?
    ensures var close := LinkMatchAt(s, q).value;
      var path := s[q + 6..close];
      Callback(path).0 == if Callback(path).1 then "href=\"" + BasePath + path + "\"" else s[q..close + 1]
  {
    var close := LinkMatchAt(s, q).value;
    var path := s[q + 6..close];
    BaseBranchDead(s, q);
    assert s[q..q + 7] == "href=\"/";
    assert s[q + 6] == s[q..q + 7][6] == '/';
    assert path[0] == '/';
    StartsWithHead(path, "http://");
    StartsWithHead(path, "https://");
    StartsWithHead(path, "../");
    assert s[q..q + 6] == s[q..q + 7][..6] == "href=\"";
    assert s[q..close + 1] == s[q..q + 6] + path + [s[close]];
  }

  /** A rewrite lengthens the match by the base path; otherwise the match is
      kept. */
  lemma CallbackLength(s: string, q: nat)
    requires LinkMatchAt(s, q).Some?
    ensures var close := LinkMatchAt(s, q).value;
      var result := Callback(s[q + 6..close]);
      |result.0| == close + 1 - q + (if result.1 then |BasePath| else 0)
  {
    CallbackOnMatch(s, q);
  }

  lemma StartsWithHead(s: string, prefix: string)
    requires prefix != []
    ensures StartsWith(s, prefix) ==> s[0] == prefix[0]
  {
    if StartsWith(s, prefix) {
      assert s[0] == s[..|prefix|][0];
    }
  }

  /** Every rewrite lengthens the text by the base path, and nothing else
      changes its length. */
  lemma {:induction false} FixFromLength(s: string, from: nat)
    requires from <= |s|
    ensures |FixFrom(s, from)| == |s| - from + |BasePath| * Rewrites(s, from)
    decreases |s| - from
  {
    match NextLink(s, from)
    case NotFound =>
    case Found(q, close) =>
      FixFromLength(s, close + 1);
      LengthStep(s, from, q, close);
  }

  /** One match adds the base path to the length exactly when it counts as
      a rewrite. */
  lemma LengthStep(s: string, from: nat, q: nat, close: nat)
    requires from <= |s| && NextLink(s, from) == Found(q, close)
    requires |FixFrom(s, close + 1)| == |s| - (close + 1) + |BasePath| * Rewrites(s, close + 1)
    ensures |FixFrom(s, from)| == |s| - from + |BasePath| * Rewrites(s, from)
  {
    var cb := Callback(s[q + 6..close]);
    FixStep(s, from, q, close);
    CallbackLength(s, q);
    BasePathShape();
    var n := if cb.1 then 1 else 0;
    var rest := Rewrites(s, close + 1);
    assert |FixFrom(s, from)| == (q - from) + |cb.0| + |FixFrom(s, close + 1)|;
    assert Rewrites(s, from) == n + rest;
    assert 32 * (n + rest) == 32 * n + 32 * rest;
  }

  /** Without a rewrite the replacement gives back the text it was given. */
  lemma {:induction false} FixFromUnchanged(s: string, from: nat)
    requires from <= |s| && Rewrites(s, from) == 0
    ensures FixFrom(s, from) == s[from..]
    decreases |s| - from
  {
    match NextLink(s, from)
    case NotFound =>
    case Found(q, close) =>
      FixStep(s, from, q, close);
      FixFromUnchanged(s, close + 1);
      UnchangedStep(s, from, q, close);
  }

  /** A match that is not rewritten is given back as it stands. */
  lemma UnchangedStep(s: string, from: nat, q: nat, close: nat)
    requires from <= |s| && NextLink(s, from) == Found(q, close) && Rewrites(s, from) == 0
    requires FixFrom(s, close + 1) == s[close + 1..]
    ensures FixFrom(s, from) == s[from..]
  {
    var kept := KeptMatch(s, from, q, close);
    SlicesJoin(s, from, q, close + 1);
  }

  lemma KeptMatch(s: string, from: nat, q: nat, close: nat) returns (kept: string)
    requires from <= |s| && NextLink(s, from) == Found(q, close) && Rewrites(s, from) == 0
    ensures q + 6 <= close < |s| && kept == s[q..close + 1]
    ensures FixFrom(s, from) == s[from..q] + kept + FixFrom(s, close + 1)
  {
    kept := Callback(s[q + 6..close]).0;
    FixStep(s, from, q, close);
    CallbackOnMatch(s, q);
  }

  /** One replacement step of the scan, unfolded: the two definitions at a
      match, for the proofs above and below. */
  lemma FixStep(s: string, from: nat, q: nat, close: nat)
    requires from <= |s| && NextLink(s, from) == Found(q, close)
    ensures FixFrom(s, from) == s[from..q] + Callback(s[q + 6..close]).0 + FixFrom(s, close + 1)
    ensures Rewrites(s, from) == (if Callback(s[q + 6..close]).1 then 1 else 0) + Rewrites(s, close + 1)
  {
    FixFromStep(s, from, q, close);
    RewritesStep(s, from, q, close);
  }

  /** The text half of `FixStep`, kept apart so that its unfolding does not
      meet the other one. */
  lemma FixFromStep(s: string, from: nat, q: nat, close: nat)
    requires from <= |s| && NextLink(s, from) == Found(q, close)
    ensures FixFrom(s, from) == s[from..q] + Callback(s[q + 6..close]).0 + FixFrom(s, close + 1)
  {
    FixFromSplices(s, from, q, close);
    SplicedParts(s, from, q, close);
  }

  /** The count half of `FixStep`. */
  lemma RewritesStep(s: string, from: nat, q: nat, close: nat)
    requires from <= |s| && NextLink(s, from) == Found(q, close)
    ensures Rewrites(s, from) == (if Callback(s[q + 6..close]).1 then 1 else 0) + Rewrites(s, close + 1)
  {
    assert Rewrites(s, from) == RewritesAt(s, q, close);
  }

  lemma FixFromSplices(s: string, from: nat, q: nat, close: nat)
    requires from <= |s| && NextLink(s, from) == Found(q, close)
    ensures q + 6 <= close < |s| && FixFrom(s, from) == Spliced(s, from, q, close)
  {
  }

  lemma SplicedParts(s: string, from: nat, q: nat, close: nat)
    requires from <= q && q + 6 <= close < |s|
    ensures Spliced(s, from, q, close) == s[from..q] + Callback(s[q + 6..close]).0 + FixFrom(s, close + 1)
  {
  }

  lemma SlicesJoin(s: string, i: nat, j: nat, k: nat)
    requires i <= j <= k <= |s|
    ensures s[i..] == s[i..j] + s[j..k] + s[k..]
  {
  }

  /** The text changes exactly when the callback set `modified`. */
  lemma ChangedIffRewritten(content: string)
    ensures Fixed(content) != content <==> Rewrites(content, 0) > 0
  {
    FixFromLength(content, 0);
    BasePathShape();
    if Rewrites(content, 0) == 0 {
      FixFromUnchanged(content, 0);
    }
  }

  /** `fixLinksInFile`: the file's text after one pass of the replacement,
      written back only when the callback set `modified`; the method reports
      whether it wrote. */
  method FixLinksInFile(content: string) returns (wasFixed: bool, newContent: string)
    ensures wasFixed <==> Rewrites(content, 0) > 0
    ensures wasFixed <==> newContent != content
    ensures newContent == Fixed(content)
  {
    var replaced := Fixed(content);
    var modified := Rewrites(content, 0) > 0;
    ChangedIffRewritten(content);
    if modified {
      newContent := replaced;
    } else {
      newContent := content;
    }
    wasFixed := modified;
  }

  // ---------------------------------------------------------------------
  // What happens to one href value
  // ---------------------------------------------------------------------

  /** The values the pattern accepts inside a quoted attribute: a leading
      slash, not the base path nor anything under it, and after the slash
      either nothing or a character other than `#` and white space. */
  predicate Accepts(v: string) {
    && StartsWith(v, "/")
    && !(v == BasePath || StartsWith(v, BasePath + "/"))
    && (|v| == 1 || (v[1] != '#' && !IsJsWhitespace(v[1])))
  }

  /** The values that get the base path: accepted, and not protocol-relative. */
  predicate NeedsBase(v: string) {
    Accepts(v) && !StartsWith(v, "//")
  }

  function FixValue(v: string): string {
    if NeedsBase(v) then BasePath + v else v
  }

  /** A fixed value is never fixed again. */
  lemma FixValueIdempotent(v: string)
    ensures !NeedsBase(FixValue(v))
    ensures FixValue(FixValue(v)) == FixValue(v)
  {
    if NeedsBase(v) {
      assert (BasePath + v)[..|BasePath| + 1] == BasePath + "/";
    }
  }

  /** A quoted value followed by text with no further `href="`: the value
      is fixed by the per-value rule and the rest is kept. When the pattern
      refuses the value, the rest must also hold no quote, or a match could
      start inside the value. */
  lemma FixAttribute(v: string, rest: string)
    requires '"' !in v
    requires forall p: nat :: !OccursAt(rest, p, "href=\"")
    requires Accepts(v) || '"' !in rest
    ensures Fixed("href=\"" + v + "\"" + rest) == "href=\"" + FixValue(v) + "\"" + rest
    ensures Rewrites("href=\"" + v + "\"" + rest, 0) == if NeedsBase(v) then 1 else 0
  {
    var s := "href=\"" + v + "\"" + rest;
    var close := |v| + 6;
    assert s[close + 1..] == rest;
    NoLinkAfter(s, close + 1);
    QuotedValueMatch(s, v, rest);
    if Accepts(v) {
      FixAcceptedAttribute(s, v, rest);
    } else {
      NoMatchInsideQuotes(s, v, rest);
      NextLinkSkips(s, 0, close + 1);
    }
  }

  lemma FixAcceptedAttribute(s: string, v: string, rest: string)
    requires s == "href=\"" + v + "\"" + rest && '"' !in v && Accepts(v)
    requires LinkMatchAt(s, 0) == Some(|v| + 6)
    requires FixFrom(s, |v| + 7) == rest && Rewrites(s, |v| + 7) == 0
    ensures Fixed(s) == "href=\"" + FixValue(v) + "\"" + rest
    ensures Rewrites(s, 0) == if NeedsBase(v) then 1 else 0
  {
    var close := |v| + 6;
    assert NextLink(s, 0) == Found(0, close);
    assert s[6..close] == v;
    CallbackOnAccepted(v);
    FirstMatchFixed(s, close, "href=\"" + FixValue(v) + "\"", rest);
  }

  /** A text whose first match starts it: the callback's text, then the
      replacement of what follows the match. */
  lemma FirstMatchFixed(s: string, close: nat, piece: string, rest: string)
    requires NextLink(s, 0) == Found(0, close)
    requires Callback(s[6..close]).0 == piece && FixFrom(s, close + 1) == rest
    ensures Fixed(s) == piece + rest
    ensures Rewrites(s, 0) == (if Callback(s[6..close]).1 then 1 else 0) + Rewrites(s, close + 1)
  {
    FixStep(s, 0, 0, close);
    EmptyHead(s[0..0], piece, rest);
  }

  lemma EmptyHead(e: string, a: string, b: string)
    requires e == []
    ensures e + a + b == a + b
  {
  }

  /** On an accepted value the callback gives the per-value rule's result. */
  lemma CallbackOnAccepted(v: string)
    requires Accepts(v)
    ensures Callback(v) == ("href=\"" + FixValue(v) + "\"", NeedsBase(v))
  {
    assert v[0] == '/';
    StartsWithHead(v, "http://");
    StartsWithHead(v, "https://");
    StartsWithHead(v, "../");
    assert "href=\"" + BasePath + v == "href=\"" + (BasePath + v);
  }

  /** Text that holds no `href="` yields no match and is kept. */
  lemma NoLinkAfter(s: string, from: nat)
    requires from <= |s|
    requires forall p: nat :: !OccursAt(s[from..], p, "href=\"")
    ensures NextLink(s, from) == NotFound
    ensures FixFrom(s, from) == s[from..] && Rewrites(s, from) == 0
  {
    NoLinkStartsAfter(s, from);
    NextLinkSkips(s, from, |s|);
  }

  lemma NoLinkStartsAfter(s: string, from: nat)
    requires from <= |s|
    requires forall p: nat :: !OccursAt(s[from..], p, "href=\"")
    ensures forall p :: from <= p < |s| ==> LinkMatchAt(s, p).None?
  {
    var t := s[from..];
    forall p | from <= p < |s| ensures !OccursAt(s, p, "href=\"/") {
      var k: nat := p - from;
      assert !OccursAt(t, k, "href=\"");
      if p + 7 <= |s| {
        assert t[k..k + 6] == s[p..p + 7][..6];
      }
    }
  }

  /** The pattern matches a quoted value at its `href="` exactly when it
      accepts the value, and then the match ends at the value's closing
      quote. */
  lemma QuotedValueMatch(s: string, v: string, rest: string)
    requires s == "href=\"" + v + "\"" + rest && '"' !in v
    ensures LinkMatchAt(s, 0) == if Accepts(v) then Some(|v| + 6) else None
  {
    var close := |v| + 6;
    assert s[6..close] == v && s[close] == '"';
    if StartsWith(v, "/") {
      assert OccursAt(s, 0, "href=\"/");
      BaseAheadInQuotes(s, v, rest);
      if |v| == 1 {
        assert s[7] == '"';
      } else {
        assert s[7] == v[1];
      }
      assert QuoteFrom(s, 7) == close by {
        assert forall i :: 7 <= i < close ==> s[i] == v[i - 6];
      }
    } else {
      assert !OccursAt(s, 0, "href=\"/") by {
        if |v| > 0 { assert s[6] == v[0]; } else { assert s[6] == '"'; }
      }
    }
  }

  /** Inside quotes, the lookahead refuses exactly the base path and the
      paths under it. */
  lemma BaseAheadInQuotes(s: string, v: string, rest: string)
    requires s == "href=\"" + v + "\"" + rest && '"' !in v && StartsWith(v, "/")
    ensures BaseAhead(s, 7) <==> v == BasePath || StartsWith(v, BasePath + "/")
  {
    BasePathShape();
    assert '"' !in BaseName by {
      forall i | 0 <= i < |BaseName| ensures BaseName[i] != '"' {
        assert BaseName[i] == BasePath[i + 1];
      }
    }
    NameAheadInQuotes(s, v, rest, BaseName);
  }

  /** The lookahead for any quote-free name, inside a quoted value: it
      refuses exactly the slash-prefixed name and the paths under it. */
  lemma NameAheadInQuotes(s: string, v: string, rest: string, name: string)
    requires s == "href=\"" + v + "\"" + rest && '"' !in v && StartsWith(v, "/") && '"' !in name
    ensures NameAhead(s, 7, name) <==> v == "/" + name || StartsWith(v, "/" + name + "/")
  {
    var close, n := |v| + 6, |name|;
    assert s[6..close] == v && s[close] == '"';
    forall i | 6 <= i < close ensures s[i] != '"' {
      assert s[i] == v[i - 6];
    }
    assert v[0] == '/' by {
      assert v[..1][0] == v[0];
    }
    if NameAhead(s, 7, name) {
      forall i | 7 <= i < 7 + n ensures s[i] != '"' {
        assert s[i] == s[7..7 + n][i - 7];
      }
      assert 7 + n <= close;
      assert v[..1 + n] == "/" + name by {
        assert v[1..1 + n] == s[7..7 + n];
        assert v[..1 + n] == [v[0]] + v[1..1 + n];
      }
      if 7 + n < close {
        assert v[1 + n] == s[7 + n] == '/';
        assert v[..2 + n] == v[..1 + n] + [v[1 + n]];
      } else {
        assert v == v[..1 + n];
      }
    }
    if v == "/" + name || StartsWith(v, "/" + name + "/") {
      assert v[..1 + n] == "/" + name by {
        if v != "/" + name {
          assert v[..1 + n] == v[..2 + n][..1 + n];
        }
      }
      assert s[7..7 + n] == v[1..1 + n] == ("/" + name)[1..] == name;
      if |v| > 1 + n {
        assert v[1 + n] == v[..2 + n][1 + n] == '/';
        assert s[7 + n] == v[1 + n];
      } else {
        assert s[7 + n] == '"';
      }
    }
  }

  /** With no quote after the value, the only quotes are the two around it,
      so no match can start after the first `href="`. */
  lemma NoMatchInsideQuotes(s: string, v: string, rest: string)
    requires s == "href=\"" + v + "\"" + rest && '"' !in v && '"' !in rest
    ensures forall p :: 0 < p <= |v| + 6 ==> LinkMatchAt(s, p).None?
  {
    var close := |v| + 6;
    assert s[6..close] == v && s[close + 1..] == rest;
    forall i | 6 <= i < close ensures s[i] != '"' {
      assert s[i] == s[6..close][i - 6];
    }
    forall i | close < i < |s| ensures s[i] != '"' {
      assert s[i] == s[close + 1..][i - close - 1];
    }
    forall p | 0 < p <= close ensures LinkMatchAt(s, p).None? {
      if p + 5 < close && p + 7 <= |s| {
        assert s[p..p + 7][5] == s[p + 5];
      }
    }
  }

  /** `href="/"` becomes `href="/opencode-warcraft-notifications/"`. */
  lemma RootLinkFixed()
    ensures Fixed("href=\"/\"") == "href=\"" + BasePath + "/\""
  {
    FixAttribute("/", "");
  }

  /** `href="/#top"` is kept as it is: the pattern refuses a `#` right after
      the slash. The link checker, which only asks for the base path or a
      leading `#`, still counts this link as missing the base path. */
  lemma RootAnchorKept()
    ensures Fixed("href=\"/#top\"") == "href=\"/#top\""
    ensures Rewrites("href=\"/#top\"", 0) == 0
    ensures LinkChecker.LacksBasePath("/#top")
  {
    var v := "/#top";
    assert !NeedsBase(v) && '"' !in v by {
      assert v[1] == '#';
    }
    FixAttribute(v, "");
    assert "href=\"" + v + "\"" + "" == "href=\"/#top\"";
    assert LinkChecker.LacksBasePath(v) by {
      assert v[0] == '/';
    }
  }

  // ---------------------------------------------------------------------
  // A second pass changes a fixed page
  // ---------------------------------------------------------------------

  /** The replacement is not idempotent: the pattern's `[^"]*` does not stop
      at a nested `href="`, so in `href="/xhref="/y"` the first pass prefixes
      the value `/xhref=` and skips the rest, while the second pass, refused
      at the now prefixed start, finds the inner `href="/y"` and prefixes it
      too. */
  lemma FixedNotIdempotent()
    ensures var s := "href=\"/xhref=\"/y\"";
      Fixed(Fixed(s)) != Fixed(s)
  {
    var s2 := "href=\"" + BasePath + "/xhref=\"/y\"";
    FirstPass();
    SecondPassRewrites(s2);
    ChangedIffRewritten(s2);
  }

  /** The first pass prefixes the value `/xhref=` and keeps the rest. */
  lemma FirstPass()
    ensures Fixed("href=\"/xhref=\"/y\"") == "href=\"" + BasePath + "/xhref=\"/y\""
  {
    var v, rest := "/xhref=", "/y\"";
    assert "href=\"/xhref=\"/y\"" == "href=\"" + v + "\"" + rest;
    ExampleNeedsBase();
    FixAttribute(v, rest);
    assert "href=\"" + (BasePath + v) + "\"" + rest == "href=\"" + BasePath + "/xhref=\"/y\"";
  }

  lemma ExampleNeedsBase()
    ensures NeedsBase("/xhref=")
  {
    BasePathShape();
    assert "/xhref="[1] == 'x';
    assert "/xhref="[..1] == "/";
  }

  lemma SecondPassRewrites(s: string)
    requires s == "href=\"" + BasePath + "/xhref=\"/y\""
    ensures Rewrites(s, 0) > 0
  {
    SecondPassSkips(s);
    NextLinkSkips(s, 0, 40);
    SecondPassMatch(s);
    assert NextLink(s, 0) == Found(40, 48);
    assert "/y"[..2] != "//" by {
      assert "/y"[..2][1] == 'y';
    }
    assert Callback(s[46..48]).1;
  }

  /** Before the inner `href="`, nothing matches: the outer one is refused
      by the lookahead and no other `h` occurs. */
  lemma SecondPassSkips(s: string)
    requires s == "href=\"" + BasePath + "/xhref=\"/y\""
    ensures forall p :: 0 <= p < 40 ==> LinkMatchAt(s, p).None?
  {
    SecondPassRefusedAtStart(s);
    SecondPassNoH(s);
    NoMatchWithoutH(s, 40);
  }

  /** The outer `href="` is refused: the base name follows its slash. */
  lemma SecondPassRefusedAtStart(s: string)
    requires s == "href=\"" + BasePath + "/xhref=\"/y\""
    ensures LinkMatchAt(s, 0).None?
  {
    assert s[7..38] == BaseName && s[38] == '/' by {
      BasePathShape();
      assert s[6..38] == BasePath;
    }
    assert BaseAhead(s, 7);
  }

  lemma SecondPassNoH(s: string)
    requires s == "href=\"" + BasePath + "/xhref=\"/y\""
    ensures forall p :: 0 < p < 40 ==> s[p] != 'h'
  {
    BasePathShape();
    NoHInBasePath();
    var a, c := "href=\"", "/xhref=\"/y\"";
    assert s == a + BasePath + c;
    forall p | 0 < p < 40 ensures s[p] != 'h' {
      if p < 6 {
        assert s[p] == a[p];
      } else if p < 38 {
        assert s[p] == BasePath[p - 6];
      } else {
        assert s[p] == c[p - 38];
      }
    }
  }

  /** No match starts where no `h` stands. */
  lemma NoMatchWithoutH(s: string, k: nat)
    requires forall p :: 0 < p < k ==> p < |s| && s[p] != 'h'
    ensures forall p :: 0 < p < k ==> LinkMatchAt(s, p).None?
  {
    forall p | 0 < p < k ensures !OccursAt(s, p, "href=\"/") {
      if p + 7 <= |s| {
        assert s[p..p + 7][0] == s[p];
      }
    }
  }

  /** The inner `href="/y"` matches, with the value `/y`. */
  lemma SecondPassMatch(s: string)
    requires s == "href=\"" + BasePath + "/xhref=\"/y\""
    ensures LinkMatchAt(s, 40) == Some(48) && s[46..48] == "/y"
  {
    BasePathShape();
    assert s[40..47] == "href=\"/" && s[47] == 'y' && s[48] == '"';
    assert QuoteFrom(s, 47) == 48;
  }

  // ---------------------------------------------------------------------
  // The replacement as intended: one attribute at a time
  // ---------------------------------------------------------------------

  /** An `href` attribute at `q`: `href="`, a run without quotes and the
      closing quote, given by its index. Unlike the pattern as written, it
      matches every quoted value, so a refused value is still consumed. */
  function AttributeAt(s: string, q: nat): (close: Option<nat>)
    ensures close.Some? ==> OccursAt(s, q, "href=\"") && q + 6 <= close.value < |s| && s[close.value] == '"'
  {
    if OccursAt(s, q, "href=\"") && QuoteFrom(s, q + 6) < |s| then
      Some(QuoteFrom(s, q + 6))
    else
      None
  }

  /** The leftmost attribute at or after `from`. */
  function NextAttribute(s: string, from: nat): (r: Found)
    requires from <= |s|
    decreases |s| - from
    ensures r.Found? ==> from <= r.start && AttributeAt(s, r.start) == Some(r.close)
  {
    if from == |s| then NotFound
    else match AttributeAt(s, from)
      case Some(close) => Found(from, close)
      case None => NextAttribute(s, from + 1)
  }

  /** No attribute starts between `from` and the one found. */
  lemma {:induction false} NextAttributeFirst(s: string, from: nat, p: nat)
    requires from <= p <= |s| && NextAttribute(s, from).Found? && p < NextAttribute(s, from).start
    ensures AttributeAt(s, p).None?
    decreases p - from
  {
    if from < p {
      NextAttributeFirst(s, from + 1, p);
    }
  }

  lemma {:induction false} NextAttributeSkips(s: string, from: nat, q: nat)
    requires from <= q <= |s|
    requires forall p :: from <= p < q ==> AttributeAt(s, p).None?
    ensures NextAttribute(s, from) == NextAttribute(s, q)
    decreases q - from
  {
    if from < q {
      NextAttributeSkips(s, from + 1, q);
    }
  }

  /** Every `href` value rewritten by the per-value rule, the text between
      attributes kept. */
  function Aligned(s: string): string
    decreases |s|
  {
    var m := NextAttribute(s, 0);
    if m.NotFound? then s
    else AlignedAt(s, m.start, m.close)
  }

  /** The corrected pass on a text whose first attribute is at `q`. */
  function AlignedAt(s: string, q: nat, close: nat): string
    requires q + 6 <= close < |s|
    decreases |s|, 0
  {
    s[..q] + "href=\"" + FixValue(s[q + 6..close]) + "\"" + Aligned(s[close + 1..])
  }

  /** The intended property: a page once fixed is left alone by a second
      pass. */
  lemma {:induction false} AlignedIdempotent(s: string)
    ensures Aligned(Aligned(s)) == Aligned(s)
    decreases |s|
  {
    match NextAttribute(s, 0)
    case NotFound =>
      assert Aligned(s) == s;
    case Found(q, close) =>
      var fv := FixValue(s[q + 6..close]);
      var r := s[close + 1..];
      var t := Aligned(s);
      var c2 := q + 6 + |fv|;
      assert t == s[..q] + "href=\"" + fv + "\"" + Aligned(r) by {
        AlignedUnfold(s, q, close);
      }
      assert FixValue(fv) == fv && '"' !in fv by {
        FixValueIdempotent(s[q + 6..close]);
        FixedValueHasNoQuote(s, q, close);
      }
      assert NextAttribute(t, 0) == Found(q, c2) && t[q + 6..c2] == fv && t[c2 + 1..] == Aligned(r) by {
        FixedAttributeFirst(s, q, close, fv, Aligned(r), t);
      }
      assert Aligned(Aligned(r)) == Aligned(r) by {
        AlignedIdempotent(r);
      }
      AlignedKeeps(t, q, c2);
  }

  /** The pass on a text whose first attribute is known. */
  lemma AlignedUnfold(s: string, q: nat, close: nat)
    requires NextAttribute(s, 0) == Found(q, close)
    ensures Aligned(s) == s[..q] + "href=\"" + FixValue(s[q + 6..close]) + "\"" + Aligned(s[close + 1..])
  {
    assert Aligned(s) == AlignedAt(s, q, close);
  }

  /** A text is left alone when its first value is already fixed and the
      rest after it is left alone. */
  lemma AlignedKeeps(t: string, q: nat, close: nat)
    requires NextAttribute(t, 0) == Found(q, close)
    requires FixValue(t[q + 6..close]) == t[q + 6..close]
    requires Aligned(t[close + 1..]) == t[close + 1..]
    ensures Aligned(t) == t
  {
    AttributeSplit(t, q, close);
  }

  /** A text is its parts around an attribute put back together. */
  lemma AttributeSplit(t: string, q: nat, close: nat)
    requires AttributeAt(t, q) == Some(close)
    ensures t == t[..q] + "href=\"" + t[q + 6..close] + "\"" + t[close + 1..]
  {
    assert t[q..q + 6] == "href=\"" && [t[close]] == "\"";
    assert t == t[..q] + t[q..q + 6] + t[q + 6..close] + [t[close]] + t[close + 1..];
  }

  /** Fixing the first attribute keeps it the first attribute, with the
      fixed value, and leaves the text after it as it was. */
  lemma FixedAttributeFirst(s: string, q: nat, close: nat, fv: string, tail: string, t: string)
    requires NextAttribute(s, 0) == Found(q, close)
    requires '"' !in fv && t == s[..q] + "href=\"" + fv + "\"" + tail
    ensures var c2 := q + 6 + |fv|;
      && NextAttribute(t, 0) == Found(q, c2)
      && t[..q] == s[..q] && t[q + 6..c2] == fv && t[c2 + 1..] == tail
  {
    var c2 := q + 6 + |fv|;
    var a := s[..q];
    assert |a| == q;
    AttributeParts(a, fv, tail, t);
    AttributeAtIntro(t, q, c2);
    HrefPrefix(s, q, close);
    FirstAttributeKeepsPrefix(s, q, close, t, c2);
    FirstAttributeAt(t, q, c2);
  }

  /** An attribute with none before it is the first one. */
  lemma FirstAttributeAt(t: string, q: nat, c: nat)
    requires q <= |t| && AttributeAt(t, q) == Some(c)
    requires forall p :: 0 <= p < q ==> AttributeAt(t, p).None?
    ensures NextAttribute(t, 0) == Found(q, c)
  {
    NextAttributeSkips(t, 0, q);
    NextAttributeHere(t, q, c);
  }

  /** The value of an attribute holds no quote, and fixing it adds none. */
  lemma FixedValueHasNoQuote(s: string, q: nat, close: nat)
    requires AttributeAt(s, q) == Some(close)
    ensures '"' !in FixValue(s[q + 6..close])
  {
    var v := s[q + 6..close];
    forall i | 0 <= i < |v| ensures v[i] != '"' {
      assert v[i] == s[q + 6 + i];
    }
    FixValueHasNoQuote(v);
  }

  lemma FixValueHasNoQuote(v: string)
    requires '"' !in v
    ensures '"' !in FixValue(v)
  {
    BasePathShape();
  }

  lemma AttributeAtIntro(t: string, q: nat, c: nat)
    requires q + 6 <= c < |t| && t[q..q + 6] == "href=\"" && QuoteFrom(t, q + 6) == c
    ensures AttributeAt(t, q) == Some(c)
  {
  }

  lemma NextAttributeHere(t: string, q: nat, c: nat)
    requires q <= |t| && AttributeAt(t, q) == Some(c)
    ensures NextAttribute(t, q) == Found(q, c)
  {
  }

  /** The text up to an attribute's value is the text before it and `href="`. */
  lemma HrefPrefix(s: string, q: nat, close: nat)
    requires AttributeAt(s, q) == Some(close)
    ensures s[..q + 6] == s[..q] + "href=\""
  {
    assert s[q..q + 6] == "href=\"";
    assert s[..q + 6] == s[..q] + s[q..q + 6];
  }

  /** The parts of a text made of a prefix, an attribute with a value
      without quotes, and a tail. */
  lemma AttributeParts(a: string, v: string, tail: string, t: string)
    requires '"' !in v && t == a + "href=\"" + v + "\"" + tail
    ensures var q, c := |a|, |a| + 6 + |v|;
      && t[..q] == a && t[..q + 6] == a + "href=\"" && t[q..q + 6] == "href=\""
      && t[q + 6..c] == v && t[c] == '"' && t[c + 1..] == tail
      && QuoteFrom(t, q + 6) == c
  {
    var q, c := |a|, |a| + 6 + |v|;
    forall i | q + 6 <= i < c ensures t[i] != '"' {
      assert t[i] == v[i - q - 6];
    }
    QuoteFromAt(t, q + 6, c);
  }

  /** `QuoteFrom` finds a quote that no earlier quote precedes. */
  lemma {:induction false} QuoteFromAt(s: string, from: nat, c: nat)
    requires from <= c < |s| && s[c] == '"'
    requires forall i :: from <= i < c ==> s[i] != '"'
    ensures QuoteFrom(s, from) == c
    decreases c - from
  {
    if from < c {
      QuoteFromAt(s, from + 1, c);
    }
  }

  /** A text that keeps everything up to the first attribute's value and
      has a quote after it has no attribute before that one either. */
  lemma FirstAttributeKeepsPrefix(s: string, q: nat, close: nat, t: string, k: nat)
    requires NextAttribute(s, 0) == Found(q, close)
    requires q + 6 <= k < |t| && t[k] == '"' && t[..q + 6] == s[..q + 6]
    ensures forall p :: 0 <= p < q ==> AttributeAt(t, p).None?
  {
    forall p: nat | p < q ensures AttributeAt(t, p).None? {
      NextAttributeFirst(s, 0, p);
      assert QuoteFrom(s, p + 6) <= close;
      assert !OccursAt(s, p, "href=\"");
      assert t[p..p + 6] == t[..q + 6][p..p + 6] == s[..q + 6][p..p + 6] == s[p..p + 6];
    }
  }

  /** On one attribute followed by text without `href="`, the intended pass
      and the pass as written agree. */
  lemma AlignedAgreesOnOneAttribute(v: string, rest: string)
    requires '"' !in v
    requires forall p: nat :: !OccursAt(rest, p, "href=\"")
    requires Accepts(v) || '"' !in rest
    ensures Aligned("href=\"" + v + "\"" + rest) == Fixed("href=\"" + v + "\"" + rest)
  {
    var s := "href=\"" + v + "\"" + rest;
    var c: nat := |v| + 6;
    assert [] + "href=\"" + v + "\"" + rest == s;
    AttributeParts([], v, rest, s);
    assert NextAttribute(s, 0) == Found(0, c);
    calc {
      Aligned(s);
    == { AlignedUnfold(s, 0, c); }
      s[..0] + "href=\"" + FixValue(s[6..c]) + "\"" + Aligned(s[c + 1..]);
    == { assert s[..0] == [] && s[6..c] == v && s[c + 1..] == rest; NoAttributeIn(rest); }
      [] + "href=\"" + FixValue(v) + "\"" + rest;
    == { FixAttribute(v, rest); }
      Fixed(s);
    }
  }

  /** Text without `href="` is left as it is. */
  lemma NoAttributeIn(s: string)
    requires forall p: nat :: !OccursAt(s, p, "href=\"")
    ensures Aligned(s) == s
  {
    NextAttributeSkips(s, 0, |s|);
  }

  // ---------------------------------------------------------------------
  // Where the pass as written does what was intended
  // ---------------------------------------------------------------------

  /** No `href` value that the corrected pass visits ends with `href=`. Only
      such a value lets the pattern as written start a match inside it, at
      an `href="` whose quote is the value's closing one. */
  predicate NoValueEndsWithHref(s: string)
    decreases |s|
  {
    var m := NextAttribute(s, 0);
    m.NotFound? || NoValueEndsWithHrefAt(s, m.start, m.close)
  }

  /** The same, for a text whose first attribute is at `q`. */
  predicate NoValueEndsWithHrefAt(s: string, q: nat, close: nat)
    requires q + 6 <= close < |s|
    decreases |s|, 0
  {
    !EndsWith(s[q + 6..close], "href=") && NoValueEndsWithHref(s[close + 1..])
  }

  /** `QuoteFrom` only looks ahead: on a suffix it finds the same quote. */
  lemma {:induction false} QuoteFromShift(s: string, k: nat, p: nat)
    requires k + p <= |s|
    ensures QuoteFrom(s[k..], p) == QuoteFrom(s, k + p) - k
    decreases |s| - k - p
  {
    if k + p < |s| {
      assert s[k..][p] == s[k + p];
      if s[k + p] != '"' {
        QuoteFromShift(s, k, p + 1);
      }
    }
  }

  /** An attribute only looks ahead: a suffix holds the same attributes. */
  lemma AttributeShift(s: string, k: nat, p: nat)
    requires k + p <= |s|
    ensures AttributeAt(s[k..], p).Some? <==> AttributeAt(s, k + p).Some?
    ensures AttributeAt(s[k..], p).Some? ==> AttributeAt(s, k + p).value == k + AttributeAt(s[k..], p).value
  {
    if k + p + 6 <= |s| {
      assert s[k..][p..p + 6] == s[k + p..k + p + 6];
      QuoteFromShift(s, k, p + 6);
    }
  }

  /** The pattern only looks ahead: at `q` it matches as it does at the
      start of the text from `q` on. */
  lemma LinkMatchShift(s: string, q: nat)
    requires q <= |s|
    ensures LinkMatchAt(s, q).Some? <==> LinkMatchAt(s[q..], 0).Some?
    ensures LinkMatchAt(s, q).Some? ==> LinkMatchAt(s, q).value == q + LinkMatchAt(s[q..], 0).value
  {
    var t := s[q..];
    if q + 7 <= |s| {
      assert t[0..7] == s[q..q + 7];
      assert BaseAhead(s, q + 7) <==> BaseAhead(t, 7) by {
        var e := q + 7 + |BaseName|;
        if e <= |s| {
          assert t[7..7 + |BaseName|] == s[q + 7..e];
          if e < |s| {
            assert t[e - q] == s[e];
          }
        }
      }
      if q + 7 < |s| {
        assert t[7] == s[q + 7];
        QuoteFromShift(s, q, 7);
      }
    }
  }

  /** When the search finds no attribute, none is there. */
  lemma {:induction false} NextAttributeNone(s: string, from: nat)
    requires from <= |s| && NextAttribute(s, from).NotFound?
    ensures forall p :: from <= p < |s| ==> AttributeAt(s, p).None?
    decreases |s| - from
  {
    if from < |s| {
      NextAttributeNone(s, from + 1);
    }
  }

  /** When the corrected pass's search finds nothing in the text from
      `from` on, the whole text has no attribute from `from` on. */
  lemma NoAttributeInSuffix(s: string, from: nat)
    requires from <= |s| && NextAttribute(s[from..], 0).NotFound?
    ensures forall p :: from <= p < |s| ==> AttributeAt(s, p).None?
  {
    var t := s[from..];
    NextAttributeNone(t, 0);
    forall p | from <= p < |s| ensures AttributeAt(s, p).None? {
      var p' := p - from;
      assert AttributeAt(t, p').None?;
      AttributeShift(s, from, p');
    }
  }

  /** Every match of the pattern is an attribute, with the same closing
      quote. */
  lemma LinkIsAttribute(s: string, p: nat)
    ensures LinkMatchAt(s, p).Some? ==> AttributeAt(s, p) == LinkMatchAt(s, p)
  {
    if LinkMatchAt(s, p).Some? {
      assert s[p..p + 6] == s[p..p + 7][..6];
      assert s[p + 6] == s[p..p + 7][6];
    }
  }

  /** An attribute's text, from its `href="` to its closing quote. */
  lemma AttributeText(s: string, from: nat, q: nat, close: nat)
    requires from <= q && AttributeAt(s, q) == Some(close)
    ensures s[from..] == s[from..q] + "href=\"" + s[q + 6..close] + "\"" + s[close + 1..]
    ensures s[from..close + 1] == s[from..q] + "href=\"" + s[q + 6..close] + "\""
  {
    assert s[q..q + 6] == "href=\"" && s[close..close + 1] == "\"";
    assert s[from..close + 1] == s[from..q] + s[q..q + 6] + s[q + 6..close] + s[close..close + 1];
    assert s[from..] == s[from..close + 1] + s[close + 1..];
  }

  /** The pattern matches an attribute exactly when it accepts the value,
      and then at the attribute's closing quote. */
  lemma QuotedValueMatchAt(s: string, q: nat, close: nat)
    requires AttributeAt(s, q) == Some(close)
    ensures LinkMatchAt(s, q) == if Accepts(s[q + 6..close]) then Some(close) else None
  {
    var v, rest := s[q + 6..close], s[close + 1..];
    assert '"' !in v by {
      forall i | 0 <= i < |v| ensures v[i] != '"' {
        assert v[i] == s[q + 6 + i];
      }
    }
    AttributeText(s, q, q, close);
    assert s[q..] == "href=\"" + v + "\"" + rest by {
      assert s[q..q] == [];
    }
    QuotedValueMatch(s[q..], v, rest);
    LinkMatchShift(s, q);
  }

  /** Inside an attribute's value no match starts unless the value ends with
      `href=`: a match needs a quote five characters on, and the only quote
      within reach is the closing one. */
  lemma NoLinkInsideValue(s: string, q: nat, close: nat)
    requires AttributeAt(s, q) == Some(close) && !EndsWith(s[q + 6..close], "href=")
    ensures forall p :: q < p <= close ==> LinkMatchAt(s, p).None?
  {
    var c := QuoteFrom(s, q + 6);
    assert c == close;
    forall p | q < p <= close ensures !OccursAt(s, p, "href=\"/") {
      if p + 7 > |s| {
      } else if p < q + 6 {
        NoLinkInHrefPrefix(s, q, p);
      } else if p + 5 < close {
        NoLinkBeforeQuote(s, p);
      } else if p + 5 == close {
        NoLinkAtValueEnd(s, q, close);
      } else {
        NoLinkOverQuote(s, p, close);
      }
    }
  }

  /** No match starts inside an attribute's `href="`. */
  lemma NoLinkInHrefPrefix(s: string, q: nat, p: nat)
    requires OccursAt(s, q, "href=\"") && q < p < q + 6 && p + 7 <= |s|
    ensures s[p..p + 7] != "href=\"/"
  {
    assert s[p..p + 7][0] == s[p] == s[q..q + 6][p - q];
  }

  /** No match starts where the character five on is not a quote. */
  lemma NoLinkBeforeQuote(s: string, p: nat)
    requires p + 7 <= |s| && s[p + 5] != '"'
    ensures s[p..p + 7] != "href=\"/"
  {
    assert s[p..p + 7][5] == s[p + 5];
  }

  /** No match starts five characters before the closing quote of a value
      that does not end with `href=`. */
  lemma NoLinkAtValueEnd(s: string, q: nat, close: nat)
    requires q + 11 <= close && close + 2 <= |s| && !EndsWith(s[q + 6..close], "href=")
    ensures s[close - 5..close + 2] != "href=\"/"
  {
    var v := s[q + 6..close];
    assert s[close - 5..close + 2][..5] == s[close - 5..close] == v[|v| - 5..];
  }

  /** No match starts within the five characters before a quote. */
  lemma NoLinkOverQuote(s: string, p: nat, close: nat)
    requires p <= close < p + 5 && p + 7 <= |s| && s[close] == '"'
    ensures s[p..p + 7] != "href=\"/"
  {
    assert s[p..p + 7][close - p] == s[close];
  }

  /** Where nothing matches, the pass keeps the text as it is. */
  lemma FixFromSkips(s: string, from: nat, k: nat)
    requires from <= k <= |s| && forall p :: from <= p < k ==> LinkMatchAt(s, p).None?
    ensures FixFrom(s, from) == s[from..k] + FixFrom(s, k)
    ensures Rewrites(s, from) == Rewrites(s, k)
  {
    NextLinkSkips(s, from, k);
    match NextLink(s, k)
    case NotFound =>
      assert s[from..] == s[from..k] + s[k..];
    case Found(q, close) =>
      FixFromSplices(s, from, q, close);
      FixFromSplices(s, k, q, close);
      SplicedFrom(s, from, k, q, close);
      assert Rewrites(s, from) == RewritesAt(s, q, close);
      assert Rewrites(s, k) == RewritesAt(s, q, close);
  }

  lemma SplicedFrom(s: string, from: nat, k: nat, q: nat, close: nat)
    requires from <= k <= q && q + 6 <= close < |s|
    ensures Spliced(s, from, q, close) == s[from..k] + Spliced(s, k, q, close)
  {
    var x, y := Callback(s[q + 6..close]).0, FixFrom(s, close + 1);
    assert Spliced(s, from, q, close) == s[from..q] + x + y by {
      SplicedParts(s, from, q, close);
    }
    assert Spliced(s, k, q, close) == s[k..q] + x + y by {
      SplicedParts(s, k, q, close);
    }
    PrefixJoin(s, from, k, q, x, y);
  }

  lemma PrefixJoin(s: string, from: nat, k: nat, q: nat, x: string, y: string)
    requires from <= k <= q <= |s|
    ensures s[from..q] + x + y == s[from..k] + (s[k..q] + x + y)
  {
    assert s[from..q] == s[from..k] + s[k..q];
  }

  /** The pass as written, on an attribute with none before it and a value
      that does not end with `href=`: the text before it is kept, the value
      is fixed by the per-value rule, and the pass resumes after the closing
      quote. */
  lemma FixFromAttribute(s: string, from: nat, q: nat, close: nat)
    requires from <= q && AttributeAt(s, q) == Some(close)
    requires forall p :: from <= p < q ==> AttributeAt(s, p).None?
    requires !EndsWith(s[q + 6..close], "href=")
    ensures FixFrom(s, from) == s[from..q] + "href=\"" + FixValue(s[q + 6..close]) + "\"" + FixFrom(s, close + 1)
  {
    QuotedValueMatchAt(s, q, close);
    if Accepts(s[q + 6..close]) {
      NoLinkBeforeAttribute(s, from, q);
      FixAcceptedValue(s, from, q, close);
    } else {
      FixRefusedValue(s, from, q, close);
    }
  }

  /** The same, for a value the pattern refuses: the attribute is kept as
      it is, which is what the per-value rule gives such a value. */
  lemma FixRefusedValue(s: string, from: nat, q: nat, close: nat)
    requires from <= q && AttributeAt(s, q) == Some(close)
    requires forall p :: from <= p < q ==> AttributeAt(s, p).None?
    requires !EndsWith(s[q + 6..close], "href=") && LinkMatchAt(s, q).None?
    requires !Accepts(s[q + 6..close])
    ensures FixFrom(s, from) == s[from..q] + "href=\"" + FixValue(s[q + 6..close]) + "\"" + FixFrom(s, close + 1)
  {
    var next := close + 1;
    assert FixFrom(s, from) == s[from..next] + FixFrom(s, next) by {
      NoLinkThrough(s, from, q, close, next);
      FixFromSkips(s, from, next);
    }
    assert s[from..next] == s[from..q] + "href=\"" + s[q + 6..close] + "\"" by {
      AttributeText(s, from, q, close);
    }
  }

  /** On the same attribute, `modified` is set exactly when the value needs
      the base path. */
  lemma RewritesAttribute(s: string, from: nat, q: nat, close: nat)
    requires from <= q && AttributeAt(s, q) == Some(close)
    requires forall p :: from <= p < q ==> AttributeAt(s, p).None?
    requires !EndsWith(s[q + 6..close], "href=")
    ensures Rewrites(s, from) == (if NeedsBase(s[q + 6..close]) then 1 else 0) + Rewrites(s, close + 1)
  {
    QuotedValueMatchAt(s, q, close);
    if Accepts(s[q + 6..close]) {
      NoLinkBeforeAttribute(s, from, q);
      RewritesAcceptedValue(s, from, q, close);
    } else {
      RewritesRefusedValue(s, from, q, close);
    }
  }

  lemma RewritesRefusedValue(s: string, from: nat, q: nat, close: nat)
    requires from <= q && AttributeAt(s, q) == Some(close)
    requires forall p :: from <= p < q ==> AttributeAt(s, p).None?
    requires !EndsWith(s[q + 6..close], "href=") && LinkMatchAt(s, q).None?
    requires !Accepts(s[q + 6..close])
    ensures Rewrites(s, from) == (if NeedsBase(s[q + 6..close]) then 1 else 0) + Rewrites(s, close + 1)
  {
    var next := close + 1;
    NoLinkThrough(s, from, q, close, next);
    FixFromSkips(s, from, next);
  }

  /** Nothing matches from `from` through the closing quote of an attribute
      the pattern refuses, when no attribute comes before it. */
  lemma NoLinkThrough(s: string, from: nat, q: nat, close: nat, next: nat)
    requires from <= q && AttributeAt(s, q) == Some(close) && next == close + 1
    requires forall p :: from <= p < q ==> AttributeAt(s, p).None?
    requires !EndsWith(s[q + 6..close], "href=") && LinkMatchAt(s, q).None?
    ensures next <= |s| && forall p :: from <= p < next ==> LinkMatchAt(s, p).None?
  {
    NoLinkBeforeAttribute(s, from, q);
    NoLinkInsideValue(s, q, close);
  }

  lemma NoLinkBeforeAttribute(s: string, from: nat, q: nat)
    requires forall p :: from <= p < q ==> AttributeAt(s, p).None?
    ensures forall p :: from <= p < q ==> LinkMatchAt(s, p).None?
  {
    forall p | from <= p < q ensures LinkMatchAt(s, p).None? {
      LinkIsAttribute(s, p);
    }
  }

  lemma FixAcceptedValue(s: string, from: nat, q: nat, close: nat)
    requires from <= q && LinkMatchAt(s, q) == Some(close) && Accepts(s[q + 6..close])
    requires forall p :: from <= p < q ==> LinkMatchAt(s, p).None?
    ensures FixFrom(s, from) == s[from..q] + "href=\"" + FixValue(s[q + 6..close]) + "\"" + FixFrom(s, close + 1)
  {
    NextLinkSkips(s, from, q);
    assert NextLink(s, q) == Found(q, close);
    FixFromStep(s, from, q, close);
    CallbackOnAccepted(s[q + 6..close]);
  }

  lemma RewritesAcceptedValue(s: string, from: nat, q: nat, close: nat)
    requires from <= q && LinkMatchAt(s, q) == Some(close) && Accepts(s[q + 6..close])
    requires forall p :: from <= p < q ==> LinkMatchAt(s, p).None?
    ensures Rewrites(s, from) == (if NeedsBase(s[q + 6..close]) then 1 else 0) + Rewrites(s, close + 1)
  {
    NextLinkSkips(s, from, q);
    assert NextLink(s, q) == Found(q, close);
    RewritesStep(s, from, q, close);
    CallbackOnAccepted(s[q + 6..close]);
  }

  /** On a page where no value ends with `href=`, the pass as written is
      the intended one, from any position on. */
  lemma {:induction false} FixFromAligned(s: string, from: nat)
    requires from <= |s| && NoValueEndsWithHref(s[from..])
    ensures FixFrom(s, from) == Aligned(s[from..])
    decreases |s| - from
  {
    match NextAttribute(s[from..], 0)
    case NotFound =>
      FixFromAlignedEnd(s, from);
    case Found(q', c') =>
      var q, close := from + q', from + c';
      assert FixFrom(s, close + 1) == Aligned(s[close + 1..]) by {
        var next := AfterAttribute(s, from, q', c', q, close);
        FixFromAligned(s, next);
      }
      FixFromAlignedStep(s, from, q', c', q, close);
  }

  /** Where the corrected pass resumes after the first attribute from
      `from` on, and the condition there. */
  lemma AfterAttribute(s: string, from: nat, q': nat, c': nat, q: nat, close: nat) returns (next: nat)
    requires from <= |s| && NextAttribute(s[from..], 0) == Found(q', c')
    requires NoValueEndsWithHref(s[from..])
    requires q == from + q' && close == from + c'
    ensures next == close + 1 && from < next <= |s| && NoValueEndsWithHref(s[next..])
  {
    next := close + 1;
    AlignedTail(s, from, q', c', q, close);
  }

  /** One attribute's step of that: with the rest agreeing after its
      closing quote, both passes agree from `from` on. */
  lemma FixFromAlignedStep(s: string, from: nat, q': nat, c': nat, q: nat, close: nat)
    requires from <= |s| && NextAttribute(s[from..], 0) == Found(q', c')
    requires NoValueEndsWithHref(s[from..])
    requires q == from + q' && close == from + c' && close < |s|
    requires FixFrom(s, close + 1) == Aligned(s[close + 1..])
    ensures FixFrom(s, from) == Aligned(s[from..])
  {
    AlignedTail(s, from, q', c', q, close);
    FixFromAttribute(s, from, q, close);
    AlignedSuffixUnfold(s, from, q', c', q, close);
  }

  /** With no attribute left, both passes keep the rest of the text. */
  lemma FixFromAlignedEnd(s: string, from: nat)
    requires from <= |s| && NextAttribute(s[from..], 0).NotFound?
    ensures FixFrom(s, from) == Aligned(s[from..])
  {
    NoAttributeInSuffix(s, from);
    forall p | from <= p < |s| ensures LinkMatchAt(s, p).None? {
      LinkIsAttribute(s, p);
    }
    FixFromSkips(s, from, |s|);
  }

  /** The parts of the text from `from` on, around an attribute of it found
      at `q'` (`q` in the whole text) and closed at `c'` (`close`), are
      parts of the whole text. */
  lemma SuffixParts(s: string, from: nat, q': nat, c': nat, q: nat, close: nat)
    requires from <= |s| && q' + 6 <= c' < |s| - from
    requires q == from + q' && close == from + c'
    ensures s[from..][..q'] == s[from..q]
    ensures s[from..][q' + 6..c'] == s[q + 6..close]
    ensures s[from..][c' + 1..] == s[close + 1..]
  {
  }

  /** The first attribute from `from` on, in the whole text, and what the
      condition says of it and of the text after it. */
  lemma AlignedTail(s: string, from: nat, q': nat, c': nat, q: nat, close: nat)
    requires from <= |s| && NextAttribute(s[from..], 0) == Found(q', c')
    requires NoValueEndsWithHref(s[from..])
    requires q == from + q' && close == from + c'
    ensures from <= q && q + 6 <= close < |s| && AttributeAt(s, q) == Some(close)
    ensures forall p :: from <= p < q ==> AttributeAt(s, p).None?
    ensures !EndsWith(s[q + 6..close], "href=") && NoValueEndsWithHref(s[close + 1..])
  {
    SuffixAttribute(s, from, q', c', q, close);
    SuffixValue(s, from, q', c', q, close);
  }

  /** The first attribute from `from` on, in the whole text. */
  lemma SuffixAttribute(s: string, from: nat, q': nat, c': nat, q: nat, close: nat)
    requires from <= |s| && NextAttribute(s[from..], 0) == Found(q', c')
    requires q == from + q' && close == from + c'
    ensures from <= q && q + 6 <= close < |s| && AttributeAt(s, q) == Some(close)
    ensures forall p :: from <= p < q ==> AttributeAt(s, p).None?
  {
    var t := s[from..];
    assert AttributeAt(s, q) == Some(close) by {
      AttributeShift(s, from, q');
    }
    assert forall p :: from <= p < q ==> AttributeAt(s, p).None? by {
      forall p | from <= p < q ensures AttributeAt(s, p).None? {
        var p' := p - from;
        NextAttributeFirst(t, 0, p');
        AttributeShift(s, from, p');
      }
    }
  }

  /** What the condition says of that attribute's value and of the text
      after it. */
  lemma SuffixValue(s: string, from: nat, q': nat, c': nat, q: nat, close: nat)
    requires from <= |s| && NextAttribute(s[from..], 0) == Found(q', c')
    requires NoValueEndsWithHref(s[from..])
    requires q == from + q' && close == from + c'
    ensures q + 6 <= close < |s|
    ensures !EndsWith(s[q + 6..close], "href=") && NoValueEndsWithHref(s[close + 1..])
  {
    assert NoValueEndsWithHrefAt(s[from..], q', c');
    SuffixParts(s, from, q', c', q, close);
  }

  /** The corrected pass on the text from `from` on, with its first
      attribute seen in the whole text. */
  lemma AlignedSuffixUnfold(s: string, from: nat, q': nat, c': nat, q: nat, close: nat)
    requires from <= |s| && NextAttribute(s[from..], 0) == Found(q', c')
    requires q == from + q' && close == from + c'
    ensures close < |s| && q + 6 <= close
    ensures Aligned(s[from..]) == s[from..q] + "href=\"" + FixValue(s[q + 6..close]) + "\"" + Aligned(s[close + 1..])
  {
    SuffixParts(s, from, q', c', q, close);
    AlignedUnfold(s[from..], q', c');
  }

  /** On such a page the pass as written and the corrected pass agree. */
  lemma FixedIsAligned(s: string)
    requires NoValueEndsWithHref(s)
    ensures Fixed(s) == Aligned(s)
  {
    assert s[0..] == s;
    FixFromAligned(s, 0);
  }

  /** Fixing a value keeps it from ending with `href=` when it did not. */
  lemma FixValueEndsWithHref(v: string)
    ensures EndsWith(FixValue(v), "href=") <==> EndsWith(v, "href=")
  {
    if NeedsBase(v) {
      var f := BasePath + v;
      if |v| >= 5 {
        assert f[|f| - 5..] == v[|v| - 5..];
      } else {
        assert f[|f| - 5..][5 - |v|] == v[0] == v[..1][0];
      }
    }
  }

  /** The corrected pass keeps the values from ending with `href=`. */
  lemma {:induction false} AlignedKeepsNoValueEndsWithHref(s: string)
    requires NoValueEndsWithHref(s)
    ensures NoValueEndsWithHref(Aligned(s))
    decreases |s|
  {
    match NextAttribute(s, 0)
    case NotFound =>
      assert Aligned(s) == s;
    case Found(q, close) =>
      var r := s[close + 1..];
      assert NoValueEndsWithHref(r) by {
        assert NoValueEndsWithHrefAt(s, q, close);
      }
      assert NoValueEndsWithHref(Aligned(r)) by {
        AlignedKeepsNoValueEndsWithHref(r);
      }
      AlignedKeepsStep(s, q, close);
  }

  /** One attribute's step of that: the fixed value does not end with
      `href=` either, and the text after it keeps the condition. */
  lemma AlignedKeepsStep(s: string, q: nat, close: nat)
    requires NextAttribute(s, 0) == Found(q, close) && NoValueEndsWithHref(s)
    requires close < |s| && NoValueEndsWithHref(Aligned(s[close + 1..]))
    ensures NoValueEndsWithHref(Aligned(s))
  {
    var v := s[q + 6..close];
    var fv := FixValue(v);
    var tail := Aligned(s[close + 1..]);
    var t := Aligned(s);
    var c2 := q + 6 + |fv|;
    assert !EndsWith(v, "href=") by {
      assert NoValueEndsWithHrefAt(s, q, close);
    }
    assert t == s[..q] + "href=\"" + fv + "\"" + tail by {
      AlignedUnfold(s, q, close);
    }
    assert '"' !in fv && !EndsWith(fv, "href=") by {
      FixedValueHasNoQuote(s, q, close);
      FixValueEndsWithHref(v);
    }
    assert NextAttribute(t, 0) == Found(q, c2) && t[q + 6..c2] == fv && t[c2 + 1..] == tail by {
      FixedAttributeFirst(s, q, close, fv, tail, t);
    }
    NoValueEndsWithHrefFirst(t, q, c2, fv, tail);
  }

  /** The condition on a text whose first attribute's value does not end
      with `href=`, from the condition on the text after it. */
  lemma NoValueEndsWithHrefFirst(t: string, q: nat, c: nat, v: string, rest: string)
    requires NextAttribute(t, 0) == Found(q, c) && q + 6 <= c < |t|
    requires t[q + 6..c] == v && t[c + 1..] == rest
    requires !EndsWith(v, "href=") && NoValueEndsWithHref(rest)
    ensures NoValueEndsWithHref(t)
  {
    assert NoValueEndsWithHrefAt(t, q, c);
  }

  /** On a page where no value ends with `href=`, a second pass as written
      changes nothing and does not set `modified`. */
  lemma FixedIdempotent(s: string)
    requires NoValueEndsWithHref(s)
    ensures Fixed(Fixed(s)) == Fixed(s)
    ensures Rewrites(Fixed(s), 0) == 0
  {
    FixedIsAligned(s);
    AlignedKeepsNoValueEndsWithHref(s);
    FixedIsAligned(Aligned(s));
    AlignedIdempotent(s);
    ChangedIffRewritten(Fixed(s));
  }

  // ---------------------------------------------------------------------
  // The walk over the output directory
  // ---------------------------------------------------------------------

  /** What the walk leaves of one entry: a directory other than `_astro` and
      `pagefind` with its listing walked, an `.html` file whose pass set
      `modified` with the replaced text written back, anything else as it
      was. */
  function FixEntry(e: Entry): Entry
    decreases e
  {
    match e
    case Dir(n, children) => if IsSkippedBuildDir(n) then e else Dir(n, FixTree(children))
    case File(n, c) => if EndsWith(n, ".html") && Rewrites(c, 0) > 0 then File(n, Fixed(c)) else e
    case Special(_) => e
  }

  /** A listing after the walk, entry by entry. */
  function FixTree(es: seq<Entry>): (r: seq<Entry>)
    decreases es
    ensures |r| == |es|
  {
    if es == [] then [] else FixTree(es[..|es| - 1]) + [FixEntry(es[|es| - 1])]
  }

  /** How many files of one entry the walk writes back. */
  function EntryFixCount(e: Entry): nat
    decreases e
  {
    match e
    case Dir(n, children) => if IsSkippedBuildDir(n) then 0 else FixCount(children)
    case File(n, c) => if EndsWith(n, ".html") && Rewrites(c, 0) > 0 then 1 else 0
    case Special(_) => 0
  }

  function FixCount(es: seq<Entry>): nat
    decreases es
  {
    if es == [] then 0 else FixCount(es[..|es| - 1]) + EntryFixCount(es[|es| - 1])
  }

  /** `processDirectory`: walks a listing, recursing into every directory
      except `_astro` and `pagefind`, passes every `.html` file through
      `fixLinksInFile`, and counts the files written back. */
  method ProcessDirectory(entries: seq<Entry>) returns (fixedCount: nat, result: seq<Entry>)
    ensures fixedCount == FixCount(entries) && result == FixTree(entries)
    decreases entries
  {
    fixedCount, result := 0, [];
    for i := 0 to |entries|
      invariant fixedCount == FixCount(entries[..i]) && result == FixTree(entries[..i])
    {
      var entry := entries[i];
      var added, written := 0, entry;
      if entry.Dir? {
        if !IsSkippedBuildDir(entry.name) {
          var sub, children := ProcessDirectory(entry.entries);
          added, written := sub, Dir(entry.name, children);
        }
      } else if entry.File? && EndsWith(entry.name, ".html") {
        var wasFixed, newContent := FixLinksInFile(entry.content);
        if wasFixed {
          added, written := 1, File(entry.name, newContent);
        }
      }
      assert added == EntryFixCount(entry) && written == FixEntry(entry);
      WalkStep(entries, i);
      fixedCount, result := fixedCount + added, result + [written];
    }
    assert entries[..|entries|] == entries;
  }

  lemma WalkStep(es: seq<Entry>, i: nat)
    requires i < |es|
    ensures FixCount(es[..i + 1]) == FixCount(es[..i]) + EntryFixCount(es[i])
    ensures FixTree(es[..i + 1]) == FixTree(es[..i]) + [FixEntry(es[i])]
  {
    assert es[..i + 1][..i] == es[..i];
  }

  /** The walk reports no fixed file exactly when it leaves the listing as
      it was. */
  lemma {:induction false} FixCountZero(es: seq<Entry>)
    ensures FixCount(es) == 0 <==> FixTree(es) == es
    decreases es
  {
    if es != [] {
      var init, last := es[..|es| - 1], es[|es| - 1];
      FixCountZero(init);
      EntryFixCountZero(last);
      assert es == init + [last];
      if FixTree(es) == es {
        assert FixTree(es)[..|es| - 1] == FixTree(init);
      }
    }
  }

  lemma {:induction false} EntryFixCountZero(e: Entry)
    ensures EntryFixCount(e) == 0 <==> FixEntry(e) == e
    decreases e
  {
    match e
    case Dir(n, children) =>
      if !IsSkippedBuildDir(n) {
        FixCountZero(children);
      }
    case File(n, c) =>
      if EndsWith(n, ".html") && Rewrites(c, 0) > 0 {
        ChangedIffRewritten(c);
      }
    case Special(_) =>
  }

  /** A page after one pass: the same path, the replaced text. */
  function FixPage(p: LinkChecker.Page): LinkChecker.Page {
    (p.0, Fixed(p.1))
  }

  ghost function FixPages(P: set<LinkChecker.Page>): set<LinkChecker.Page> {
    set p | p in P :: FixPage(p)
  }

  /** The fixer and the checker walk the same pages: after the walk, the
      checker finds each page it found before at the same path, holding
      the text one pass of the replacement makes of it. */
  lemma {:induction false} FixTreePages(rel: seq<string>, es: seq<Entry>)
    ensures LinkChecker.Pages(rel, FixTree(es)) == FixPages(LinkChecker.Pages(rel, es))
    decreases es
  {
    if es == [] {
    } else {
      var init, last := es[..|es| - 1], es[|es| - 1];
      var t := FixTree(es);
      assert t[..|t| - 1] == FixTree(init) && t[|t| - 1] == FixEntry(last);
      FixTreePages(rel, init);
      EntryFixPages(rel, last);
      FixPagesUnion(LinkChecker.Pages(rel, init), LinkChecker.EntryPages(rel, last));
    }
  }

  lemma {:induction false} EntryFixPages(rel: seq<string>, e: Entry)
    ensures LinkChecker.EntryPages(rel, FixEntry(e)) == FixPages(LinkChecker.EntryPages(rel, e))
    decreases e
  {
    match e
    case Dir(n, children) =>
      if !IsSkippedBuildDir(n) {
        FixTreePages(rel + [n], children);
      }
    case File(n, c) =>
      if EndsWith(n, ".html") {
        ChangedIffRewritten(c);
        assert FixPages({(rel + [n], c)}) == {(rel + [n], Fixed(c))};
      }
    case Special(_) =>
  }

  lemma FixPagesUnion(A: set<LinkChecker.Page>, B: set<LinkChecker.Page>)
    ensures FixPages(A + B) == FixPages(A) + FixPages(B)
  {
  }

  /** The walk writes nothing back exactly when no page it reads has a link
      the pass would rewrite. */
  lemma {:induction false} FixCountPages(rel: seq<string>, es: seq<Entry>)
    ensures FixCount(es) == 0 <==> forall p :: p in LinkChecker.Pages(rel, es) ==> Rewrites(p.1, 0) == 0
    decreases es
  {
    if es != [] {
      FixCountPages(rel, es[..|es| - 1]);
      EntryFixCountPages(rel, es[|es| - 1]);
    }
  }

  lemma {:induction false} EntryFixCountPages(rel: seq<string>, e: Entry)
    ensures EntryFixCount(e) == 0 <==> forall p :: p in LinkChecker.EntryPages(rel, e) ==> Rewrites(p.1, 0) == 0
    decreases e
  {
    match e
    case Dir(n, children) =>
      if !IsSkippedBuildDir(n) {
        FixCountPages(rel + [n], children);
      }
    case File(n, c) =>
      if EndsWith(n, ".html") {
        assert (rel + [n], c) in LinkChecker.EntryPages(rel, e);
      }
    case Special(_) =>
  }

  /** On a site where no attribute value of any page ends with `href=`, a
      second run of the fixer writes nothing back and reports no fixed
      file. */
  lemma SecondWalkFixesNothing(es: seq<Entry>)
    requires forall p :: p in LinkChecker.Pages([], es) ==> NoValueEndsWithHref(p.1)
    ensures FixCount(FixTree(es)) == 0 && FixTree(FixTree(es)) == FixTree(es)
  {
    FixTreePages([], es);
    forall p | p in LinkChecker.Pages([], FixTree(es)) ensures Rewrites(p.1, 0) == 0 {
      var p0 :| p0 in LinkChecker.Pages([], es) && p == FixPage(p0);
      FixedIdempotent(p0.1);
    }
    FixCountPages([], FixTree(es));
    FixCountZero(FixTree(es));
  }
}
