/** The documentation transform run before a site build: it copies the
    source documentation tree into the site's content tree, giving every
    markdown page without frontmatter a block with a title. The title comes
    from the first match of `^#\s+(.+)$` in multiline mode: a line-initial
    `#`, then a run of white space that may run across line breaks, then the
    rest of the line where that run ends. It is `Untitled` when there is no
    such match. */
module TransformDocs {
  import opened TextUtil
  import opened FileTree

  // ---------------------------------------------------------------------
  // extractTitle: a scanner for `/^#\s+(.+)$/m`
  // ---------------------------------------------------------------------

  /** Where a multiline `^` may stand. */
  predicate IsLineStart(s: string, i: nat)
    requires i <= |s|
  {
    i == 0 || IsLineTerminator(s[i - 1])
  }

  /** The end of the run of white space (line terminators included) that
      starts at `k`. */
  function WhitespaceEnd(s: string, k: nat): (e: nat)
    requires k <= |s|
    decreases |s| - k
    ensures k <= e <= |s|
    ensures forall j :: k <= j < e ==> IsJsWhitespace(s[j])
    ensures e == |s| || !IsJsWhitespace(s[e])
  {
    if k == |s| || !IsJsWhitespace(s[k]) then k else WhitespaceEnd(s, k + 1)
  }

  /** Where a greedy `.+` started at `k` stops: the next line terminator,
      or the end of the text. */
  function LineEnd(s: string, k: nat): (e: nat)
    requires k <= |s|
    decreases |s| - k
    ensures k <= e <= |s|
    ensures forall j :: k <= j < e ==> !IsLineTerminator(s[j])
    ensures e == |s| || IsLineTerminator(s[e])
  {
    if k == |s| || IsLineTerminator(s[k]) then k else LineEnd(s, k + 1)
  }

  /** The last index in `[lo, hi)` that is not a line terminator. */
  function LastNonTerminator(s: string, lo: nat, hi: nat): (r: Option<nat>)
    requires lo <= hi <= |s|
    decreases hi - lo
    ensures r.Some? ==> lo <= r.value < hi && !IsLineTerminator(s[r.value])
    ensures r.Some? ==> forall j :: r.value < j < hi ==> IsLineTerminator(s[j])
    ensures r.None? ==> forall j :: lo <= j < hi ==> IsLineTerminator(s[j])
  {
    if lo == hi then None
    else if !IsLineTerminator(s[hi - 1]) then Some(hi - 1)
    else LastNonTerminator(s, lo, hi - 1)
  }

  /** The pattern matches at line start `i` with its capture starting at
      `t`: a `#`, at least one white-space character up to `t`, and a
      character `.` accepts at `t`. The capture then runs to the end of the
      line, where `$` holds. */
  ghost predicate TitleMatch(s: string, i: nat, t: nat) {
    && i + 2 <= t < |s|
    && IsLineStart(s, i)
    && s[i] == '#'
    && (forall k :: i < k < t ==> IsJsWhitespace(s[k]))
    && !IsLineTerminator(s[t])
  }

  /** The match the regular expression engine reports: at the leftmost line
      start that admits one and, since `\s+` is greedy, with the latest
      capture start there. */
  ghost predicate ChosenMatch(s: string, i: nat, t: nat) {
    && TitleMatch(s, i, t)
    && (forall i': nat, t': nat :: i' < i ==> !TitleMatch(s, i', t'))
    && (forall t': nat :: TitleMatch(s, i, t') ==> t' <= t)
  }

  /** Where the capture starts when the pattern is tried at `i`: after the
      whole white-space run if something follows it, otherwise (the run
      reaches the end of the text) after backing off to the last character
      of the run that `.` accepts. */
  function CaptureStart(s: string, i: nat): (r: Option<nat>)
    requires i < |s|
    ensures r.Some? ==> i + 2 <= r.value < |s| && !IsLineTerminator(s[r.value])
  {
    if !IsLineStart(s, i) || s[i] != '#' then None
    else
      var e := WhitespaceEnd(s, i + 1);
      if e == i + 1 then None
      else if e < |s| then Some(e)
      else LastNonTerminator(s, i + 2, e)
  }

  /** Trying the pattern at `i` finds the greedy match there, if any. */
  lemma CaptureStartMeaning(s: string, i: nat)
    requires i < |s|
    ensures CaptureStart(s, i).None? <==> forall t: nat :: !TitleMatch(s, i, t)
    ensures CaptureStart(s, i).Some? ==>
      TitleMatch(s, i, CaptureStart(s, i).value) &&
      forall t: nat :: TitleMatch(s, i, t) ==> t <= CaptureStart(s, i).value
  {
    if IsLineStart(s, i) && s[i] == '#' {
      var e := WhitespaceEnd(s, i + 1);
      if e == i + 1 {
        forall t: nat | TitleMatch(s, i, t) ensures false {
        }
      } else if e < |s| {
        assert TitleMatch(s, i, e);
        forall t: nat | TitleMatch(s, i, t) ensures t <= e {
        }
      } else {
        match LastNonTerminator(s, i + 2, e)
        case None =>
          forall t: nat | TitleMatch(s, i, t) ensures false {
          }
        case Some(t0) =>
          assert TitleMatch(s, i, t0);
      }
    }
  }

  /** The leftmost line start at or after `from` where the pattern
      matches, with the start of its capture. */
  function FindCapture(s: string, from: nat): (r: Option<(nat, nat)>)
    requires from <= |s|
    decreases |s| - from
    ensures r.Some? ==> from <= r.value.0 < |s| && CaptureStart(s, r.value.0) == Some(r.value.1)
  {
    if from == |s| then None
    else match CaptureStart(s, from)
      case Some(t) => Some((from, t))
      case None => FindCapture(s, from + 1)
  }

  lemma {:induction false} FindCaptureMeaning(s: string, from: nat)
    requires from <= |s|
    ensures FindCapture(s, from).None? ==> forall i: nat, t: nat :: from <= i ==> !TitleMatch(s, i, t)
    ensures FindCapture(s, from).Some? ==>
      forall i: nat, t: nat :: from <= i < FindCapture(s, from).value.0 ==> !TitleMatch(s, i, t)
    decreases |s| - from
  {
    if from < |s| {
      CaptureStartMeaning(s, from);
      if CaptureStart(s, from).None? {
        FindCaptureMeaning(s, from + 1);
      }
    }
  }

  /** `extractTitle`: the capture of the first match, or `Untitled`. */
  function ExtractTitle(content: string): (title: string)
    ensures title != []
    ensures forall j :: 0 <= j < |title| ==> !IsLineTerminator(title[j])
  {
    match FindCapture(content, 0)
    case None => "Untitled"
    case Some((_, t)) => content[t..LineEnd(content, t)]
  }

  /** The title is `Untitled` exactly when no line is a heading the pattern
      accepts; otherwise it is the rest of the line from where the chosen
      match's capture starts. */
  lemma ExtractTitleMeaning(content: string)
    ensures (forall i: nat, t: nat :: !TitleMatch(content, i, t)) ==> ExtractTitle(content) == "Untitled"
    ensures (exists i: nat, t: nat :: TitleMatch(content, i, t)) ==> exists i: nat, t: nat :: ChosenMatch(content, i, t)
    ensures forall i: nat, t: nat :: ChosenMatch(content, i, t) ==>
      ExtractTitle(content) == content[t..LineEnd(content, t)]
  {
    FindCaptureMeaning(content, 0);
    match FindCapture(content, 0)
    case None =>
    case Some((h, t)) =>
      CaptureStartMeaning(content, h);
      assert ChosenMatch(content, h, t);
      forall i: nat, t': nat | ChosenMatch(content, i, t')
        ensures i == h && t' == t
      {
        assert !(i < h) && !(h < i);
      }
  }

  /** The white space after `#` may run across a line break: the title is
      then taken from the next line, and a heading line with nothing after
      it gives no title at all. */
  lemma TitleAcrossLineBreak()
    ensures ExtractTitle("# \n# Real") == "# Real"
    ensures ExtractTitle("# \n") == "Untitled"
  {
    var s := "# \n# Real";
    assert CaptureStart(s, 0) == Some(3) by {
      assert s[1] == ' ' && s[2] == '\n' && s[3] == '#';
      assert WhitespaceEnd(s, 1) == 3;
    }
    assert LineEnd(s, 3) == |s|;
    var u := "# \n";
    assert CaptureStart(u, 0).None? by {
      assert WhitespaceEnd(u, 1) == 3;
      assert LastNonTerminator(u, 2, 3).None?;
    }
    assert FindCapture(u, 1).None?;
  }

  /** A page that opens with `# ` and a title line gets that title. */
  lemma StandardHeading(title: string, rest: string)
    requires title != [] && !IsJsWhitespace(title[0])
    requires forall j :: 0 <= j < |title| ==> !IsLineTerminator(title[j])
    requires rest == [] || IsLineTerminator(rest[0])
    ensures ExtractTitle("# " + title + rest) == title
  {
    var s := "# " + title + rest;
    assert s[2] == title[0];
    assert TitleMatch(s, 0, 2);
    assert ChosenMatch(s, 0, 2) by {
      forall t': nat | TitleMatch(s, 0, t') ensures t' <= 2 {
      }
    }
    var e := LineEnd(s, 2);
    forall j | 2 <= j < 2 + |title| ensures !IsLineTerminator(s[j]) {
      assert s[j] == title[j - 2];
    }
    assert 2 + |title| == |s| || s[2 + |title|] == rest[0];
    assert e == 2 + |title|;
    ExtractTitleMeaning(s);
    assert s[2..2 + |title|] == title;
  }

  // ---------------------------------------------------------------------
  // hasFrontmatter and addFrontmatter
  // ---------------------------------------------------------------------

  /** `hasFrontmatter`: after leading white space, the text starts with a
      `---` fence. */
  predicate HasFrontmatter(content: string) {
    StartsWith(TrimStart(content), "---")
  }

  /** A fence preceded by nothing but white space. */
  lemma HasFrontmatterMeaning(content: string)
    ensures HasFrontmatter(content) <==>
      exists k: nat :: OccursAt(content, k, "---") && forall j :: 0 <= j < k ==> IsJsWhitespace(content[j])
  {
    if HasFrontmatter(content) {
      FenceAfterTrim(content);
    }
    if exists k: nat :: OccursAt(content, k, "---") && forall j :: 0 <= j < k ==> IsJsWhitespace(content[j]) {
      var k: nat :| OccursAt(content, k, "---") && forall j :: 0 <= j < k ==> IsJsWhitespace(content[j]);
      TrimToFence(content, k);
    }
  }

  lemma FenceAfterTrim(content: string)
    requires HasFrontmatter(content)
    ensures var k := |content| - |TrimStart(content)|;
      OccursAt(content, k, "---") && forall j :: 0 <= j < k ==> IsJsWhitespace(content[j])
  {
    var r := TrimStart(content);
    var k0 := |content| - |r|;
    assert content[k0..k0 + 3] == r[..3];
  }

  lemma TrimToFence(content: string, k: nat)
    requires OccursAt(content, k, "---") && forall j :: 0 <= j < k ==> IsJsWhitespace(content[j])
    ensures HasFrontmatter(content)
  {
    var r := TrimStart(content);
    assert content[k] == content[k..k + 3][0] == '-';
    assert r == content[k..];
    assert r[..3] == content[k..k + 3];
  }

  /** Text that does not start with white space is its own `trimStart`. */
  lemma TrimStartKeeps(s: string)
    requires s != [] && !IsJsWhitespace(s[0])
    ensures TrimStart(s) == s
  {
  }

  /** The block `addFrontmatter` puts in front of a page without one. */
  function FrontmatterBlock(title: string): string {
    "---\ntitle: '" + title + "'\n---\n\n"
  }

  /** `addFrontmatter`: a page with frontmatter is returned as it is; any
      other page is returned unchanged after a new block titled by its first
      heading. */
  function AddFrontmatter(content: string): (r: string)
    ensures EndsWith(r, content)
    ensures r == content <==> HasFrontmatter(content)
  {
    if HasFrontmatter(content) then content
    else
      var r := FrontmatterBlock(ExtractTitle(content)) + content;
      assert r[|r| - |content|..] == content;
      r
  }

  /** The block added to a page without frontmatter is exactly the
      frontmatter block for the page's title. */
  lemma AddFrontmatterBlock(content: string)
    requires !HasFrontmatter(content)
    ensures var r := AddFrontmatter(content);
      r[..|r| - |content|] == FrontmatterBlock(ExtractTitle(content))
  {
  }

  /** The result always has frontmatter, so a second application changes
      nothing. */
  lemma AddFrontmatterIdempotent(content: string)
    ensures HasFrontmatter(AddFrontmatter(content))
    ensures AddFrontmatter(AddFrontmatter(content)) == AddFrontmatter(content)
  {
    if !HasFrontmatter(content) {
      BlockHasFrontmatter(ExtractTitle(content), content);
    }
  }

  /** Any text behind a frontmatter block has frontmatter. */
  lemma BlockHasFrontmatter(title: string, content: string)
    ensures HasFrontmatter(FrontmatterBlock(title) + content)
  {
    var r := FrontmatterBlock(title) + content;
    assert r[0] == '-';
    TrimStartKeeps(r);
    assert r[..3] == "---";
  }

  // ---------------------------------------------------------------------
  // copyMarkdownFiles
  // ---------------------------------------------------------------------

  /** What the walk does with a file, by its name: markdown is written
      through `addFrontmatter`, a few data files are copied as they are,
      everything else is ignored. */
  datatype Kind = Markdown | Verbatim | Ignored

  function Classify(name: string): Kind {
    if EndsWith(name, ".md") then Markdown
    else if EndsWith(name, ".json") || EndsWith(name, ".example") || EndsWith(name, ".schema") then Verbatim
    else Ignored
  }

  /** The skip rule: dependency and version-control directories and
      Finder metadata at every depth, the top-level README everywhere it is
      top-level. `rel` is the path of the listing being walked. */
  predicate IsSkipped(name: string, rel: seq<string>) {
    || name == "node_modules"
    || name == ".git"
    || name == ".DS_Store"
    || (name == "README.md" && rel == [])
  }

  /** The effects of the walk on the target tree, with paths relative to
      the target directory (the source path is the same path under the
      source directory). */
  datatype Op =
    | MakeDir(path: seq<string>)
    | WriteDoc(path: seq<string>, content: string)
    | CopyAsIs(path: seq<string>, content: string)

  /** What an entry that is not skipped causes at its own path. */
  function EntryOp(path: seq<string>, e: Entry): seq<Op> {
    match e
    case Dir(_, _) => [MakeDir(path)]
    case File(n, c) =>
      (match Classify(n)
       case Markdown => [WriteDoc(path, AddFrontmatter(c))]
       case Verbatim => [CopyAsIs(path, c)]
       case Ignored => [])
    case Special(_) => []
  }

  /** The effects of walking listing `es` found at relative path `rel`, in
      order. */
  function CopyPlan(rel: seq<string>, es: seq<Entry>): seq<Op>
    decreases es
  {
    if es == [] then [] else CopyPlan(rel, es[..|es| - 1]) + EntryPlan(rel, es[|es| - 1])
  }

  function EntryPlan(rel: seq<string>, e: Entry): seq<Op>
    decreases e
  {
    if IsSkipped(e.name, rel) then []
    else EntryOp(rel + [e.name], e) + (if e.Dir? then CopyPlan(rel + [e.name], e.entries) else [])
  }

  /** `copyMarkdownFiles`: for each entry, skip it, or create the directory
      and recurse into it, or write a markdown page with frontmatter, or copy
      a data file unchanged. */
  method CopyMarkdownFiles(relativePath: seq<string>, entries: seq<Entry>) returns (ops: seq<Op>)
    ensures ops == CopyPlan(relativePath, entries)
    decreases entries
  {
    ops := [];
    for i := 0 to |entries|
      invariant ops == CopyPlan(relativePath, entries[..i])
    {
      var entry := entries[i];
      var currentRelativePath := relativePath + [entry.name];
      var step: seq<Op> := [];
      if IsSkipped(entry.name, relativePath) {
      } else if entry.Dir? {
        var sub := CopyMarkdownFiles(currentRelativePath, entry.entries);
        step := [MakeDir(currentRelativePath)] + sub;
      } else if entry.File? && EndsWith(entry.name, ".md") {
        step := [WriteDoc(currentRelativePath, AddFrontmatter(entry.content))];
      } else if entry.File? && (EndsWith(entry.name, ".json") || EndsWith(entry.name, ".example") || EndsWith(entry.name, ".schema")) {
        step := [CopyAsIs(currentRelativePath, entry.content)];
      }
      assert step == EntryPlan(relativePath, entry);
      CopyPlanStep(relativePath, entries, i);
      ops := ops + step;
    }
    assert entries[..|entries|] == entries;
  }

  lemma CopyPlanStep(rel: seq<string>, es: seq<Entry>, i: nat)
    requires i < |es|
    ensures CopyPlan(rel, es[..i + 1]) == CopyPlan(rel, es[..i]) + EntryPlan(rel, es[i])
  {
    assert es[..i + 1][..i] == es[..i];
  }

  /** The walk reaches path `p` below `rel`: no component of `p` is skipped
      in the listing it is found in. */
  ghost predicate Reached(rel: seq<string>, p: seq<string>) {
    |p| >= 1 && forall k :: 0 <= k < |p| ==> !IsSkipped(p[k], rel + p[..k])
  }

  /** Some entry at path `p` of the tree causes `op` at `path`. */
  ghost predicate Causes(es: seq<Entry>, p: seq<string>, path: seq<string>, op: Op) {
    exists e :: e in EntriesAt(es, p) && op in EntryOp(path, e)
  }

  lemma CausesUnion(es: seq<Entry>, p: seq<string>, path: seq<string>, op: Op)
    requires es != []
    ensures Causes(es, p, path, op) <==>
      Causes(es[..|es| - 1], p, path, op) || exists e :: e in EntryEntriesAt(es[|es| - 1], p) && op in EntryOp(path, e)
  {
  }

  /** Every effect of the walk lies strictly below the listing's path. */
  lemma {:induction false} PlanPrefix(rel: seq<string>, es: seq<Entry>, op: Op)
    requires op in CopyPlan(rel, es)
    ensures |op.path| > |rel| && op.path[..|rel|] == rel
    decreases es
  {
    var init, last := es[..|es| - 1], es[|es| - 1];
    if op in CopyPlan(rel, init) {
      PlanPrefix(rel, init, op);
    } else {
      EntryPlanPrefix(rel, last, op);
    }
  }

  lemma {:induction false} EntryPlanPrefix(rel: seq<string>, e: Entry, op: Op)
    requires op in EntryPlan(rel, e)
    ensures |op.path| > |rel| && op.path[..|rel|] == rel
    decreases e
  {
    if op !in EntryOp(rel + [e.name], e) {
      PlanPrefix(rel + [e.name], e.entries, op);
      assert op.path[..|rel|] == op.path[..|rel| + 1][..|rel|];
    } else {
      assert op.path == rel + [e.name];
    }
  }

  /** The walk causes exactly the effects of the entries it reaches: an
      effect at `rel + p` is in the plan iff `p` is reached and an entry at
      `p` causes it. */
  lemma {:induction false} PlanContents(rel: seq<string>, es: seq<Entry>, p: seq<string>, op: Op)
    requires op.path == rel + p
    ensures op in CopyPlan(rel, es) <==> Reached(rel, p) && Causes(es, p, rel + p, op)
    decreases es
  {
    if es != [] {
      var init, last := es[..|es| - 1], es[|es| - 1];
      PlanContents(rel, init, p, op);
      EntryPlanContents(rel, last, p, op);
      CausesUnion(es, p, rel + p, op);
    }
  }

  lemma {:induction false} EntryPlanContents(rel: seq<string>, e: Entry, p: seq<string>, op: Op)
    requires op.path == rel + p
    ensures op in EntryPlan(rel, e) <==>
      Reached(rel, p) && exists e' :: e' in EntryEntriesAt(e, p) && op in EntryOp(rel + p, e')
    decreases e
  {
    var n := e.name;
    if op in EntryPlan(rel, e) {
      EntryPlanCases(rel, e, p, op);
    }
    if |p| >= 1 && p[0] == n {
      assert rel + p[..0] == rel;
    }
    if e.Dir? && |p| >= 2 && p[0] == n {
      var q := p[1..];
      assert rel + p == (rel + [n]) + q;
      PlanContents(rel + [n], e.entries, q, op);
      ReachedStep(rel, n, p);
    }
  }

  /** An effect of one entry is either the entry's own, at the entry's
      path, or one from inside the directory it names. */
  lemma EntryPlanCases(rel: seq<string>, e: Entry, p: seq<string>, op: Op)
    requires op.path == rel + p && op in EntryPlan(rel, e)
    ensures !IsSkipped(e.name, rel)
    ensures || (p == [e.name] && op in EntryOp(rel + [e.name], e))
            || (e.Dir? && |p| >= 2 && p[0] == e.name && op in CopyPlan(rel + [e.name], e.entries))
  {
    var n := e.name;
    if op in EntryOp(rel + [n], e) {
      assert p == (rel + p)[|rel|..];
    } else {
      PlanPrefix(rel + [n], e.entries, op);
      assert (rel + p)[..|rel| + 1] == rel + [n];
      assert p[0] == (rel + p)[|rel|];
    }
  }

  /** A path is reached through a directory exactly when the directory is
      not skipped and the rest is reached inside it. */
  lemma ReachedStep(rel: seq<string>, n: string, p: seq<string>)
    requires |p| >= 2 && p[0] == n
    ensures Reached(rel, p) <==> !IsSkipped(n, rel) && Reached(rel + [n], p[1..])
  {
    var q := p[1..];
    forall k | 0 <= k < |q| ensures rel + p[..k + 1] == (rel + [n]) + q[..k] && p[k + 1] == q[k] {
      assert p[..k + 1] == [n] + q[..k];
    }
    assert rel + p[..0] == rel;
    if !IsSkipped(n, rel) && Reached(rel + [n], q) {
      forall k | 0 <= k < |p| ensures !IsSkipped(p[k], rel + p[..k]) {
        if k > 0 {
          assert rel + p[..k] == (rel + [n]) + q[..k - 1] && p[k] == q[k - 1];
        }
      }
    }
    if Reached(rel, p) {
      forall k | 0 <= k < |q| ensures !IsSkipped(q[k], (rel + [n]) + q[..k]) {
        assert !IsSkipped(p[k + 1], rel + p[..k + 1]);
      }
    }
  }

  /** Every page the walk writes carries frontmatter, and lies at a path
      the walk reaches from the top. */
  lemma WrittenDocsHaveFrontmatter(tree: seq<Entry>, op: Op)
    requires op in CopyPlan([], tree) && op.WriteDoc?
    ensures HasFrontmatter(op.content)
    ensures Reached([], op.path)
  {
    var p := op.path;
    assert p == [] + p;
    PlanContents([], tree, p, op);
    var e :| e in EntriesAt(tree, p) && op in EntryOp(p, e);
    WriteDocSource(p, e, op);
    AddFrontmatterIdempotent(e.content);
  }

  lemma WriteDocSource(path: seq<string>, e: Entry, op: Op)
    requires op in EntryOp(path, e) && op.WriteDoc?
    ensures e.File? && op.content == AddFrontmatter(e.content)
  {
  }
}
