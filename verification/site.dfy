/** Constants shared by the documentation build scripts. */
module Site {
  /** The path prefix under which the documentation site is served, as both
      the link fixer and the link checker spell it. (The site framework's own
      configuration names a different base; the scripts do not consult it.) */
  const BasePath: string := "/opencode-warcraft-notifications"

  /** `BasePath` without its leading slash: the text a negative lookahead
      after `/` compares against. */
  const BaseName: string := BasePath[1..]

  /** Output directories that neither the link fixer nor the link checker
      descends into: bundled assets and the search index. */
  predicate IsSkippedBuildDir(name: string) {
    name == "_astro" || name == "pagefind"
  }

  lemma BasePathShape()
    ensures BasePath == "/" + BaseName && |BasePath| == 32 && |BaseName| == 31
    ensures '"' !in BasePath && '#' !in BasePath
  {
    assert BasePath == [BasePath[0]] + BasePath[1..];
    NoQuoteOrHashInBasePath();
  }

  lemma NoQuoteOrHashInBasePath()
    ensures '"' !in BasePath && '#' !in BasePath
  {
  }

  /** The base path holds no `h`, so no `href="` can start inside it. */
  lemma NoHInBasePath()
    ensures 'h' !in BasePath
  {
  }
}
