/** Character classes and string primitives of JavaScript that the build
    scripts rely on (`startsWith`, `endsWith`, `indexOf`, `trimStart`, the
    regular-expression classes `\s`, `.` and `[^"]`). */
module TextUtil {

  datatype Option<T> = None | Some(value: T)

  /** `s.startsWith(prefix)` */
  predicate StartsWith(s: string, prefix: string) {
    |prefix| <= |s| && s[..|prefix|] == prefix
  }

  /** `s.endsWith(suffix)` */
  predicate EndsWith(s: string, suffix: string) {
    |suffix| <= |s| && s[|s| - |suffix|..] == suffix
  }

  /** `s.startsWith(pattern)` at offset `at`, without slicing. */
  predicate OccursAt(s: string, at: nat, pattern: string) {
    at + |pattern| <= |s| && s[at..at + |pattern|] == pattern
  }

  /** The line terminators of ECMAScript: what `.` refuses and where a
      multiline `^` and `$` may stand. */
  predicate IsLineTerminator(c: char) {
    c == '\n' || c == '\r' || c == '\U{2028}' || c == '\U{2029}'
  }

  /** The class `\s` of ECMAScript regular expressions, which is also the set
      of characters `trimStart` removes: white space plus line terminators. */
  predicate IsJsWhitespace(c: char) {
    || c == '\t' || c == '\U{0B}' || c == '\U{0C}' || c == ' '
    || c == '\U{A0}' || c == '\U{1680}'
    || ('\U{2000}' <= c <= '\U{200A}')
    || c == '\U{202F}' || c == '\U{205F}' || c == '\U{3000}' || c == '\U{FEFF}'
    || IsLineTerminator(c)
  }

  /** `[a-z0-9]` under the `i` flag: ASCII letters of either case and digits. */
  predicate IsAsciiAlnum(c: char) {
    ('a' <= c <= 'z') || ('A' <= c <= 'Z') || ('0' <= c <= '9')
  }

  /** `s.trimStart()`: the longest suffix of `s` that does not begin with
      white space, after only white space has been removed. */
  function TrimStart(s: string): (r: string)
    ensures |r| <= |s| && r == s[|s| - |r|..]
    ensures forall i :: 0 <= i < |s| - |r| ==> IsJsWhitespace(s[i])
    ensures r == [] || !IsJsWhitespace(r[0])
  {
    if s != [] && IsJsWhitespace(s[0]) then TrimStart(s[1..]) else s
  }

  /** `s.indexOf(c)`: the first index of `c`, or -1 when `c` does not occur. */
  function IndexOf(s: string, c: char): (r: int)
    ensures r == -1 <==> c !in s
    ensures r != -1 ==> 0 <= r < |s| && s[r] == c && c !in s[..r]
  {
    if s == [] then -1
    else if s[0] == c then 0
    else
      var k := IndexOf(s[1..], c);
      assert s[1..] == s[..|s|][1..];
      if k == -1 then -1
      else
        assert s[..k + 1] == [s[0]] + s[1..][..k];
        k + 1
  }

  /** The index of the first `"` at or after `from`, or `|s|` when there is
      none: where `[^"]*` followed by `"` stops. */
  function QuoteFrom(s: string, from: nat): (r: nat)
    requires from <= |s|
    decreases |s| - from
    ensures from <= r <= |s|
    ensures r < |s| ==> s[r] == '"'
    ensures forall i :: from <= i < r ==> s[i] != '"'
  {
    if from == |s| || s[from] == '"' then from else QuoteFrom(s, from + 1)
  }

  /** `parts.join(sep)`. */
  function JoinWith(parts: seq<string>, sep: string): string {
    if parts == [] then ""
    else if |parts| == 1 then parts[0]
    else parts[0] + sep + JoinWith(parts[1..], sep)
  }
}
