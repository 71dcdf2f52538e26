/** An in-memory picture of a directory as `readdir(dir, { withFileTypes:
    true })` shows it: each entry is a directory with its own entries, a
    regular file with its text, or something else (a symbolic link, a socket)
    for which both `isDirectory()` and `isFile()` are false. */
module FileTree {
  import opened TextUtil

  datatype Entry =
    | Dir(name: string, entries: seq<Entry>)
    | File(name: string, content: string)
    | Special(name: string)

  /** `path.join` over the components of a path, without normalisation. */
  function PathString(p: seq<string>): string {
    JoinWith(p, "/")
  }

  /** The entries reached by following the components `p` down from the
      listing `es`: the last component names the entry, the earlier ones the
      directories leading to it (a set, because nothing forces two entries of
      one listing to have different names). */
  ghost function EntriesAt(es: seq<Entry>, p: seq<string>): set<Entry>
    decreases es
  {
    if es == [] then {}
    else EntriesAt(es[..|es| - 1], p) + EntryEntriesAt(es[|es| - 1], p)
  }

  ghost function EntryEntriesAt(e: Entry, p: seq<string>): set<Entry>
    decreases e
  {
    if p == [e.name] then {e}
    else if e.Dir? && |p| >= 2 && p[0] == e.name then EntriesAt(e.entries, p[1..])
    else {}
  }

  /** A regular file with text `c` sits at path `p`. */
  ghost predicate FileAt(es: seq<Entry>, p: seq<string>, c: string) {
    |p| >= 1 && File(p[|p| - 1], c) in EntriesAt(es, p)
  }
}
