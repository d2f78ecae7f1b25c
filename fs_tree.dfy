/**
 * A directory tree as `readdir(dir, { withFileTypes: true })` reports it. A directory that
 * cannot be listed is marked unreadable; listing it throws.
 */
module FsTree {
  import opened Text

  datatype Entry =
    | File(name: string)
    | Dir(name: string, readable: bool, entries: seq<Entry>)
    | Other(name: string)   // neither a file nor a directory (a socket, a broken link, ...)

  /** A name the walkers count as a document. */
  predicate IsDocName(name: string) {
    EndsWith(name, ".md") || EndsWith(name, ".mdx")
  }

  /** `path.join(base, name)` for a relative base and a single path segment. */
  function Join(base: string, name: string): string {
    if base == [] then name else base + "/" + name
  }

  /** Every directory below these entries can be listed, so a walk over them does not throw. */
  predicate AllReadable(es: seq<Entry>) {
    if es == [] then true
    else
      (match es[0]
       case Dir(_, readable, sub) => readable && AllReadable(sub)
       case _ => true)
      && AllReadable(es[1..])
  }

  /** The document files below these entries, as paths relative to `base`, in walk order. */
  function DocPaths(es: seq<Entry>, base: string): seq<string> {
    if es == [] then []
    else
      (match es[0]
       case Dir(name, _, sub) => DocPaths(sub, Join(base, name))
       case File(name) => if IsDocName(name) then [Join(base, name)] else []
       case Other(_) => [])
      + DocPaths(es[1..], base)
  }

  /** The number of document files below these entries. */
  function DocCount(es: seq<Entry>): nat {
    if es == [] then 0
    else
      (match es[0]
       case Dir(_, _, sub) => DocCount(sub)
       case File(name) => if IsDocName(name) then 1 else 0
       case Other(_) => 0)
      + DocCount(es[1..])
  }

  /** Counting the documents and listing them agree, whatever the base of the listing. */
  lemma {:induction false} DocCountIsPaths(es: seq<Entry>, base: string)
    ensures DocCount(es) == |DocPaths(es, base)|
  {
    if es != [] {
      DocCountIsPaths(es[1..], base);
      match es[0]
      case Dir(name, _, sub) => DocCountIsPaths(sub, Join(base, name));
      case _ =>
    }
  }

  /** Every listed path names a document file. */
  lemma {:induction false} DocPathsAreDocs(es: seq<Entry>, base: string)
    ensures forall p | p in DocPaths(es, base) :: IsDocName(p)
  {
    if es != [] {
      DocPathsAreDocs(es[1..], base);
      match es[0]
      case Dir(name, _, sub) => DocPathsAreDocs(sub, Join(base, name));
      case File(name) =>
        if IsDocName(name) {
          JoinKeepsSuffix(base, name);
        }
      case Other(_) =>
    }
  }

  lemma JoinKeepsSuffix(base: string, name: string)
    requires IsDocName(name)
    ensures IsDocName(Join(base, name))
  {
    var j := Join(base, name);
    assert j[|j| - |name|..] == name;
    if EndsWith(name, ".md") {
      assert j[|j| - 3..] == name[|name| - 3..];
    } else {
      assert j[|j| - 4..] == name[|name| - 4..];
    }
  }
}
