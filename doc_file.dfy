/** GET /api/doc-file: find a document in the static or user folder and return its text without front matter. */
module DocFile {
  import opened Wrappers
  import opened Text
  import opened DocPaths

  /** Every candidate, base by base in the given order. */
  function AllCandidates(bases: seq<string>, clean: string): (r: seq<string>)
    ensures |r| == 3 * |bases|
  {
    if bases == [] then [] else Candidates(bases[0], clean) + AllCandidates(bases[1..], clean)
  }

  /**
   * The two nested loops: for each base in turn, the first existing candidate under it; stop at
   * the first base that has one.
   */
  method Locate(bases: seq<string>, clean: string, present: string -> bool) returns (found: Option<string>)
    ensures found == FirstPresent(AllCandidates(bases, clean), present)
  {
    found := None;
    var i := 0;
    while i < |bases|
      invariant i <= |bases|
      invariant found.None?
      invariant FirstPresent(AllCandidates(bases, clean), present) == FirstPresent(AllCandidates(bases[i..], clean), present)
    {
      assert bases[i..][0] == bases[i] && bases[i..][1..] == bases[i + 1..];
      FirstPresentAppend(Candidates(bases[i], clean), AllCandidates(bases[i + 1..], clean), present);
      found := DocPaths.Locate(Candidates(bases[i], clean), present);
      if found.Some? {
        return;
      }
      i := i + 1;
    }
    assert bases[i..] == [];
  }

  /** A document in the static folder hides one of the same name in the user folder. */
  lemma StaticFirst(staticBase: string, userBase: string, clean: string, present: string -> bool)
    requires exists p | p in Candidates(staticBase, clean) :: present(p)
    ensures FirstPresent(AllCandidates([staticBase, userBase], clean), present) == FirstPresent(Candidates(staticBase, clean), present)
  {
    assert [staticBase, userBase][1..] == [userBase];
    assert AllCandidates([userBase], clean) == Candidates(userBase, clean) + [] by {
      assert [userBase][1..] == [];
    }
    FirstPresentAppend(Candidates(staticBase, clean), AllCandidates([userBase], clean), present);
  }

  datatype Response = Content(content: string) | NotFound | Directory(path: string) {
    function Status(): nat {
      match this
      case Content(_) => 200
      case NotFound => 404
      case Directory(_) => 400
    }
  }

  /**
   * GET: `bases` are the static and the user folder; `present`, `isDir` and `read` stand for
   * `fs.access`, `fs.stat` and `fs.readFile`.
   */
  method Get(slug: Option<string>, bases: seq<string>, present: string -> bool, isDir: string -> bool,
             read: string -> string) returns (resp: Response)
    ensures var clean := CleanSlug(slug.GetOr(""));
            var hit := FirstPresent(AllCandidates(bases, clean), present);
            && (hit.None? ==> resp == NotFound)
            && (hit.Some? && isDir(hit.value) ==> resp == Directory(clean))
            && (hit.Some? && !isDir(hit.value) ==> resp == Content(StripFrontMatter(read(hit.value))))
  {
    var clean := CleanSlug(slug.GetOr(""));
    var hit := Locate(bases, clean, present);
    if hit.None? {
      return NotFound;
    }
    if isDir(hit.value) {
      return Directory(clean);
    }
    return Content(StripFrontMatter(read(hit.value)));
  }
}
