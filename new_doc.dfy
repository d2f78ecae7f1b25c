/** POST /api/docs/new: create a document file from a title, a slug and content, with front matter. */
module NewDoc {
  import opened Wrappers
  import opened Text
  import opened Json
  import opened FsTree
  import opened AdminAuth
  import opened DocPaths

  // ---------------------------------------------------------------------------------------------
  // The slug and the file it names

  predicate IsNotDot(c: char) { c != '.' }

  /** `s.replace(/\.{2,}/g, '.')`: every run of two or more dots becomes one dot. */
  function CollapseDots(s: string): (r: string)
    ensures s != [] ==> r != [] && r[0] == s[0]
    ensures '.' !in s ==> r == s
    ensures forall i | 0 <= i < |r| - 1 :: r[i] == '.' ==> r[i + 1] != '.'
    decreases |s|
  {
    if s == [] then []
    else if s[0] == '.' then
      var rest := DropRun(s, IsNotDot);
      "." + CollapseDots(rest)
    else
      [s[0]] + CollapseDots(s[1..])
  }

  /** The class `[a-zA-Z0-9\/_-]` that a sanitised slug is made of. */
  predicate IsSlugChar(c: char) {
    IsAlnum(c) || c == '/' || c == '_' || c == '-'
  }

  /** `sanitizeSlug`: strip leading slashes, collapse dot runs, turn every run of other characters into '-'. */
  function SanitizeSlug(slug: string): (r: string)
    ensures forall c | c in r :: IsSlugChar(c)
    ensures r == [] || r[0] != '/'
    ensures '.' !in r
  {
    var stripped := StripLeadingSlashes(slug);
    var collapsed := CollapseDots(stripped);
    assert collapsed == [] || collapsed[0] != '/';
    var r := ReplaceRuns(collapsed, IsSlugChar);
    assert !IsSlugChar('.');
    r
  }

  /** Sanitising a sanitised slug changes nothing. */
  lemma SanitizeIdempotent(slug: string)
    ensures SanitizeSlug(SanitizeSlug(slug)) == SanitizeSlug(slug)
  {
    var r := SanitizeSlug(slug);
    assert StripLeadingSlashes(r) == r;
    ReplaceRunsOfKept(r, IsSlugChar);
  }

  /** `.replace(/\/$/, '')`: drop one trailing slash. */
  function DropTrailingSlash(s: string): (r: string)
    ensures r == s || (s == r + "/")
  {
    if s != [] && s[|s| - 1] == '/' then s[..|s| - 1] else s
  }

  /** The path below the docs folder: the safe slug without one leading "docs/", then one leading "/docs/". */
  function Relative(slug: string): (r: string)
    ensures forall c | c in r :: IsSlugChar(c)
    ensures '.' !in r
    ensures var safe := DropTrailingSlash(SanitizeSlug(slug));
            var once := DropPrefix(safe, "docs/");
            (StartsWith(safe, "docs/") ==> safe == "docs/" + once) &&
            (StartsWith(once, "/docs/") ==> once == "/docs/" + r) &&
            (!StartsWith(once, "/docs/") ==> r == once)
  {
    var safe := DropTrailingSlash(SanitizeSlug(slug));
    var once := DropPrefix(safe, "docs/");
    var r := DropPrefix(once, "/docs/");
    assert forall c | c in once :: c in safe by {
      if StartsWith(safe, "docs/") {
        assert forall i | 0 <= i < |once| :: once[i] == safe[i + 5];
      }
    }
    assert forall c | c in r :: c in once by {
      if StartsWith(once, "/docs/") {
        assert forall i | 0 <= i < |r| :: r[i] == once[i + 6];
      }
    }
    r
  }

  /** A relative path has no dot, so the file always gets ".mdx" appended. */
  lemma ExtAlwaysMdx(slug: string)
    ensures DocExt(Relative(slug)) == ".mdx"
  {
    NoDotNotDoc(Relative(slug));
  }

  /** Every document name holds a dot: the one that starts its extension. */
  lemma DotInDocName(r: string)
    requires IsDocName(r)
    ensures '.' in r
  {
    var k := if EndsWith(r, ".md") then |r| - 3 else |r| - 4;
    assert r[k..][0] == '.';
    assert r[k] == r[k..][0];
  }

  lemma NoDotNotDoc(r: string)
    requires '.' !in r
    ensures !IsDocName(r)
  {
    if IsDocName(r) {
      DotInDocName(r);
    }
  }

  /** The file written, below the folder `base`. */
  function FilePath(base: string, slug: string): string {
    var rel := Relative(slug);
    Join(base, rel + DocExt(rel))
  }

  // ---------------------------------------------------------------------------------------------
  // The file text

  /** The front-matter entries: the title, then author and creation time only when an author is given. */
  function Metadata(title: string, author: Option<string>, createdAt: string): (r: string)
    ensures StartsWith(r, QuotedLine("title", title))
    ensures author.None? ==> r == QuotedLine("title", title)
    ensures author.Some? ==> r == QuotedLine("title", title) + "\n" + QuotedLine("author", author.value)
                                  + "\n" + QuotedLine("createdAt", createdAt)
  {
    QuotedLine("title", title)
      + if author.Some? then "\n" + QuotedLine("author", author.value) + "\n" + QuotedLine("createdAt", createdAt) else ""
  }

  /** The text written: a front-matter block, a blank line, the content and a final line break. */
  function DocText(title: string, author: Option<string>, createdAt: string, content: string): string {
    "---\n" + Metadata(title, author, createdAt) + "\n---\n\n" + content + "\n"
  }

  lemma MetadataNoCloser(title: string, author: Option<string>, createdAt: string)
    requires '\n' !in title && '\n' !in createdAt
    requires author.Some? ==> '\n' !in author.value
    ensures NoCloser(Metadata(title, author, createdAt))
  {
    var t := QuotedLine("title", title);
    QuotedLineNoCloser("title", title);
    if author.Some? {
      var a := QuotedLine("author", author.value);
      var c := QuotedLine("createdAt", createdAt);
      QuotedLineNoCloser("author", author.value);
      QuotedLineNoCloser("createdAt", createdAt);
      var tn, an, cn := t + "\n", a + "\n", c + "\n";
      NoCloserAppend(an, cn);
      NoCloserAppend(tn, an + cn);
      assert Metadata(title, author, createdAt) + "\n" == tn + (an + cn);
    }
  }

  /**
   * Reading a created document back strips exactly the front matter it was written with, as long
   * as no value holds a line break.
   */
  lemma StripCreated(title: string, author: Option<string>, createdAt: string, content: string)
    requires '\n' !in title && '\n' !in createdAt
    requires author.Some? ==> '\n' !in author.value
    ensures StripFrontMatter(DocText(title, author, createdAt, content)) == "\n" + content + "\n"
  {
    var meta := Metadata(title, author, createdAt);
    MetadataNoCloser(title, author, createdAt);
    StripWritten(meta, "\n" + content + "\n");
    assert DocText(title, author, createdAt, content) == "---\n" + meta + "\n---\n" + ("\n" + content + "\n");
  }

  // ---------------------------------------------------------------------------------------------
  // The handler

  datatype Request = Request(title: string, slug: string, content: string, author: Option<string>)

  /** The schema: non-empty title, slug and content; an author, when given, non-empty. */
  function ParseRequest(title: Field, slug: Field, content: Field, author: Field): (r: Option<Request>)
    ensures r.Some? <==> StrAtLeast(title, 1) && StrAtLeast(slug, 1) && StrAtLeast(content, 1)
                         && (author.Missing? || StrAtLeast(author, 1))
    ensures r.Some? ==> r.value.title == title.s && r.value.slug == slug.s && r.value.content == content.s
                        && (r.value.author.Some? <==> author.Str?)
                        && (author.Str? ==> r.value.author.value == author.s)
  {
    if StrAtLeast(title, 1) && StrAtLeast(slug, 1) && StrAtLeast(content, 1)
       && (author.Missing? || StrAtLeast(author, 1))
    then Some(Request(title.s, slug.s, content.s, if author.Str? then Some(author.s) else None))
    else None
  }

  datatype Response = Created(href: string) | Unauthorized | InvalidRequest {
    function Status(): nat {
      match this
      case Created(_) => 200
      case Unauthorized => 401
      case InvalidRequest => 400
    }
  }

  /**
   * POST: check the token, validate, and write the document; `now` is the creation time in ISO
   * form and `base` the user documents folder.
   */
  method Post(folder: DocFolder, base: string, token: Option<string>, auth: Option<string>,
              title: Field, slug: Field, content: Field, author: Field, now: string) returns (resp: Response)
    modifies folder
    ensures resp == Unauthorized <==> !Authorized(token, auth)
    ensures Authorized(token, auth) ==> (resp == InvalidRequest <==> ParseRequest(title, slug, content, author).None?)
    ensures var req := ParseRequest(title, slug, content, author);
            Authorized(token, auth) && req.Some? ==>
              && resp == Created("/docs/" + Relative(req.value.slug))
              && folder.files == old(folder.files)[FilePath(base, req.value.slug) :=
                   DocText(req.value.title, req.value.author, now, req.value.content)]
    ensures !resp.Created? ==> folder.files == old(folder.files)
  {
    if !Authorized(token, auth) {
      return Unauthorized;
    }
    var req := ParseRequest(title, slug, content, author);
    if req.None? {
      return InvalidRequest;
    }
    var r := req.value;
    var relative := Relative(r.slug);
    folder.files := folder.files[Join(base, relative + DocExt(relative)) := DocText(r.title, r.author, now, r.content)];
    return Created("/docs/" + relative);
  }
}
