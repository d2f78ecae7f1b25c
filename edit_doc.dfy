/** POST /api/docs/edit: overwrite a document with new front matter and content. */
module EditDoc {
  import opened Wrappers
  import opened Text
  import opened Json
  import opened FsTree
  import opened DocPaths

  /** The front-matter entries: an unquoted title, the author "admin" and the edit time. */
  function EditMeta(title: string, editedAt: string): (r: string)
    ensures StartsWith(r, "title: " + title + "\n")
  {
    "title: " + title + "\n" + QuotedLine("author", "admin") + "\n" + QuotedLine("createdAt", editedAt)
  }

  /**
   * The text written: the front-matter block, a blank line and the content, with no final line
   * break added. Nothing of the file being replaced goes into it.
   */
  function EditText(title: string, editedAt: string, content: string): (r: string)
    ensures EndsWith(r, content)
    ensures StartsWith(r, "---\ntitle: " + title + "\n")
  {
    var r := "---\n" + EditMeta(title, editedAt) + "\n---\n\n" + content;
    assert r[|r| - |content|..] == content;
    assert r[..|"---\ntitle: " + title + "\n"|] == "---\ntitle: " + title + "\n";
    r
  }

  lemma TitleLineNoCloser(title: string)
    requires '\n' !in title
    requires !EndsWith(title, "---")
    ensures NoCloserIn("title: " + title + "\n")
  {
    var line := "title: " + title;
    assert '\n' !in line by {
      assert forall i | 0 <= i < |line| :: line[i] == if i < 7 then "title: "[i] else title[i - 7];
    }
    if |title| >= 3 {
      assert line[|line| - 3..] == title[|title| - 3..];
    } else {
      assert line[|line| - 3..][6 - (|line| - 3)] == ' ';
    }
    LineNoCloser(line);
  }

  /**
   * Reading an edited document back strips exactly its front matter when the title holds no line
   * break and does not end in "---".
   */
  lemma StripEdited(title: string, editedAt: string, content: string)
    requires '\n' !in title && '\n' !in editedAt
    requires !EndsWith(title, "---")
    ensures StripFrontMatter(EditText(title, editedAt, content)) == "\n" + content
  {
    var meta := EditMeta(title, editedAt);
    var tn := "title: " + title + "\n";
    var an := QuotedLine("author", "admin") + "\n";
    var cn := QuotedLine("createdAt", editedAt) + "\n";
    TitleLineNoCloser(title);
    QuotedLineNoCloser("author", "admin");
    QuotedLineNoCloser("createdAt", editedAt);
    NoCloserAppend(an, cn);
    NoCloserAppend(tn, an + cn);
    assert meta + "\n" == tn + (an + cn);
    StripWritten(meta, "\n" + content);
    assert EditText(title, editedAt, content) == "---\n" + meta + "\n---\n" + ("\n" + content);
  }

  /**
   * Because the title is written unquoted, a title ending in "---" closes the block early, and
   * reading the document back leaves the rest of the front matter in front of the content.
   */
  lemma StripEditedDashTitle(title: string, editedAt: string, content: string)
    requires EndsWith(title, "---")
    ensures StripFrontMatter(EditText(title, editedAt, content)) != "\n" + content
  {
    var t := EditText(title, editedAt, content);
    var meta := EditMeta(title, editedAt);
    assert t == "---\n" + meta + "\n---\n\n" + content;
    var k := |title| + 8;
    assert t[k..k + 4] == title[|title| - 3..] + "\n";
    assert OccursAt(t, "---\n", k);
    assert StartsWith(t, "---");
    var f := FindFrom(t, "---\n", 3);
    assert f.Some? && f.value <= k;
    assert |meta| > |title| + 20;
  }

  datatype Request = Request(id: string, title: string, slug: string, content: string)

  /** The schema: id, title, slug and content are all non-empty strings. */
  function ParseRequest(id: Field, title: Field, slug: Field, content: Field): (r: Option<Request>)
    ensures r.Some? <==> StrAtLeast(id, 1) && StrAtLeast(title, 1) && StrAtLeast(slug, 1) && StrAtLeast(content, 1)
    ensures r.Some? ==> r.value == Request(id.s, title.s, slug.s, content.s)
  {
    if StrAtLeast(id, 1) && StrAtLeast(title, 1) && StrAtLeast(slug, 1) && StrAtLeast(content, 1)
    then Some(Request(id.s, title.s, slug.s, content.s))
    else None
  }

  datatype Response = Edited(href: string) | InvalidRequest {
    function Status(): nat {
      if Edited? then 200 else 400
    }
  }

  /** The file written below the static documents folder `base`. */
  function EditPath(base: string, slug: string): string {
    var clean := CleanSlug(slug);
    Join(base, clean + DocExt(clean))
  }

  /**
   * POST: validate and overwrite the document, whatever the folder held before; `now` is the
   * edit time in ISO form.
   */
  method Post(folder: DocFolder, base: string, id: Field, title: Field, slug: Field, content: Field, now: string)
      returns (resp: Response)
    modifies folder
    ensures resp == InvalidRequest <==> ParseRequest(id, title, slug, content).None?
    ensures var req := ParseRequest(id, title, slug, content);
            req.Some? ==>
              && resp == Edited("/docs/" + CleanSlug(req.value.slug))
              && folder.files == old(folder.files)[EditPath(base, req.value.slug) :=
                   EditText(req.value.title, now, req.value.content)]
    ensures resp == InvalidRequest ==> folder.files == old(folder.files)
  {
    var req := ParseRequest(id, title, slug, content);
    if req.None? {
      return InvalidRequest;
    }
    var clean := CleanSlug(req.value.slug);
    folder.files := folder.files[Join(base, clean + DocExt(clean)) := EditText(req.value.title, now, req.value.content)];
    return Edited("/docs/" + clean);
  }
}
