/** GET /api/docs: the page list, from the sidebar of docs.json merged with the document files on disk. */
module DocsIndex {
  import opened Wrappers
  import opened Text
  import opened FsTree

  // ---------------------------------------------------------------------------------------------
  // The sidebar

  /** An entry of a group's `pages`: a path, an object with `page` and maybe `title`, or anything else. */
  datatype PageRef = PagePath(path: string) | PageObject(page: Option<string>, title: Option<string>) | NotAPage

  /** An entry of a section's `pages`: a path, or a group with a name and its own pages. */
  datatype GroupEntry = GroupPath(path: string) | Group(name: Option<string>, pages: seq<PageRef>)

  datatype Section = Section(groups: seq<GroupEntry>)

  datatype Page = Page(title: string, href: string, group: Option<string>)

  /** The page a sidebar path stands for: titled by its last segment, linked at "/" + path. */
  function PathPage(path: string, group: Option<string>): (p: Page)
    ensures path != [] ==> p.title != []
    ensures StartsWith(p.href, "/") && p.href[1..] == path
  {
    Page(LastSegmentOr(path), "/" + path, group)
  }

  /** A JavaScript string is truthy when it is not empty. */
  predicate Truthy(s: Option<string>) {
    s.Some? && s.value != []
  }

  /** The pages one entry of a group yields: a path always, an object only with a non-empty `page`. */
  function RefPages(r: PageRef, group: Option<string>): seq<Page> {
    match r
    case PagePath(path) => [PathPage(path, group)]
    case PageObject(page, title) =>
      if Truthy(page) then
        var p := PathPage(page.value, group);
        [if Truthy(title) then p.(title := title.value) else p]
      else []
    case NotAPage => []
  }

  function GroupRefsPages(refs: seq<PageRef>, group: Option<string>): seq<Page> {
    if refs == [] then []
    else GroupRefsPages(refs[..|refs| - 1], group) + RefPages(refs[|refs| - 1], group)
  }

  function EntryPages(g: GroupEntry): seq<Page> {
    match g
    case GroupPath(path) => [PathPage(path, None)]
    case Group(name, refs) => GroupRefsPages(refs, name)
  }

  function SectionPages(groups: seq<GroupEntry>): seq<Page> {
    if groups == [] then []
    else SectionPages(groups[..|groups| - 1]) + EntryPages(groups[|groups| - 1])
  }

  /** The pages of the whole sidebar, section by section, entry by entry. */
  function SidebarPages(sidebar: seq<Section>): seq<Page> {
    if sidebar == [] then []
    else SidebarPages(sidebar[..|sidebar| - 1]) + SectionPages(sidebar[|sidebar| - 1].groups)
  }

  /** Every page links below "/" and has a title unless its path is empty. */
  ghost predicate WellLinked(ps: seq<Page>) {
    forall p | p in ps :: StartsWith(p.href, "/") && (|p.href| > 1 ==> p.title != [])
  }

  lemma WellLinkedAppend(a: seq<Page>, b: seq<Page>)
    requires WellLinked(a) && WellLinked(b)
    ensures WellLinked(a + b)
  {
  }

  lemma RefPagesWellLinked(r: PageRef, group: Option<string>)
    ensures WellLinked(RefPages(r, group)) && |RefPages(r, group)| <= 1
  {
    match r
    case PagePath(path) =>
      SinglePageWellLinked(PathPage(path, group));
    case PageObject(page, title) =>
      if Truthy(page) {
        var p := PathPage(page.value, group);
        SinglePageWellLinked(if Truthy(title) then p.(title := title.value) else p);
      }
    case NotAPage =>
  }

  lemma SinglePageWellLinked(p: Page)
    requires StartsWith(p.href, "/") && (|p.href| > 1 ==> p.title != [])
    ensures WellLinked([p])
  {
  }

  lemma {:induction false} GroupRefsWellLinked(refs: seq<PageRef>, group: Option<string>)
    ensures WellLinked(GroupRefsPages(refs, group))
    ensures |GroupRefsPages(refs, group)| <= |refs|
  {
    if refs != [] {
      GroupRefsWellLinked(refs[..|refs| - 1], group);
      RefPagesWellLinked(refs[|refs| - 1], group);
      WellLinkedAppend(GroupRefsPages(refs[..|refs| - 1], group), RefPages(refs[|refs| - 1], group));
    }
  }

  lemma {:induction false} SectionWellLinked(groups: seq<GroupEntry>)
    ensures WellLinked(SectionPages(groups))
  {
    if groups != [] {
      SectionWellLinked(groups[..|groups| - 1]);
      match groups[|groups| - 1] {
        case GroupPath(path) =>
        case Group(name, refs) => GroupRefsWellLinked(refs, name);
      }
      WellLinkedAppend(SectionPages(groups[..|groups| - 1]), EntryPages(groups[|groups| - 1]));
    }
  }

  /** Every page taken from the sidebar links below "/" and has a title unless its path is empty. */
  lemma {:induction false} SidebarWellLinked(sidebar: seq<Section>)
    ensures WellLinked(SidebarPages(sidebar))
  {
    if sidebar != [] {
      SidebarWellLinked(sidebar[..|sidebar| - 1]);
      SectionWellLinked(sidebar[|sidebar| - 1].groups);
      WellLinkedAppend(SidebarPages(sidebar[..|sidebar| - 1]), SectionPages(sidebar[|sidebar| - 1].groups));
    }
  }

  lemma GroupRefsStep(refs: seq<PageRef>, l: nat, group: Option<string>)
    requires l < |refs|
    ensures GroupRefsPages(refs[..l + 1], group) == GroupRefsPages(refs[..l], group) + RefPages(refs[l], group)
  {
    assert refs[..l + 1][..l] == refs[..l];
  }

  /** The innermost loop: the entries of one group. */
  method FlattenGroup(refs: seq<PageRef>, name: Option<string>) returns (pages: seq<Page>)
    ensures pages == GroupRefsPages(refs, name)
  {
    pages := [];
    var l := 0;
    while l < |refs|
      invariant l <= |refs|
      invariant pages == GroupRefsPages(refs[..l], name)
    {
      GroupRefsStep(refs, l, name);
      pages := pages + RefPages(refs[l], name);
      l := l + 1;
    }
    assert refs[..l] == refs;
  }

  /** The middle loop: the entries of one section. */
  method FlattenSection(groups: seq<GroupEntry>) returns (pages: seq<Page>)
    ensures pages == SectionPages(groups)
  {
    pages := [];
    var j := 0;
    while j < |groups|
      invariant j <= |groups|
      invariant pages == SectionPages(groups[..j])
    {
      assert groups[..j + 1][..j] == groups[..j];
      match groups[j] {
        case GroupPath(path) =>
          pages := pages + [PathPage(path, None)];
        case Group(name, refs) =>
          var more := FlattenGroup(refs, name);
          pages := pages + more;
      }
      j := j + 1;
    }
    assert groups[..j] == groups;
  }

  /** The outer loop over the sidebar's sections. */
  method Flatten(sidebar: seq<Section>) returns (pages: seq<Page>)
    ensures pages == SidebarPages(sidebar)
  {
    pages := [];
    var i := 0;
    while i < |sidebar|
      invariant i <= |sidebar|
      invariant pages == SidebarPages(sidebar[..i])
    {
      assert sidebar[..i + 1][..i] == sidebar[..i];
      var more := FlattenSection(sidebar[i].groups);
      pages := pages + more;
      i := i + 1;
    }
    assert sidebar[..i] == sidebar;
  }

  /** The pages listed when docs.json cannot be read or parsed. */
  const FallbackPages: seq<Page> := [
    Page("Introduction", "/docs/guides/introduction", None),
    Page("Quickstart", "/docs/guides/quickstart", None)
  ]

  datatype DocsJson = Unreadable | Parsed(sidebar: seq<Section>)

  // ---------------------------------------------------------------------------------------------
  // Pages from the files on disk

  /** `rel.replace(/\.(md|mdx)$/i, "")`. */
  function StripDocExt(rel: string): (r: string)
    ensures |r| <= |rel| && r == rel[..|r|]
    ensures EndsWith(ToLower(rel), ".md") ==> |r| == |rel| - 3
    ensures EndsWith(ToLower(rel), ".mdx") ==> |r| == |rel| - 4
    ensures !EndsWith(ToLower(rel), ".md") && !EndsWith(ToLower(rel), ".mdx") ==> r == rel
  {
    var lower := ToLower(rel);
    assert EndsWith(lower, ".md") ==> !EndsWith(lower, ".mdx") by {
      if |lower| >= 4 {
        assert lower[|lower| - 3..][2] == lower[|lower| - 1] == lower[|lower| - 4..][3];
      }
    }
    if EndsWith(ToLower(rel), ".md") then rel[..|rel| - 3]
    else if EndsWith(ToLower(rel), ".mdx") then rel[..|rel| - 4]
    else rel
  }

  /** `s.replace(/\\/g, "/")`. */
  function ForwardSlashes(s: string): (r: string)
    ensures |r| == |s|
    ensures '\\' !in r
    ensures forall i | 0 <= i < |s| :: r[i] == if s[i] == '\\' then '/' else s[i]
  {
    seq(|s|, i requires 0 <= i < |s| => if s[i] == '\\' then '/' else s[i])
  }

  /** The page a document file stands for: linked at "/docs/" + its path without extension. */
  function FilePage(rel: string): (p: Page)
    ensures StartsWith(p.href, "/docs/")
    ensures '\\' !in rel ==> p.href == "/docs/" + StripDocExt(rel)
    ensures p.group.None?
  {
    var noExt := StripDocExt(rel);
    assert '\\' !in noExt ==> ForwardSlashes(noExt) == noExt;
    Page(LastSegmentOr(noExt), "/docs/" + ForwardSlashes(noExt), None)
  }

  function FilePages(files: seq<string>): (ps: seq<Page>)
    ensures |ps| == |files|
    ensures forall i | 0 <= i < |files| :: ps[i] == FilePage(files[i])
  {
    seq(|files|, i requires 0 <= i < |files| => FilePage(files[i]))
  }

  lemma PathsCons(e: Entry, rest: seq<Entry>, base: string)
    ensures DocPaths([e] + rest, base) == DocPaths([e], base) + DocPaths(rest, base)
    ensures AllReadable([e] + rest) == (AllReadable([e]) && AllReadable(rest))
  {
    assert ([e] + rest)[0] == e && ([e] + rest)[1..] == rest;
    assert [e][0] == e && [e][1..] == [];
  }

  lemma {:induction false} PathsAppend(a: seq<Entry>, b: seq<Entry>, base: string)
    ensures DocPaths(a + b, base) == DocPaths(a, base) + DocPaths(b, base)
    ensures AllReadable(a + b) == (AllReadable(a) && AllReadable(b))
  {
    if a == [] {
      assert a + b == b;
    } else {
      var e, t := a[0], a[1..];
      assert a == [e] + t && a + b == [e] + (t + b);
      PathsCons(e, t + b, base);
      PathsCons(e, t, base);
      PathsAppend(t, b, base);
    }
  }

  lemma PathsStep(es: seq<Entry>, i: nat, base: string)
    requires i < |es|
    ensures DocPaths(es[..i + 1], base) == DocPaths(es[..i], base) + DocPaths([es[i]], base)
    ensures AllReadable(es[..i + 1]) == (AllReadable(es[..i]) && AllReadable([es[i]]))
  {
    assert es[..i + 1] == es[..i] + [es[i]];
    PathsAppend(es[..i], [es[i]], base);
  }

  /** What one listing entry contributes to the walk. */
  lemma SingleEntry(e: Entry, base: string)
    ensures e.Dir? ==> DocPaths([e], base) == DocPaths(e.entries, Join(base, e.name))
                       && AllReadable([e]) == (e.readable && AllReadable(e.entries))
    ensures e.File? ==> DocPaths([e], base) == (if IsDocName(e.name) then [Join(base, e.name)] else [])
                        && AllReadable([e])
    ensures e.Other? ==> DocPaths([e], base) == [] && AllReadable([e])
  {
    assert [e][0] == e && [e][1..] == [];
  }

  /**
   * `walk`: the document files below a directory, relative to `base`, in listing order; None
   * when some directory cannot be listed (the exception that skips the whole folder).
   */
  method Walk(readable: bool, es: seq<Entry>, base: string) returns (r: Option<seq<string>>)
    ensures r.Some? <==> readable && AllReadable(es)
    ensures r.Some? ==> r.value == DocPaths(es, base)
    decreases es
  {
    if !readable {
      return None;
    }
    var result := [];
    var i := 0;
    while i < |es|
      invariant i <= |es|
      invariant AllReadable(es[..i])
      invariant result == DocPaths(es[..i], base)
    {
      PathsStep(es, i, base);
      SingleEntry(es[i], base);
      match es[i] {
        case Dir(name, dirReadable, sub) =>
          var below := Walk(dirReadable, sub, Join(base, name));
          if below.None? {
            assert es == es[..i + 1] + es[i + 1..];
            PathsAppend(es[..i + 1], es[i + 1..], base);
            return None;
          }
          result := result + below.value;
        case File(name) =>
          if IsDocName(name) {
            result := result + [Join(base, name)];
          }
        case Other(_) =>
      }
      i := i + 1;
    }
    assert es[..i] == es;
    return Some(result);
  }

  // ---------------------------------------------------------------------------------------------
  // Merging unique by href

  function HrefSet(ps: seq<Page>): set<string> {
    set p | p in ps :: p.href
  }

  /**
   * The merge: existing pages stay as they are, in order; a file page is appended only when no
   * page so far has its href.
   */
  function Merge(pages: seq<Page>, files: seq<Page>): (r: seq<Page>)
    ensures |pages| <= |r| <= |pages| + |files| && r[..|pages|] == pages
    ensures forall i | |pages| <= i < |r| :: r[i] in files
    ensures forall i, j | 0 <= i < j < |r| && |pages| <= j :: r[i].href != r[j].href
    ensures forall f | f in files :: f.href in HrefSet(r)
    ensures HrefSet(r) == HrefSet(pages) + HrefSet(files)
  {
    if files == [] then pages
    else
      var m := Merge(pages, files[..|files| - 1]);
      var f := files[|files| - 1];
      assert files == files[..|files| - 1] + [f];
      if f.href in HrefSet(m) then
        MergeSkips(pages, files[..|files| - 1], f, m);
        m
      else
        MergeAppends(pages, files[..|files| - 1], f, m);
        m + [f]
  }

  /** The five promises of Merge, bundled for its step lemmas. */
  ghost predicate Merged(pages: seq<Page>, files: seq<Page>, r: seq<Page>) {
    && |pages| <= |r| <= |pages| + |files| && r[..|pages|] == pages
    && (forall i | |pages| <= i < |r| :: r[i] in files)
    && (forall i, j | 0 <= i < j < |r| && |pages| <= j :: r[i].href != r[j].href)
    && (forall f | f in files :: f.href in HrefSet(r))
    && HrefSet(r) == HrefSet(pages) + HrefSet(files)
  }

  lemma MergeSkips(pages: seq<Page>, files: seq<Page>, f: Page, m: seq<Page>)
    requires Merged(pages, files, m) && f.href in HrefSet(m)
    ensures Merged(pages, files + [f], m)
  {
    forall g | g in files + [f] ensures g.href in HrefSet(m) {
      if g != f { assert g in files; }
    }
  }

  lemma MergeAppends(pages: seq<Page>, files: seq<Page>, f: Page, m: seq<Page>)
    requires Merged(pages, files, m) && f.href !in HrefSet(m)
    ensures Merged(pages, files + [f], m + [f])
  {
    var r := m + [f];
    assert r[..|pages|] == pages by {
      assert r[..|pages|] == m[..|pages|];
    }
    forall i | 0 <= i < |m| ensures r[i].href != f.href {
      assert m[i] in m;
    }
    forall g | g in files + [f] ensures g.href in HrefSet(r) {
      if g != f { assert g in files; }
    }
    assert HrefSet(r) == HrefSet(m) + {f.href};
  }


  /** The loop over the file pages with its `seen` set of hrefs. */
  method MergeUnique(pages: seq<Page>, files: seq<Page>) returns (r: seq<Page>)
    ensures r == Merge(pages, files)
  {
    r := pages;
    var seen := set p | p in pages :: p.href;
    var i := 0;
    while i < |files|
      invariant i <= |files|
      invariant r == Merge(pages, files[..i])
      invariant seen == HrefSet(r)
    {
      assert files[..i + 1][..i] == files[..i];
      var f := files[i];
      if f.href !in seen {
        r := r + [f];
        seen := seen + {f.href};
      }
      i := i + 1;
    }
    assert files[..i] == files;
  }

  // ---------------------------------------------------------------------------------------------
  // The handler

  /** One of the two folders scanned for files: whether it can be listed, and what it holds. */
  datatype ScanDir = ScanDir(readable: bool, entries: seq<Entry>)

  function BasePages(json: DocsJson): seq<Page> {
    match json
    case Unreadable => FallbackPages
    case Parsed(sidebar) => SidebarPages(sidebar)
  }

  /** The page list after merging the files of each folder in turn; a folder that fails is skipped. */
  function Index(json: DocsJson, dirs: seq<ScanDir>): seq<Page> {
    if dirs == [] then BasePages(json)
    else
      var before := Index(json, dirs[..|dirs| - 1]);
      var d := dirs[|dirs| - 1];
      if d.readable && AllReadable(d.entries) then Merge(before, FilePages(DocPaths(d.entries, ""))) else before
  }

  /** The sidebar (or fallback) pages stay first, unchanged; the index only grows by merging. */
  lemma {:induction false} IndexKeepsBase(json: DocsJson, dirs: seq<ScanDir>)
    ensures var idx := Index(json, dirs);
            |BasePages(json)| <= |idx| && idx[..|BasePages(json)|] == BasePages(json)
  {
    if dirs != [] {
      IndexKeepsBase(json, dirs[..|dirs| - 1]);
      var before := Index(json, dirs[..|dirs| - 1]);
      var base := BasePages(json);
      var d := dirs[|dirs| - 1];
      if d.readable && AllReadable(d.entries) {
        var m := Merge(before, FilePages(DocPaths(d.entries, "")));
        PrefixOfPrefix(m, before, base);
      }
    }
  }

  lemma PrefixOfPrefix<T>(s: seq<T>, p: seq<T>, q: seq<T>)
    requires |q| <= |p| <= |s| && s[..|p|] == p && p[..|q|] == q
    ensures s[..|q|] == q
  {
    assert s[..|q|] == s[..|p|][..|q|];
  }

  /** Each page appended from the files has an href that no earlier page has. */
  lemma {:induction false} IndexAppendsNew(json: DocsJson, dirs: seq<ScanDir>)
    ensures var idx := Index(json, dirs);
            forall i, j | 0 <= i < j < |idx| && |BasePages(json)| <= j :: idx[i].href != idx[j].href
  {
    if dirs != [] {
      IndexAppendsNew(json, dirs[..|dirs| - 1]);
      IndexKeepsBase(json, dirs[..|dirs| - 1]);
      var base := BasePages(json);
      var before := Index(json, dirs[..|dirs| - 1]);
      var d := dirs[|dirs| - 1];
      if d.readable && AllReadable(d.entries) {
        var idx := Merge(before, FilePages(DocPaths(d.entries, "")));
        forall i, j | 0 <= i < j < |idx| && |base| <= j
          ensures idx[i].href != idx[j].href
        {
          if j < |before| {
            assert idx[i] == idx[..|before|][i] == before[i];
            assert idx[j] == idx[..|before|][j] == before[j];
          }
        }
      }
    }
  }

  /** GET: read the sidebar (or fall back), then scan the static and the user folder. */
  method Get(json: DocsJson, dirs: seq<ScanDir>) returns (pages: seq<Page>)
    ensures pages == Index(json, dirs)
  {
    match json {
      case Unreadable => pages := FallbackPages;
      case Parsed(sidebar) => pages := Flatten(sidebar);
    }
    var i := 0;
    while i < |dirs|
      invariant i <= |dirs|
      invariant pages == Index(json, dirs[..i])
    {
      assert dirs[..i + 1][..i] == dirs[..i];
      var files := Walk(dirs[i].readable, dirs[i].entries, "");
      if files.Some? {
        pages := MergeUnique(pages, FilePages(files.value));
      }
      i := i + 1;
    }
    assert dirs[..i] == dirs;
  }
}
