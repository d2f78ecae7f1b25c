/** GET /api/doc-meta: modification time, first heading and a short excerpt of a user document. */
module DocMeta {
  import opened Wrappers
  import opened Text
  import opened DocPaths
  import NewDoc

  /** `^` under the `m` flag matches at index `p`: the start, or just after a line terminator. */
  predicate LineStart(s: string, p: nat) {
    p == 0 || (0 < p <= |s| && IsLineTerminator(s[p - 1]))
  }

  /** Where `$` under the `m` flag first matches at or after `i`: the next line terminator, or the end. */
  function LineEnd(s: string, i: nat): (e: nat)
    requires i <= |s|
    ensures i <= e <= |s|
    ensures forall j | i <= j < e :: !IsLineTerminator(s[j])
    ensures e < |s| ==> IsLineTerminator(s[e])
    decreases |s| - i
  {
    if i < |s| && !IsLineTerminator(s[i]) then LineEnd(s, i + 1) else i
  }

  // ---------------------------------------------------------------------------------------------
  // The first heading: `(content.match(/^#\s+(.+)$/m) || [])[1] || ''`

  /**
   * `#\s+(.+)$` matches at `p` with the group starting at `e`: '#', at least one white-space
   * character, then a character that is not a line terminator (the group then runs to the line end).
   */
  ghost predicate HeadingAt(s: string, p: nat, e: nat) {
    && p + 1 < e < |s|
    && s[p] == '#'
    && (forall j | p + 1 <= j < e :: IsSpace(s[j]))
    && !IsLineTerminator(s[e])
  }

  /** The last index in [lo, hi) holding a character that is not a line terminator. */
  function LastNonBreak(s: string, lo: nat, hi: nat): (r: Option<nat>)
    requires lo <= hi <= |s|
    ensures r.Some? ==> lo <= r.value < hi && !IsLineTerminator(s[r.value])
    ensures r.Some? ==> forall j | r.value < j < hi :: IsLineTerminator(s[j])
    ensures r.None? ==> forall j | lo <= j < hi :: IsLineTerminator(s[j])
    decreases hi - lo
  {
    if lo == hi then None
    else if !IsLineTerminator(s[hi - 1]) then Some(hi - 1)
    else LastNonBreak(s, lo, hi - 1)
  }

  /**
   * The group of `#\s+(.+)$` tried at `p`. The greedy `\s+` takes every white-space character
   * and gives back only as many as `.+` needs, so the group starts as late as it can.
   */
  function GroupAt(s: string, p: nat): (r: Option<string>)
    requires p < |s|
    ensures r.Some? <==> exists e: nat :: HeadingAt(s, p, e)
    ensures r.Some? ==> r.value != []
    ensures r.Some? ==> exists e: nat :: && HeadingAt(s, p, e) && r.value == s[e..LineEnd(s, e)]
                                    && forall e': nat | HeadingAt(s, p, e') :: e' <= e
  {
    if s[p] != '#' then None
    else
      var e := SkipSpace(s, p + 1);
      if e == p + 1 then
        assert p + 1 == |s| || !IsSpace(s[p + 1]);
        None
      else if e < |s| then
        assert HeadingAt(s, p, e);
        assert !IsSpace(s[e]);
        Some(s[e..LineEnd(s, e)])
      else
        match LastNonBreak(s, p + 2, e)
        case None =>
          assert forall e': nat | HeadingAt(s, p, e') :: p + 2 <= e' < e;
          None
        case Some(g) =>
          assert HeadingAt(s, p, g);
          Some(s[g..LineEnd(s, g)])
  }

  /** No heading match starts at a line start in [lo, hi). */
  ghost predicate NoHeadingIn(s: string, lo: nat, hi: nat) {
    forall q: nat, e: nat | lo <= q < hi && LineStart(s, q) :: !HeadingAt(s, q, e)
  }

  /**
   * The regular expression's match, searched from `p`: the first line start with a heading match,
   * and at it the group that starts latest.
   */
  ghost predicate FirstMatchAt(s: string, p: nat, q: nat, e: nat) {
    && p <= q
    && LineStart(s, q)
    && HeadingAt(s, q, e)
    && NoHeadingIn(s, p, q)
    && forall e': nat | HeadingAt(s, q, e') :: e' <= e
  }

  lemma NoHeadingJoin(s: string, lo: nat, mid: nat, hi: nat)
    requires lo <= mid <= hi
    requires NoHeadingIn(s, lo, mid)
    ensures NoHeadingIn(s, lo, hi) <==> NoHeadingIn(s, mid, hi)
  {
  }

  lemma FirstMatchFrom(s: string, lo: nat, mid: nat)
    requires lo <= mid && NoHeadingIn(s, lo, mid)
    ensures forall q: nat, e: nat | FirstMatchAt(s, mid, q, e) :: FirstMatchAt(s, lo, q, e)
  {
  }

  /** The first heading group at a line start at or after `p`, or "" when there is none. */
  function HeadingFrom(s: string, p: nat): (r: string)
    requires p <= |s| && LineStart(s, p)
    ensures r == [] <==> NoHeadingIn(s, p, |s|)
    ensures r != [] ==> exists q: nat, e: nat :: FirstMatchAt(s, p, q, e) && r == s[e..LineEnd(s, e)]
    decreases |s| - p
  {
    if p == |s| then []
    else match GroupAt(s, p)
      case Some(g) =>
        assert exists e: nat :: FirstMatchAt(s, p, p, e) && g == s[e..LineEnd(s, e)] by {
          var e: nat :| && HeadingAt(s, p, e) && g == s[e..LineEnd(s, e)]
                        && forall e': nat | HeadingAt(s, p, e') :: e' <= e;
          assert NoHeadingIn(s, p, p);
          assert FirstMatchAt(s, p, p, e);
        }
        g
      case None =>
        var k := LineEnd(s, p);
        assert forall q: nat | p < q <= k :: !LineStart(s, q) by {
          forall q: nat | p < q <= k ensures !LineStart(s, q) {
            assert !IsLineTerminator(s[q - 1]);
          }
        }
        assert NoHeadingIn(s, p, k + 1);
        if k == |s| then []
        else
          NoHeadingJoin(s, p, k + 1, |s|);
          FirstMatchFrom(s, p, k + 1);
          HeadingFrom(s, k + 1)
  }

  /** The page title: the first heading's text, or "". */
  function FirstHeading(content: string): (r: string)
    ensures r == [] <==> NoHeadingIn(content, 0, |content|)
    ensures r != [] ==> exists q: nat, e: nat :: FirstMatchAt(content, 0, q, e) && r == content[e..LineEnd(content, e)]
    ensures forall c | c in r :: !IsLineTerminator(c)
  {
    var r := HeadingFrom(content, 0);
    assert forall c | c in r :: !IsLineTerminator(c) by {
      if r != [] {
        var q: nat, e: nat :| FirstMatchAt(content, 0, q, e) && r == content[e..LineEnd(content, e)];
        LineSliceClean(content, e);
      }
    }
    r
  }

  /** The text from `e` to the end of its line holds no line terminator. */
  lemma LineSliceClean(s: string, e: nat)
    requires e <= |s|
    ensures forall c | c in s[e..LineEnd(s, e)] :: !IsLineTerminator(c)
  {
    var t := s[e..LineEnd(s, e)];
    forall c | c in t ensures !IsLineTerminator(c) {
      var i :| 0 <= i < |t| && t[i] == c;
      assert c == s[e + i];
    }
  }

  /** A line "# " + t followed by a line break gives the group `t`. */
  lemma GroupOfTitleLine(s: string, p: nat, t: string)
    requires t != [] && !IsSpace(t[0]) && forall c | c in t :: !IsLineTerminator(c)
    requires p + 2 + |t| < |s| && s[p..p + 2 + |t| + 1] == "# " + t + "\n"
    ensures GroupAt(s, p) == Some(t)
  {
    var line := "# " + t + "\n";
    var stop := p + 2 + |t|;
    assert forall j | 0 <= j < |line| :: s[p + j] == line[j] by {
      forall j | 0 <= j < |line| ensures s[p + j] == line[j] {
        assert s[p..stop + 1][j] == s[p + j];
      }
    }
    assert forall i | 0 <= i < |t| :: s[p + 2 + i] == t[i] by {
      forall i | 0 <= i < |t| ensures s[p + 2 + i] == t[i] {
        assert line[2 + i] == t[i];
      }
    }
    assert s[p] == '#' && s[p + 1] == ' ' && s[p + 2] == t[0] && s[stop] == '\n' by {
      assert line[0] == '#' && line[1] == ' ' && line[2] == t[0] && line[|line| - 1] == '\n';
    }
    assert SkipSpace(s, p + 1) == p + 2;
    assert forall j | p + 2 <= j < stop :: !IsLineTerminator(s[j]) by {
      forall j | p + 2 <= j < stop ensures !IsLineTerminator(s[j]) {
        assert s[j] == t[j - p - 2];
        assert t[j - p - 2] in t;
      }
    }
    var e := LineEnd(s, p + 2);
    assert e == stop;
    assert s[p + 2..stop] == t;
  }

  /** A document opening with the line "# " + t is titled t. */
  lemma TitleLineHeading(t: string, rest: string)
    requires t != [] && !IsSpace(t[0]) && forall c | c in t :: !IsLineTerminator(c)
    ensures FirstHeading("# " + t + "\n" + rest) == t
  {
    var s := "# " + t + "\n" + rest;
    assert s[0..2 + |t| + 1] == "# " + t + "\n";
    GroupOfTitleLine(s, 0, t);
  }

  /** Text that opens with an empty line and then the line "# " + t is titled t. */
  lemma BlankThenTitle(t: string, rest: string)
    requires t != [] && !IsSpace(t[0]) && forall c | c in t :: !IsLineTerminator(c)
    ensures FirstHeading("\n" + rest) == t
    requires StartsWith(rest, "# " + t + "\n")
  {
    var s := "\n" + rest;
    assert s[1..1 + 2 + |t| + 1] == "# " + t + "\n";
    GroupOfTitleLine(s, 1, t);
    assert HeadingFrom(s, 1) == t;
    assert GroupAt(s, 0).None?;
    assert LineEnd(s, 0) == 0;
    assert HeadingFrom(s, 0) == HeadingFrom(s, 1);
  }

  /**
   * A document created with content "# " + t + ... is titled t once its front matter is stripped,
   * whatever the front-matter values are, as long as they hold no line break.
   */
  lemma CreatedDocTitle(title: string, author: Option<string>, createdAt: string, t: string, rest: string)
    requires '\n' !in title && '\n' !in createdAt
    requires author.Some? ==> '\n' !in author.value
    requires t != [] && !IsSpace(t[0]) && forall c | c in t :: !IsLineTerminator(c)
    ensures FirstHeading(StripFrontMatter(NewDoc.DocText(title, author, createdAt, "# " + t + "\n" + rest))) == t
  {
    var content := "# " + t + "\n" + rest;
    NewDoc.StripCreated(title, author, createdAt, content);
    var body := content + "\n";
    assert body[..|"# " + t + "\n"|] == "# " + t + "\n";
    BlankThenTitle(t, body);
    assert "\n" + content + "\n" == "\n" + body;
  }

  // ---------------------------------------------------------------------------------------------
  // The excerpt: `content.replace(/^#.*$/m, '').trim().slice(0, 160)`

  /** The first line start at or after `p` whose line begins with '#'. */
  function HashLine(s: string, p: nat): (r: Option<nat>)
    requires p <= |s| && LineStart(s, p)
    ensures r.Some? ==> p <= r.value < |s| && LineStart(s, r.value) && s[r.value] == '#'
    ensures forall q: nat | p <= q < (if r.Some? then r.value else |s|) && LineStart(s, q) :: s[q] != '#'
    decreases |s| - p
  {
    if p == |s| then None
    else if s[p] == '#' then Some(p)
    else
      var k := LineEnd(s, p);
      assert forall q: nat | p < q <= k :: !LineStart(s, q) by {
        forall q: nat | p < q <= k ensures !LineStart(s, q) {
          assert !IsLineTerminator(s[q - 1]);
        }
      }
      if k == |s| then None else HashLine(s, k + 1)
  }

  /** `s.replace(/^#.*$/m, '')`: the text of the first line beginning with '#' is removed; its line break stays. */
  function RemoveHashLine(s: string): string {
    match HashLine(s, 0)
    case None => s
    case Some(q) => s[..q] + s[LineEnd(s, q)..]
  }

  /** At most 160 characters from the start of the trimmed text with its first '#'-line removed. */
  function Excerpt(content: string): (r: string)
    ensures |r| <= 160
    ensures var full := Trim(RemoveHashLine(content)); |r| <= |full| && r == full[..|r|] && (|r| < 160 ==> r == full)
  {
    var full := Trim(RemoveHashLine(content));
    if |full| <= 160 then full else full[..160]
  }

  lemma {:induction false} SkipSpaceShift(c: char, x: string, i: nat)
    requires i <= |x|
    ensures SkipSpace([c] + x, i + 1) == SkipSpace(x, i) + 1
    decreases |x| - i
  {
    assert ([c] + x)[i + 1..] == x[i..];
    if i < |x| {
      assert ([c] + x)[i + 1] == x[i];
      if IsSpace(x[i]) {
        SkipSpaceShift(c, x, i + 1);
      }
    }
  }

  /** Trimming ignores a leading white-space character. */
  lemma TrimLeadingSpace(c: char, x: string)
    requires IsSpace(c)
    ensures Trim([c] + x) == Trim(x)
  {
    SkipSpaceShift(c, x, 0);
    var k := SkipSpace(x, 0);
    assert ([c] + x)[k + 1..] == x[k..];
  }

  /** A document opening with its title line has an excerpt made of the rest only. */
  lemma ExcerptSkipsTitle(t: string, rest: string)
    requires forall c | c in t :: !IsLineTerminator(c)
    ensures var full := Trim(rest);
            Excerpt("# " + t + "\n" + rest) == if |full| <= 160 then full else full[..160]
  {
    var s := "# " + t + "\n" + rest;
    var stop := 2 + |t|;
    assert s[stop] == '\n';
    var e := LineEnd(s, 0);
    assert forall j | 2 <= j < stop :: !IsLineTerminator(s[j]) by {
      forall j | 2 <= j < stop ensures !IsLineTerminator(s[j]) {
        assert s[j] == t[j - 2];
        assert t[j - 2] in t;
      }
    }
    assert e == stop;
    assert RemoveHashLine(s) == ['\n'] + rest by {
      assert HashLine(s, 0) == Some(0);
      assert s[e..] == ['\n'] + rest;
    }
    TrimLeadingSpace('\n', rest);
  }

  // ---------------------------------------------------------------------------------------------
  // The handler

  datatype Response = Meta(mtime: int, title: string, excerpt: string) | NotFound | ReadFailed {
    function Status(): nat {
      match this
      case Meta(_, _, _) => 200
      case NotFound => 404
      case ReadFailed => 500
    }
  }

  /** Reads the metadata of the file found at `path`; a directory cannot be read. */
  method ReadMeta(path: string, isDir: string -> bool, read: string -> string, mtime: string -> int)
    returns (resp: Response)
    ensures isDir(path) ==> resp == ReadFailed
    ensures !isDir(path) ==> var content := StripFrontMatter(read(path));
                             resp == Meta(mtime(path), FirstHeading(content), Excerpt(content))
  {
    if isDir(path) {
      return ReadFailed;
    }
    var content := StripFrontMatter(read(path));
    return Meta(mtime(path), FirstHeading(content), Excerpt(content));
  }

  /**
   * GET: look in the user folder `base` only; `present`, `isDir`, `read` and `mtime` stand for
   * `fs.access`, the directory case of `fs.readFile`, `fs.readFile` and `fs.stat`.
   */
  method Get(slug: Option<string>, base: string, present: string -> bool, isDir: string -> bool,
             read: string -> string, mtime: string -> int) returns (resp: Response)
    ensures var hit := FirstPresent(Candidates(base, CleanSlug(slug.GetOr(""))), present);
            hit.None? ==> resp == NotFound
    ensures var hit := FirstPresent(Candidates(base, CleanSlug(slug.GetOr(""))), present);
            hit.Some? && isDir(hit.value) ==> resp == ReadFailed
    ensures var hit := FirstPresent(Candidates(base, CleanSlug(slug.GetOr(""))), present);
            hit.Some? && !isDir(hit.value) ==>
              var content := StripFrontMatter(read(hit.value));
              resp == Meta(mtime(hit.value), FirstHeading(content), Excerpt(content))
  {
    var paths := Candidates(base, CleanSlug(slug.GetOr("")));
    var hit := Locate(paths, present);
    if hit.None? {
      return NotFound;
    }
    resp := ReadMeta(hit.value, isDir, read, mtime);
  }
}
