/**
 * Slug cleanup, extension choice, front-matter stripping and the ordered search over candidate
 * files, shared by the document handlers (new, edit, doc-file, doc-meta).
 */
module DocPaths {
  import opened Wrappers
  import opened Text
  import opened FsTree

  /** `slug.replace(/^\/+/, '').replace(/^docs\//, '')`. */
  function CleanSlug(slug: string): (r: string)
    ensures |r| <= |slug| && r == slug[|slug| - |r|..]
    ensures StartsWith(StripLeadingSlashes(slug), "docs/") ==> StripLeadingSlashes(slug) == "docs/" + r
    ensures !StartsWith(StripLeadingSlashes(slug), "docs/") ==> r == StripLeadingSlashes(slug) && (r == [] || r[0] != '/')
  {
    var s := StripLeadingSlashes(slug);
    var r := DropPrefix(s, "docs/");
    assert StartsWith(s, "docs/") ==> r == s[5..];
    r
  }

  /** ".mdx" unless the name already ends in ".md" or ".mdx". */
  function DocExt(name: string): (ext: string)
    ensures ext == [] <==> IsDocName(name)
    ensures IsDocName(name + ext)
  {
    if IsDocName(name) then [] else
      var full := name + ".mdx";
      assert full[|full| - 4..] == ".mdx";
      ".mdx"
  }

  // ---------------------------------------------------------------------------------------------
  // Front matter

  /**
   * A leading front-matter block of `raw` ends just before index `n`: `raw` starts with "---", and
   * `n - 4` is the first place at or after index 3 where "---\n" occurs.
   */
  ghost predicate BlockEndsAt(raw: string, n: nat) {
    && StartsWith(raw, "---")
    && 7 <= n
    && OccursAt(raw, "---\n", n - 4)
    && forall k | 3 <= k < n - 4 :: !OccursAt(raw, "---\n", k)
  }

  /** `raw.replace(/^---[\s\S]*?---\n/, '')`: drop a leading front-matter block, if there is one. */
  function StripFrontMatter(raw: string): (r: string)
    ensures |r| <= |raw| && r == raw[|raw| - |r|..]
    ensures |r| < |raw| ==> BlockEndsAt(raw, |raw| - |r|)
    ensures |r| == |raw| ==> !StartsWith(raw, "---") || forall k | 3 <= k :: !OccursAt(raw, "---\n", k)
  {
    if StartsWith(raw, "---") then
      match FindFrom(raw, "---\n", 3)
      case Some(j) => raw[j + 4..]
      case None => raw
    else raw
  }

  /** Text that does not start with "---" comes back unchanged. */
  lemma StripWithoutBlock(raw: string)
    requires !StartsWith(raw, "---")
    ensures StripFrontMatter(raw) == raw
  {
  }

  /** "---\n", which closes a front-matter block, occurs nowhere in `t`. */
  ghost predicate NoCloserIn(t: string) {
    forall k: nat :: !OccursAt(t, "---\n", k)
  }

  /** "---\n" does not occur in the block's body followed by its line break. */
  ghost predicate NoCloser(meta: string) {
    NoCloserIn(meta + "\n")
  }

  /** One line of front matter closes the block only if it is "---" or ends in it. */
  lemma LineNoCloser(line: string)
    requires '\n' !in line
    requires !EndsWith(line, "---")
    ensures NoCloserIn(line + "\n")
  {
    var t := line + "\n";
    forall k: nat
      ensures !OccursAt(t, "---\n", k)
    {
      if k + 4 <= |t| {
        if k + 3 < |line| {
          assert t[k..k + 4][3] == line[k + 3];
          assert line[k + 3] in line;
        } else {
          assert t[k..k + 3] == line[|line| - 3..];
          assert t[k..k + 4][..3] == t[k..k + 3];
        }
      }
    }
  }

  /** Lines that each end in a line break can be joined without creating a closer. */
  lemma NoCloserAppend(a: string, b: string)
    requires NoCloserIn(a) && NoCloserIn(b)
    requires a != [] && a[|a| - 1] == '\n'
    ensures NoCloserIn(a + b)
  {
    var t := a + b;
    forall k: nat
      ensures !OccursAt(t, "---\n", k)
    {
      if k + 4 > |t| {
      } else if k + 4 <= |a| {
        assert t[k..k + 4] == a[k..k + 4];
        assert !OccursAt(a, "---\n", k);
      } else if |a| <= k {
        assert t[k..k + 4] == b[k - |a|..k - |a| + 4];
        assert !OccursAt(b, "---\n", k - |a|);
      } else {
        var off := |a| - 1 - k;
        assert "---\n"[off] == '-';
        assert t[k..k + 4][off] == '\n';
      }
    }
  }

  /** A single differing character rules out an occurrence. */
  lemma MismatchAt(t: string, p: string, k: nat, off: nat)
    requires off < |p| && (k + |p| > |t| || t[k + off] != p[off])
    ensures !OccursAt(t, p, k)
  {
    if k + |p| <= |t| {
      assert t[k..k + |p|][off] == t[k + off];
    }
  }

  /** Occurrences inside `u` are occurrences at the same offset within `pre + u + post`. */
  lemma OccursShift(pre: string, u: string, post: string, p: string, k: nat)
    requires k + |p| <= |u|
    ensures OccursAt(pre + u + post, p, |pre| + k) == OccursAt(u, p, k)
  {
    var t := pre + u + post;
    assert t[|pre| + k..|pre| + k + |p|] == u[k..k + |p|];
  }

  /**
   * Stripping undoes writing a block: when the body of a block written as
   * "---\n" + meta + "\n---\n" holds no "---\n" of its own, exactly that block is removed.
   */
  /** The written block holds no closer before its own. */
  lemma WrittenHasNoEarlyCloser(meta: string, rest: string)
    requires NoCloser(meta)
    ensures forall k | 3 <= k < |meta| + 5 :: !OccursAt("---\n" + meta + "\n---\n" + rest, "---\n", k)
  {
    var body := meta + "\n";
    var t := "---\n" + meta + "\n---\n" + rest;
    assert t == "---\n" + body + ("---\n" + rest);
    forall k | 3 <= k < |meta| + 5
      ensures !OccursAt(t, "---\n", k)
    {
      if k == 3 {
        assert t[3] == '\n';
        MismatchAt(t, "---\n", k, 0);
      } else if k + 4 <= |meta| + 5 {
        OccursShift("---\n", body, "---\n" + rest, "---\n", k - 4);
        assert !OccursAt(body, "---\n", k - 4);
      } else {
        var off := |meta| + 4 - k;
        assert t[k + off] == '\n';
        MismatchAt(t, "---\n", k, off);
      }
    }
  }

  lemma StripWritten(meta: string, rest: string)
    requires NoCloser(meta)
    ensures StripFrontMatter("---\n" + meta + "\n---\n" + rest) == rest
  {
    var t := "---\n" + meta + "\n---\n" + rest;
    var closer := |meta| + 5;
    assert t[closer..closer + 4] == "---\n";
    assert t[closer + 4..] == rest;
    WrittenHasNoEarlyCloser(meta, rest);
    assert StartsWith(t, "---");
    assert OccursAt(t, "---\n", closer);
    assert FindFrom(t, "---\n", 3) == Some(closer);
  }

  /** One front-matter entry `key: "value"`. */
  function QuotedLine(key: string, value: string): (r: string)
    ensures EndsWith(r, "\"")
  {
    key + ": \"" + value + "\""
  }

  lemma QuotedLineNoCloser(key: string, value: string)
    requires '\n' !in key && '\n' !in value
    ensures NoCloserIn(QuotedLine(key, value) + "\n")
  {
    var l := QuotedLine(key, value);
    assert l[|l| - 1] == '"';
    LineNoCloser(l);
  }

  /** The documents folder: file path to text. */
  class DocFolder {
    var files: map<string, string>

    constructor (initial: map<string, string>)
      ensures files == initial
    {
      files := initial;
    }
  }

  // ---------------------------------------------------------------------------------------------
  // Candidate files

  /** The paths tried under one base directory, in order: ".mdx", ".md", then the bare name. */
  function Candidates(base: string, clean: string): (r: seq<string>)
    ensures |r| == 3
  {
    [Join(base, clean + ".mdx"), Join(base, clean + ".md"), Join(base, clean)]
  }

  /** The first path that exists, if any. */
  function FirstPresent(paths: seq<string>, present: string -> bool): (r: Option<string>)
    ensures r.Some? ==> r.value in paths && present(r.value)
    ensures r.Some? ==> exists i | 0 <= i < |paths| :: paths[i] == r.value && forall j | 0 <= j < i :: !present(paths[j])
    ensures r.None? <==> forall p | p in paths :: !present(p)
  {
    if paths == [] then None
    else if present(paths[0]) then Some(paths[0])
    else
      var r := FirstPresent(paths[1..], present);
      assert forall p | p in paths[1..] :: p in paths;
      assert forall p | p in paths :: p == paths[0] || p in paths[1..];
      assert r.Some? ==> exists i | 0 <= i < |paths| :: paths[i] == r.value && forall j | 0 <= j < i :: !present(paths[j]) by {
        if r.Some? {
          var i :| 0 <= i < |paths[1..]| && paths[1..][i] == r.value && forall j | 0 <= j < i :: !present(paths[1..][j]);
          assert paths[i + 1] == r.value && forall j | 0 <= j < i + 1 :: !present(paths[j]);
        }
      }
      r
  }

  /** A later group of candidates is consulted only when none of an earlier group exists. */
  lemma {:induction false} FirstPresentAppend(a: seq<string>, b: seq<string>, present: string -> bool)
    ensures FirstPresent(a + b, present) == if FirstPresent(a, present).Some? then FirstPresent(a, present) else FirstPresent(b, present)
  {
    if a == [] {
      assert a + b == b;
    } else {
      assert (a + b)[0] == a[0] && (a + b)[1..] == a[1..] + b;
      FirstPresentAppend(a[1..], b, present);
    }
  }

  /** `for (const p of tryPaths) { try { await fs.access(p); filePath = p; break; } catch {} }`. */
  method Locate(paths: seq<string>, present: string -> bool) returns (found: Option<string>)
    ensures found == FirstPresent(paths, present)
  {
    found := None;
    var i := 0;
    while i < |paths|
      invariant i <= |paths|
      invariant FirstPresent(paths, present) == FirstPresent(paths[i..], present)
    {
      assert paths[i..][0] == paths[i] && paths[i..][1..] == paths[i + 1..];
      if present(paths[i]) {
        found := Some(paths[i]);
        return;
      }
      i := i + 1;
    }
  }
}
