/**
 * Character classes and string operations used by the route handlers, written out at the
 * character level instead of as JavaScript regular expressions.
 */
module Text {
  import opened Seqs
  import opened Wrappers

  predicate IsDigit(c: char) { '0' <= c <= '9' }

  predicate IsAsciiLetter(c: char) { 'a' <= c <= 'z' || 'A' <= c <= 'Z' }

  /** The class `[a-z0-9]` under the `i` flag, i.e. `[A-Za-z0-9]`. */
  predicate IsAlnum(c: char) { IsAsciiLetter(c) || IsDigit(c) }

  /** JavaScript's LineTerminator: what `.` does not match and where `^`/`$` match under `m`. */
  predicate IsLineTerminator(c: char) {
    c == '\n' || c == '\r' || c == '\U{2028}' || c == '\U{2029}'
  }

  /** JavaScript's `\s`, which is also exactly the set `String.prototype.trim` removes. */
  predicate IsSpace(c: char) {
    || IsLineTerminator(c)
    || c == ' ' || c == '\t' || c == '\U{000B}' || c == '\U{000C}'
    || c == '\U{00A0}' || c == '\U{1680}' || ('\U{2000}' <= c <= '\U{200A}')
    || c == '\U{202F}' || c == '\U{205F}' || c == '\U{3000}' || c == '\U{FEFF}'
  }

  function LowerChar(c: char): char {
    if 'A' <= c <= 'Z' then (c as int + 32) as char else c
  }

  /** `toUpperCase` of one character, for ASCII letters only; other characters are left as they are. */
  function UpperChar(c: char): char {
    if 'a' <= c <= 'z' then (c as int - 32) as char else c
  }

  /** `s.toLowerCase()` restricted to ASCII letters; `UpperChar` is the ASCII `toUpperCase`. */
  function ToLower(s: string): string {
    seq(|s|, i requires 0 <= i < |s| => LowerChar(s[i]))
  }

  predicate StartsWith(s: string, prefix: string) {
    |prefix| <= |s| && s[..|prefix|] == prefix
  }

  predicate EndsWith(s: string, suffix: string) {
    |suffix| <= |s| && s[|s| - |suffix|..] == suffix
  }

  /** `pattern` occurs in `s` starting at index `k`. */
  predicate OccursAt(s: string, pattern: string, k: nat) {
    k + |pattern| <= |s| && s[k..k + |pattern|] == pattern
  }

  /** `s.indexOf(pattern, from)`: the first occurrence at or after `from`, if any. */
  function FindFrom(s: string, pattern: string, from: nat): (r: Option<nat>)
    ensures r.Some? ==> from <= r.value && OccursAt(s, pattern, r.value)
    ensures r.Some? ==> forall k :: from <= k < r.value ==> !OccursAt(s, pattern, k)
    ensures r.None? ==> forall k :: from <= k ==> !OccursAt(s, pattern, k)
    decreases |s| - from
  {
    if from + |pattern| > |s| then None
    else if s[from..from + |pattern|] == pattern then Some(from)
    else FindFrom(s, pattern, from + 1)
  }

  /** `s.replace(/^\/+/, '')`: drop every leading slash. */
  function StripLeadingSlashes(s: string): (r: string)
    ensures r == [] || r[0] != '/'
    ensures |r| <= |s| && r == s[|s| - |r|..]
    ensures forall i :: 0 <= i < |s| - |r| ==> s[i] == '/'
  {
    if s != [] && s[0] == '/' then StripLeadingSlashes(s[1..]) else s
  }

  /** `s.replace(/^p/, '')` for a literal `p`: drop one leading occurrence of `p`. */
  function DropPrefix(s: string, p: string): (r: string)
    ensures StartsWith(s, p) ==> s == p + r
    ensures !StartsWith(s, p) ==> r == s
  {
    if StartsWith(s, p) then s[|p|..] else s
  }

  /** The text after the last '/' (the last element of `s.split("/")`). */
  function AfterLastSlash(s: string): (r: string)
    ensures '/' !in r
    ensures EndsWith(s, r)
    ensures |r| < |s| ==> s[|s| - |r| - 1] == '/'
  {
    if s == [] then []
    else if s[|s| - 1] == '/' then []
    else AfterLastSlash(s[..|s| - 1]) + [s[|s| - 1]]
  }

  /** `s.split("/").pop() || s`: the last path segment, or the whole string when that is empty. */
  function LastSegmentOr(s: string): (r: string)
    ensures '/' !in s ==> r == s
    ensures r == s || (r != [] && '/' !in r && EndsWith(s, r))
  {
    var last := AfterLastSlash(s);
    assert '/' !in s ==> |last| == |s| by {
      if |last| < |s| {
        assert s[|s| - |last| - 1] == '/';
      }
    }
    if last == [] then s else last
  }

  /** Index of the first character that is not JavaScript white space, or |s|. */
  function SkipSpace(s: string, from: nat): (k: nat)
    requires from <= |s|
    ensures from <= k <= |s|
    ensures forall i :: from <= i < k ==> IsSpace(s[i])
    ensures k < |s| ==> !IsSpace(s[k])
    decreases |s| - from
  {
    if from < |s| && IsSpace(s[from]) then SkipSpace(s, from + 1) else from
  }

  /** `s.trimEnd()`. */
  function TrimEnd(s: string): (r: string)
    ensures |r| <= |s| && r == s[..|r|]
    ensures r == [] || !IsSpace(r[|r| - 1])
    ensures forall i :: |r| <= i < |s| ==> IsSpace(s[i])
  {
    if s != [] && IsSpace(s[|s| - 1]) then TrimEnd(s[..|s| - 1]) else s
  }

  /** `r` is `s` with white space, and only white space, removed before index `k` and after `r`. */
  ghost predicate TrimmedAt(s: string, r: string, k: nat) {
    && k + |r| <= |s|
    && s[k..k + |r|] == r
    && (forall i :: 0 <= i < k ==> IsSpace(s[i]))
    && (forall i :: k + |r| <= i < |s| ==> IsSpace(s[i]))
  }

  /** `s.trim()`: no white space at either end; only white space was removed. */
  function Trim(s: string): (r: string)
    ensures r == [] || (!IsSpace(r[0]) && !IsSpace(r[|r| - 1]))
    ensures exists k :: TrimmedAt(s, r, k)
  {
    var k := SkipSpace(s, 0);
    var r := TrimEnd(s[k..]);
    assert TrimmedAt(s, r, k);
    r
  }
  /** The longest suffix of `s` that does not start with a character outside `keep`. */
  function DropRun(s: string, keep: char -> bool): (r: string)
    ensures |r| <= |s| && r == s[|s| - |r|..]
    ensures r == [] || keep(r[0])
    ensures forall i | 0 <= i < |s| - |r| :: !keep(s[i])
  {
    if s != [] && !keep(s[0]) then
      var r := DropRun(s[1..], keep);
      assert s == [s[0]] + s[1..];
      r
    else s
  }

  /**
   * `s.replace(/[^K]+/g, '-')` for a character class K: every maximal run of characters outside
   * `keep` becomes a single '-'.
   */
  function ReplaceRuns(s: string, keep: char -> bool): (r: string)
    ensures forall c | c in r :: keep(c) || c == '-'
    ensures forall i | 0 <= i < |r| - 1 :: !keep(r[i]) ==> keep(r[i + 1])
    ensures s != [] ==> r != [] && (keep(s[0]) ==> r[0] == s[0]) && (!keep(s[0]) ==> r[0] == '-')
    ensures |r| <= |s|
    decreases |s|
  {
    if s == [] then []
    else if keep(s[0]) then [s[0]] + ReplaceRuns(s[1..], keep)
    else "-" + ReplaceRuns(DropRun(s, keep), keep)
  }

  /** The characters of `s` inside `keep`, in order. */
  function Kept(s: string, keep: char -> bool): string {
    if s == [] then [] else (if keep(s[0]) then [s[0]] else []) + Kept(s[1..], keep)
  }

  lemma {:induction false} KeptDropRun(s: string, keep: char -> bool)
    ensures Kept(DropRun(s, keep), keep) == Kept(s, keep)
  {
    if s != [] && !keep(s[0]) {
      KeptDropRun(s[1..], keep);
    }
  }

  /** When '-' is not itself kept, the rewrite keeps exactly the kept characters, in order. */
  lemma {:induction false} ReplaceRunsKept(s: string, keep: char -> bool)
    requires !keep('-')
    ensures Kept(ReplaceRuns(s, keep), keep) == Kept(s, keep)
    decreases |s|
  {
    if s != [] {
      var r := ReplaceRuns(s, keep);
      if keep(s[0]) {
        ReplaceRunsKept(s[1..], keep);
        assert r[1..] == ReplaceRuns(s[1..], keep);
      } else {
        var t := DropRun(s, keep);
        ReplaceRunsKept(t, keep);
        KeptDropRun(s, keep);
        assert r[1..] == ReplaceRuns(t, keep);
      }
    }
  }

  /** The rewrite is idempotent, whether or not '-' is kept. */
  lemma {:induction false} ReplaceRunsIdempotent(s: string, keep: char -> bool)
    ensures ReplaceRuns(ReplaceRuns(s, keep), keep) == ReplaceRuns(s, keep)
    decreases |s|
  {
    if s != [] {
      var r := ReplaceRuns(s, keep);
      if keep(s[0]) {
        ReplaceRunsIdempotent(s[1..], keep);
        assert r[1..] == ReplaceRuns(s[1..], keep);
      } else {
        var t := DropRun(s, keep);
        ReplaceRunsIdempotent(t, keep);
        var rest := ReplaceRuns(t, keep);
        assert r == "-" + rest;
        assert r[1..] == rest;
        if !keep('-') {
          assert DropRun(r, keep) == rest by {
            assert rest == [] || keep(rest[0]);
          }
        }
      }
    }
  }

  /** A string made only of kept characters is left as it is. */
  lemma {:induction false} ReplaceRunsOfKept(s: string, keep: char -> bool)
    requires forall c | c in s :: keep(c)
    ensures ReplaceRuns(s, keep) == s
  {
    if s != [] {
      ReplaceRunsOfKept(s[1..], keep);
      assert s == [s[0]] + s[1..];
    }
  }
  /** A run of characters outside `keep` is dropped up to the next kept character. */
  lemma {:induction false} DropRunOf(w: string, v: string, keep: char -> bool)
    requires forall c | c in w :: !keep(c)
    requires v == [] || keep(v[0])
    ensures DropRun(w + v, keep) == v
  {
    if w == [] {
      assert w + v == v;
    } else {
      assert w[1..] + v == (w + v)[1..];
      assert forall c | c in w[1..] :: c in w;
      DropRunOf(w[1..], v, keep);
    }
  }

  /** A run that ends inside `u` (before its last, kept, character) is dropped inside `u`. */
  lemma {:induction false} DropRunAppend(u: string, t: string, keep: char -> bool)
    requires u != [] && keep(u[|u| - 1])
    ensures DropRun(u + t, keep) == DropRun(u, keep) + t
  {
    if !keep(u[0]) {
      assert |u| >= 2;
      assert u[1..] + t == (u + t)[1..];
      DropRunAppend(u[1..], t, keep);
    }
  }

  /**
   * The rewrite splits at a kept character: after a prefix that is empty or ends in a kept
   * character, the rest is rewritten on its own.
   */
  lemma {:induction false} ReplaceRunsAppend(u: string, t: string, keep: char -> bool)
    requires u == [] || keep(u[|u| - 1])
    ensures ReplaceRuns(u + t, keep) == ReplaceRuns(u, keep) + ReplaceRuns(t, keep)
    decreases |u|
  {
    if u == [] {
      assert u + t == t;
    } else if keep(u[0]) {
      var c, rest := u[0], u[1..];
      assert u + t == [c] + (rest + t) && (u + t)[1..] == rest + t;
      ReplaceRunsAppend(rest, t, keep);
      SeqAssoc([c], ReplaceRuns(rest, keep), ReplaceRuns(t, keep));
    } else {
      var r := DropRun(u, keep);
      DropRunAppend(u, t, keep);
      assert r != [] && r[|r| - 1] == u[|u| - 1];
      ReplaceRunsAppend(r, t, keep);
      SeqAssoc("-", ReplaceRuns(r, keep), ReplaceRuns(t, keep));
    }
  }

  /** A non-empty run of characters outside `keep`, followed by a kept character or nothing, is one '-'. */
  lemma ReplaceRunsRun(w: string, v: string, keep: char -> bool)
    requires w != [] && forall c | c in w :: !keep(c)
    requires v == [] || keep(v[0])
    ensures ReplaceRuns(w + v, keep) == "-" + ReplaceRuns(v, keep)
  {
    assert (w + v)[0] == w[0] && w[0] in w;
    DropRunOf(w, v, keep);
  }
}
