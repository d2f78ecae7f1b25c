/** Sequence helpers: `Array.prototype.findIndex` and uniqueness of keys. */
module Seqs {

  /** Index of the first occurrence of `x` in `s`. */
  function FirstIndex<T(==)>(s: seq<T>, x: T): (k: nat)
    requires x in s
    ensures k < |s| && s[k] == x && x !in s[..k]
  {
    if s[0] == x then 0
    else
      var k := 1 + FirstIndex(s[1..], x);
      assert s[..k] == [s[0]] + s[1..][..k - 1];
      k
  }

  /** The first-occurrence index is the only index whose prefix does not contain `x`. */
  lemma FirstIndexUnique<T>(s: seq<T>, x: T, k: nat)
    requires k < |s| && s[k] == x && x !in s[..k]
    ensures FirstIndex(s, x) == k
  {
    var f := FirstIndex(s, x);
    forall j | 0 <= j < k ensures s[j] != x {
      assert s[..k][j] == s[j];
    }
    forall j | 0 <= j < f ensures s[j] != x {
      assert s[..f][j] == s[j];
    }
  }

  /** Searching a concatenation finds `x` in the first part if it is there, else in the second. */
  lemma FirstIndexConcat<T>(a: seq<T>, b: seq<T>, x: T)
    requires x in a + b
    ensures x in a ==> FirstIndex(a + b, x) == FirstIndex(a, x)
    ensures x !in a ==> x in b && FirstIndex(a + b, x) == |a| + FirstIndex(b, x)
  {
    if x in a {
      var k := FirstIndex(a, x);
      assert (a + b)[..k] == a[..k];
      FirstIndexUnique(a + b, x, k);
    } else {
      var k := FirstIndex(b, x);
      assert (a + b)[..|a| + k] == a + b[..k];
      FirstIndexUnique(a + b, x, |a| + k);
    }
  }

  /** Concatenation is associative; stated once so that proofs can name the step. */
  lemma SeqAssoc<T>(a: seq<T>, b: seq<T>, c: seq<T>)
    ensures a + (b + c) == a + b + c
  {
  }

  /** No element occurs twice. */
  ghost predicate Distinct<T>(s: seq<T>) {
    forall i, j :: 0 <= i < j < |s| ==> s[i] != s[j]
  }
}
