/** Small facts about strings shared by the manifest decoder and the diagnostic scanner. */
module Text {

  /** `p` is a prefix of `s`. */
  predicate StartsWith(s: string, p: string)
  {
    |p| <= |s| && s[..|p|] == p
  }

  /** The first index at or after `j` where `c` occurs in `s`, or `|s|` when there is none. */
  function FindFrom(s: string, c: char, j: nat): (k: nat)
    requires j <= |s|
    ensures j <= k <= |s|
    ensures forall m :: j <= m < k ==> s[m] != c
    ensures k < |s| ==> s[k] == c
    decreases |s| - j
  {
    if j == |s| || s[j] == c then j else FindFrom(s, c, j + 1)
  }

  /** The first occurrence is unique: any index with the properties of FindFrom's result is that result. */
  lemma FindFromIs(s: string, c: char, j: nat, k: nat)
    requires j <= k <= |s|
    requires forall m :: j <= m < k ==> s[m] != c
    requires k < |s| ==> s[k] == c
    ensures FindFrom(s, c, j) == k
  {
  }

  /** In `a + b`, where `a` does not contain `c` and `b` starts with `c`, the first `c` is at `|a|`. */
  lemma FindAfter(a: string, b: string, c: char)
    requires c !in a
    requires |b| > 0 && b[0] == c
    ensures FindFrom(a + b, c, 0) == |a|
  {
    var s := a + b;
    forall m | 0 <= m < |a| ensures s[m] != c {
      assert s[m] == a[m];
    }
    FindFromIs(s, c, 0, |a|);
  }

  // The lemmas below have empty bodies: each is a regrouping of a concatenation that the
  // solver proves at once for variables, but not when the pieces are long string literals.
  // Calling them at those sites hands the solver the regrouped form.

  /** StartsWith on a concatenation whose first part is the prefix. */
  lemma StartsWithAppend(p: string, rest: string)
    ensures StartsWith(p + rest, p)
    ensures (p + rest)[|p|..] == rest
  {
  }

  lemma Assoc(a: string, b: string, c: string)
    ensures a + b + c == a + (b + c)
  {
  }

  /** Regrouping the pieces of a block appended to `x`. */
  lemma BlockAssoc(x: string, a: string, b: string, c: string, t: string, d: string, e: string)
    ensures x + a + b + (c + t + d) + e == x + (a + b + c + t + d + e)
  {
  }

  lemma EndsWithAppend(a: string, b: string)
    ensures |b| <= |a + b| && (a + b)[|a + b| - |b|..] == b
  {
  }

  lemma Inline3(a: string, b: string, c: string, d: string, e: string)
    ensures a + (b + c + d) + e == a + b + c + d + e
  {
  }

  /** Regrouping a block followed by more text into lead, name, tail and the rest. */
  lemma RegroupBlock(a: string, b: string, c: string, n: string, d: string, e: string, more: string)
    ensures a + b + c + n + d + e + more == (a + b + c) + (n + ((d + e) + more))
  {
  }

  lemma AssocRight(a: string, b: string, c: string, d: string)
    ensures a + b + c + d == a + (b + (c + d))
  {
  }
}
