/**
 * Reading a failed retrieve's diagnostic for the types the retriever's registry does not
 * know, and adding them to the exclusion list (`handleRetrieveErrors`).
 */
module Diagnostics {
  import opened Text
  import opened Manifest
  import opened Retrieval

  /** The literal text that precedes the quoted id of an unknown type (written in two pieces only for the verifier's sake). */
  const Signature := "Missing metadata type " + "definition in registry for id '"

  // ---------------------------------------------------------------------------
  // The scanner: `matchAll` of  Missing metadata type definition in registry for id '([^']+)'
  //
  // The scanner and its lemmas take the literal part of the pattern as a parameter `sig`;
  // `Scan` fixes it to `Signature`.

  /**
   * The pattern matches at `p` with captured id `x`: `sig` starts at `p`, then one or more
   * characters other than a single quote, then a single quote.
   */
  predicate OccursAt(sig: string, s: string, p: nat, x: string)
  {
    && p + |sig| + |x| < |s|
    && s[p..p + |sig|] == sig
    && x != [] && '\'' !in x
    && s[p + |sig|..p + |sig| + |x|] == x
    && s[p + |sig| + |x|] == '\''
  }

  /**
   * The ids of all matches at or after `i`, left to right. No match fits once no character
   * is left after `sig`'s place. Where `sig` is followed by a quote or by no quote at all,
   * the match fails there and the search moves on one character; after a match it resumes
   * just past the closing quote.
   */
  function ScanFrom(sig: string, s: string, i: nat): (ids: seq<string>)
    requires i <= |s|
    ensures forall x :: x in ids ==> x != [] && '\'' !in x
    decreases |s| - i
  {
    if |s| <= i + |sig| then []
    else if s[i..i + |sig|] != sig then ScanFrom(sig, s, i + 1)
    else
      var j := i + |sig|;
      var k := FindFrom(s, '\'', j);
      if j < k < |s| then [s[j..k]] + ScanFrom(sig, s, k + 1)
      else ScanFrom(sig, s, i + 1)
  }

  /** The identifiers named by a diagnostic, in the order they occur. */
  function Scan(s: string): seq<string>
  {
    ScanFrom(Signature, s, 0)
  }

  /** Where `sig` is followed by a non-empty run of non-quotes and a quote, that run is a match. */
  lemma MatchAt(sig: string, s: string, i: nat)
    requires i + |sig| <= |s| && s[i..i + |sig|] == sig
    requires var k := FindFrom(s, '\'', i + |sig|); i + |sig| < k < |s|
    ensures OccursAt(sig, s, i, s[i + |sig|..FindFrom(s, '\'', i + |sig|)])
  {
    var j := i + |sig|;
    var k := FindFrom(s, '\'', j);
    assert forall m :: 0 <= m < k - j ==> s[j..k][m] == s[j + m];
  }

  /** Every id the scan yields is the captured id of a match at or after `i`. */
  lemma {:induction false} ScanSound(sig: string, s: string, i: nat, x: string)
    requires i <= |s|
    requires x in ScanFrom(sig, s, i)
    ensures exists p :: i <= p && OccursAt(sig, s, p, x)
    decreases |s| - i
  {
    if i + |sig| < |s| {
      var j := i + |sig|;
      if s[i..j] != sig {
        ScanSound(sig, s, i + 1, x);
      } else {
        var k := FindFrom(s, '\'', j);
        if j < k < |s| {
          if x == s[j..k] {
            MatchAt(sig, s, i);
          } else {
            ScanSound(sig, s, k + 1, x);
          }
        } else {
          ScanSound(sig, s, i + 1, x);
        }
      }
    }
  }

  /** Where `sig` starts at `p`, the text after it is scanned up to the next quote. */
  lemma SignatureMatch(sig: string, s: string, p: nat, x: string)
    requires OccursAt(sig, s, p, x)
    ensures FindFrom(s, '\'', p + |sig|) == p + |sig| + |x|
  {
    var j := p + |sig|;
    forall m | j <= m < j + |x| ensures s[m] != '\'' {
      assert s[j..j + |x|][m - j] == s[m];
    }
    FindFromIs(s, '\'', j, j + |x|);
  }

  /** With no match at or after `i`, the scan finds nothing. */
  lemma {:induction false} ScanNone(sig: string, s: string, i: nat)
    requires i <= |s|
    requires forall p, x :: i <= p ==> !OccursAt(sig, s, p, x)
    ensures ScanFrom(sig, s, i) == []
    decreases |s| - i
  {
    if i + |sig| < |s| {
      if s[i..i + |sig|] == sig {
        var j := i + |sig|;
        var k := FindFrom(s, '\'', j);
        if j < k < |s| {
          MatchAt(sig, s, i);
          assert false;
        }
      }
      ScanNone(sig, s, i + 1);
    }
  }

  /** The scan reports the leftmost match first and then resumes just after its closing quote. */
  lemma {:induction false} ScanLeftmost(sig: string, s: string, i: nat, p: nat, x: string)
    requires i <= p && OccursAt(sig, s, p, x)
    requires forall q, y :: i <= q < p ==> !OccursAt(sig, s, q, y)
    ensures ScanFrom(sig, s, i) == [x] + ScanFrom(sig, s, p + |sig| + |x| + 1)
    decreases p - i
  {
    if i == p {
      SignatureMatch(sig, s, p, x);
    } else {
      var j := i + |sig|;
      if s[i..j] == sig {
        var k := FindFrom(s, '\'', j);
        if j < k < |s| {
          MatchAt(sig, s, i);
          assert false;
        }
      }
      ScanLeftmost(sig, s, i + 1, p, x);
    }
  }

  /** Some match is leftmost: given one at `p`, there is one at or before it with none earlier. */
  lemma {:induction false} LeftmostFrom(sig: string, s: string, i: nat, p: nat, x: string) returns (p0: nat)
    requires i <= p && OccursAt(sig, s, p, x)
    ensures i <= p0 <= p && (exists y :: OccursAt(sig, s, p0, y))
    ensures forall q, y :: i <= q < p0 ==> !OccursAt(sig, s, q, y)
    decreases p - i
  {
    if exists y :: OccursAt(sig, s, i, y) {
      p0 := i;
    } else {
      p0 := LeftmostFrom(sig, s, i + 1, p, x);
    }
  }

  /** The scan is empty exactly when the diagnostic contains no match at all. */
  lemma ScanEmpty(s: string)
    ensures Scan(s) == [] <==> forall p, x :: !OccursAt(Signature, s, p, x)
  {
    if forall p, x :: !OccursAt(Signature, s, p, x) {
      ScanNone(Signature, s, 0);
    } else {
      var p, x :| OccursAt(Signature, s, p, x);
      var p0 := LeftmostFrom(Signature, s, 0, p, x);
      var x0 :| OccursAt(Signature, s, p0, x0);
      ScanLeftmost(Signature, s, 0, p0, x0);
    }
  }

  /** A diagnostic naming `ids`, each preceded by `sig` and by filler text. */
  function Report(sig: string, ids: seq<string>, filler: string): string
  {
    if ids == [] then "" else filler + sig + ids[0] + "'" + Report(sig, ids[1..], filler)
  }

  /** A named id right after the filler is a match, and the filler holds none. */
  lemma ReportEntry(sig: string, prefix: string, filler: string, x: string, rest: string)
    requires x != [] && '\'' !in x
    requires sig != [] && sig[0] !in filler
    ensures var s := prefix + (filler + sig + x + "'") + rest;
            && OccursAt(sig, s, |prefix| + |filler|, x)
            && forall q, y :: |prefix| <= q < |prefix| + |filler| ==> !OccursAt(sig, s, q, y)
  {
    var s := prefix + (filler + sig + x + "'") + rest;
    assert s == prefix + filler + sig + x + "'" + rest by {
      Inline3(prefix, filler + sig, x, "'", rest);
      Assoc(prefix, filler, sig);
    }
    var p := |prefix| + |filler|;
    assert s[p..p + |sig|] == sig;
    assert s[p + |sig|..p + |sig| + |x|] == x;
    forall q, y | |prefix| <= q < p ensures !OccursAt(sig, s, q, y) {
      assert s[q] == filler[q - |prefix|];
      assert filler[q - |prefix|] in filler;
      assert q + |sig| <= |s| ==> s[q..q + |sig|][0] == s[q];
    }
  }

  /** Round trip: scanning such a diagnostic gives back exactly its ids, in order, repeats included. */
  lemma {:induction false} ScanReport(sig: string, prefix: string, ids: seq<string>, filler: string)
    requires forall x :: x in ids ==> x != [] && '\'' !in x
    requires sig != [] && sig[0] !in filler
    ensures ScanFrom(sig, prefix + Report(sig, ids, filler), |prefix|) == ids
    decreases ids
  {
    if ids == [] {
      assert prefix + Report(sig, ids, filler) == prefix;
    } else {
      var x := ids[0];
      assert x in ids;
      var rest := Report(sig, ids[1..], filler);
      var head := filler + sig + x + "'";
      assert Report(sig, ids, filler) == head + rest;
      Assoc(prefix, head, rest);
      var s := prefix + head + rest;
      ReportEntry(sig, prefix, filler, x, rest);
      ScanLeftmost(sig, s, |prefix|, |prefix| + |filler|, x);
      assert |prefix| + |filler| + |sig| + |x| + 1 == |prefix + head|;
      forall y | y in ids[1..] ensures y != [] && '\'' !in y {
        assert y in ids;
      }
      ScanReport(sig, prefix + head, ids[1..], filler);
      assert [x] + ids[1..] == ids;
    }
  }

  // ---------------------------------------------------------------------------
  // The exclusion update

  predicate NoDuplicates(s: seq<string>)
  {
    forall i, j :: 0 <= i < j < |s| ==> s[i] != s[j]
  }

  /** `prefix` is an unchanged prefix of `s`. */
  predicate IsPrefix(prefix: seq<string>, s: seq<string>)
  {
    |prefix| <= |s| && s[..|prefix|] == prefix
  }

  /**
   * The exclusion list after each id in turn is appended unless already present.
   * The old list stays a prefix, and what is appended are ids that were not in it.
   */
  function AppendNew(excludeTypes: seq<string>, ids: seq<string>): (r: seq<string>)
    ensures IsPrefix(excludeTypes, r)
    ensures |r| <= |excludeTypes| + |ids|
    ensures forall t :: t in r <==> t in excludeTypes || t in ids
    ensures forall k :: |excludeTypes| <= k < |r| ==> r[k] in ids && r[k] !in excludeTypes
  {
    if ids == [] then excludeTypes
    else
      var prev := AppendNew(excludeTypes, ids[..|ids| - 1]);
      var x := ids[|ids| - 1];
      assert ids == ids[..|ids| - 1] + [x];
      if x in prev then prev else prev + [x]
  }

  /** Nothing appended is a duplicate, even when an id is named several times. */
  lemma {:induction false} AppendNewNoDuplicates(excludeTypes: seq<string>, ids: seq<string>)
    requires NoDuplicates(excludeTypes)
    ensures NoDuplicates(AppendNew(excludeTypes, ids))
  {
    if ids != [] {
      AppendNewNoDuplicates(excludeTypes, ids[..|ids| - 1]);
    }
  }

  /**
   * Exactly the ids not already excluded are appended, in the order they are named,
   * each the first time it is named.
   */
  lemma {:induction false} AppendNewIsUnion(excludeTypes: seq<string>, ids: seq<string>)
    ensures AppendNew(excludeTypes, ids) == excludeTypes + AppendNew([], Kept(ids, excludeTypes))
  {
    if ids == [] {
      assert excludeTypes + [] == excludeTypes;
    } else {
      var init := ids[..|ids| - 1];
      var x := ids[|ids| - 1];
      assert ids == init + [x];
      AppendNewIsUnion(excludeTypes, init);
      KeptAppend(init, [x], excludeTypes);
      var newIds := Kept(init, excludeTypes);
      var kx := Kept([x], excludeTypes);
      assert Kept(ids, excludeTypes) == newIds + kx;
      if x in excludeTypes {
        assert kx == [];
        assert newIds + kx == newIds;
      } else {
        assert kx == [x];
        assert (newIds + kx)[..|newIds + kx| - 1] == newIds;
      }
    }
  }

  /**
   * The named ids that are not excluded, each at its first mention, in the order named:
   * a reference definition that reads the ids front to back.
   */
  function FirstMentions(excludeTypes: seq<string>, ids: seq<string>): seq<string>
    decreases |ids|
  {
    if ids == [] then []
    else if ids[0] in excludeTypes then FirstMentions(excludeTypes, ids[1..])
    else [ids[0]] + FirstMentions(excludeTypes + [ids[0]], ids[1..])
  }

  /** The append handles the first named id before all the others. */
  lemma {:induction false} AppendNewCons(excludeTypes: seq<string>, x: string, ids: seq<string>)
    ensures AppendNew(excludeTypes, [x] + ids)
         == AppendNew(if x in excludeTypes then excludeTypes else excludeTypes + [x], ids)
    decreases |ids|
  {
    if ids == [] {
      assert ([x] + ids)[..0] == [];
    } else {
      var init := ids[..|ids| - 1];
      assert ([x] + ids)[..|[x] + ids| - 1] == [x] + init;
      assert ([x] + ids)[|[x] + ids| - 1] == ids[|ids| - 1];
      AppendNewCons(excludeTypes, x, init);
    }
  }

  /** The append keeps the old list and adds exactly the first mentions of the new ids, in order. */
  lemma {:induction false} AppendNewFirstMentions(excludeTypes: seq<string>, ids: seq<string>)
    ensures AppendNew(excludeTypes, ids) == excludeTypes + FirstMentions(excludeTypes, ids)
    decreases |ids|
  {
    if ids == [] {
      assert excludeTypes + [] == excludeTypes;
    } else {
      var x, t := ids[0], ids[1..];
      var next := if x in excludeTypes then excludeTypes else excludeTypes + [x];
      assert AppendNew(excludeTypes, ids) == next + FirstMentions(next, t) by {
        assert [x] + t == ids;
        AppendNewCons(excludeTypes, x, t);
        AppendNewFirstMentions(next, t);
      }
      FirstMentionsStep(excludeTypes, ids);
    }
  }

  /** An id named again later is appended once, at its first mention. */
  lemma RepeatedIdAppendedOnce()
    ensures AppendNew([], ["A", "B", "A"]) == ["A", "B"]
  {
    AppendNewFirstMentions([], ["A", "B", "A"]);
    assert ["A", "B", "A"][1..] == ["B", "A"];
    assert ["B", "A"][1..] == ["A"];
    assert ["A"][1..] == [];
  }

  /** Handling the first named id moves it, when new, from the mentions to the list. */
  lemma FirstMentionsStep(excludeTypes: seq<string>, ids: seq<string>)
    requires ids != []
    ensures var next := if ids[0] in excludeTypes then excludeTypes else excludeTypes + [ids[0]];
            next + FirstMentions(next, ids[1..]) == excludeTypes + FirstMentions(excludeTypes, ids)
  {
    var x := ids[0];
    if x !in excludeTypes {
      var rest := FirstMentions(excludeTypes + [x], ids[1..]);
      assert excludeTypes + [x] + rest == excludeTypes + ([x] + rest);
    }
  }

  /** The list grows exactly when some named id is not yet excluded. */
  lemma AppendNewGrows(excludeTypes: seq<string>, ids: seq<string>)
    ensures |AppendNew(excludeTypes, ids)| > |excludeTypes| <==> exists t :: t in ids && t !in excludeTypes
  {
    var r := AppendNew(excludeTypes, ids);
    if |r| > |excludeTypes| {
      assert r[|excludeTypes|] in ids;
    }
  }

  /** Ids that are distinct and all new are appended as they are. */
  lemma {:induction false} AppendNewAllNew(excludeTypes: seq<string>, ids: seq<string>)
    requires NoDuplicates(ids)
    requires forall t :: t in ids ==> t !in excludeTypes
    ensures AppendNew(excludeTypes, ids) == excludeTypes + ids
  {
    if ids != [] {
      var init := ids[..|ids| - 1];
      var x := ids[|ids| - 1];
      assert ids == init + [x];
      AppendNewAllNew(excludeTypes, init);
      assert x !in init;
      assert x !in excludeTypes;
    }
  }

  /**
   * The worked case: a diagnostic naming distinct ids, none of them excluded yet,
   * appends exactly those ids in the order they are named.
   */
  lemma ReportedIdsAppended(excludeTypes: seq<string>, ids: seq<string>, filler: string)
    requires forall x :: x in ids ==> x != [] && '\'' !in x && x !in excludeTypes
    requires NoDuplicates(ids)
    requires 'M' !in filler
    ensures Scan(Report(Signature, ids, filler)) == ids
    ensures AppendNew(excludeTypes, Scan(Report(Signature, ids, filler))) == excludeTypes + ids
  {
    assert Signature[0] == 'M';
    ScanReport(Signature, "", ids, filler);
    assert "" + Report(Signature, ids, filler) == Report(Signature, ids, filler);
    AppendNewAllNew(excludeTypes, ids);
  }

  // ---------------------------------------------------------------------------
  // The working exclusion list, updated in place

  /** The array of excluded type names that the retry loop owns and the handler appends to. */
  class ExcludeList {
    var items: seq<string>

    /** A copy of the seed list, so that the seed is never shared with the loop. */
    constructor (seed: seq<string>)
      ensures items == seed
    {
      items := seed;
    }
  }

  /**
   * `handleRetrieveErrors`: scans the stringified reply; with no match the run is to abort
   * and the list is left alone, otherwise every id not yet in the list is pushed onto it.
   */
  method HandleRetrieveErrors(retrieveJson: Json, dynamicExcludeTypes: ExcludeList) returns (fatal: bool)
    modifies dynamicExcludeTypes
    ensures fatal <==> Scan(retrieveJson.Text()) == []
    ensures dynamicExcludeTypes.items
         == if fatal then old(dynamicExcludeTypes.items)
            else AppendNew(old(dynamicExcludeTypes.items), Scan(retrieveJson.Text()))
  {
    var jsonString := retrieveJson.Text();
    var matches := Scan(jsonString);
    if |matches| > 0 {
      var i := 0;
      while i < |matches|
        invariant 0 <= i <= |matches|
        invariant dynamicExcludeTypes.items == AppendNew(old(dynamicExcludeTypes.items), matches[..i])
      {
        var missingType := matches[i];
        assert matches[..i + 1][..i] == matches[..i];
        if missingType !in dynamicExcludeTypes.items {
          dynamicExcludeTypes.items := dynamicExcludeTypes.items + [missingType];
        }
        i := i + 1;
      }
      assert matches[..|matches|] == matches;
      fatal := false;
    } else {
      fatal := true;
    }
  }
}
