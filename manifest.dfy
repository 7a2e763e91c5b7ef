/**
 * The `package.xml` manifest that every retrieve attempt is run against: one wildcard
 * `<types>` block per metadata type that is not excluded, in the order the types were
 * discovered, followed by a single `<version>` element.
 */
module Manifest {
  import opened Wrappers
  import opened Text

  // The lines of the document, exactly as the builder writes them.
  const XmlDeclaration := "<?xml version=\"1.0\" encoding=\"UTF-8\"?>\n"
  const PackageOpen := "<Package xmlns=\"http://soap.sforce.com/2006/04/metadata\">\n"
  const TypesOpen := "  <types>\n"
  const MembersWildcard := "    <members>*</members>\n"
  const NameOpen := "    <name>"
  const NameClose := "</name>\n"
  const TypesClose := "  </types>\n"
  const VersionOpen := "  <version>"
  const VersionClose := "</version>\n"
  const PackageClose := "</Package>\n"

  const Header := XmlDeclaration + PackageOpen
  /** What a `<types>` block holds before and after the type name. */
  const BlockLead := TypesOpen + MembersWildcard + NameOpen
  const BlockTail := NameClose + TypesClose

  /** The types that get a block: those not in the exclusion list, in their original order. */
  function Kept(metadataTypes: seq<string>, excludeTypes: seq<string>): (kept: seq<string>)
    ensures |kept| <= |metadataTypes|
    ensures forall t :: t in kept <==> t in metadataTypes && t !in excludeTypes
  {
    if metadataTypes == [] then []
    else
      (if metadataTypes[0] in excludeTypes then [] else [metadataTypes[0]])
      + Kept(metadataTypes[1..], excludeTypes)
  }

  /** The wildcard block for one type. */
  function TypesBlock(t: string): string
  {
    TypesOpen + MembersWildcard + NameOpen + t + NameClose + TypesClose
  }

  function Blocks(names: seq<string>): string
  {
    if names == [] then "" else TypesBlock(names[0]) + Blocks(names[1..])
  }

  function VersionLine(version: string): string
  {
    VersionOpen + version + VersionClose
  }

  /** The whole document for one attempt. */
  function ManifestText(metadataTypes: seq<string>, excludeTypes: seq<string>, version: string): string
  {
    Header + Blocks(Kept(metadataTypes, excludeTypes)) + VersionLine(version) + PackageClose
  }

  /**
   * Builds the manifest the way the tool does: the header, then one block appended per
   * kept type, then the version line and the closing tag.
   */
  method BuildManifest(metadataTypes: seq<string>, excludeTypes: seq<string>, latestVersion: string)
    returns (packageXml: string)
    ensures packageXml == ManifestText(metadataTypes, excludeTypes, latestVersion)
  {
    packageXml := XmlDeclaration + PackageOpen;
    var kept := Kept(metadataTypes, excludeTypes);
    var i := 0;
    while i < |kept|
      invariant 0 <= i <= |kept|
      invariant packageXml == Header + Blocks(kept[..i])
    {
      var t := kept[i];
      ghost var before := packageXml;
      packageXml := packageXml + TypesOpen;
      packageXml := packageXml + MembersWildcard;
      packageXml := packageXml + NameOpen + t + NameClose;
      packageXml := packageXml + TypesClose;
      AppendBlock(kept, i, before, packageXml);
      i := i + 1;
    }
    assert kept[..|kept|] == kept;
    packageXml := packageXml + VersionOpen + latestVersion + VersionClose;
    packageXml := packageXml + PackageClose;
  }

  /** One iteration of the builder's loop appends the next kept type's block. */
  lemma AppendBlock(kept: seq<string>, i: nat, before: string, after: string)
    requires i < |kept|
    requires before == Header + Blocks(kept[..i])
    requires after == before + TypesOpen + MembersWildcard + (NameOpen + kept[i] + NameClose) + TypesClose
    ensures after == Header + Blocks(kept[..i + 1])
  {
    var t := kept[i];
    BlockAssoc(before, TypesOpen, MembersWildcard, NameOpen, t, NameClose, TypesClose);
    BlocksSnoc(kept[..i], t);
    Assoc(Header, Blocks(kept[..i]), TypesBlock(t));
    assert kept[..i + 1] == kept[..i] + [t];
  }

  // ---------------------------------------------------------------------------
  // Properties of the manifest

  lemma {:induction false} BlocksSnoc(names: seq<string>, t: string)
    ensures Blocks(names + [t]) == Blocks(names) + TypesBlock(t)
  {
    if names == [] {
      assert names + [t] == [t];
    } else {
      assert (names + [t])[1..] == names[1..] + [t];
      BlocksSnoc(names[1..], t);
    }
  }

  /** Filtering distributes over concatenation, so the kept types keep their relative order. */
  lemma {:induction false} KeptAppend(a: seq<string>, b: seq<string>, excludeTypes: seq<string>)
    ensures Kept(a + b, excludeTypes) == Kept(a, excludeTypes) + Kept(b, excludeTypes)
  {
    if a == [] {
      assert a + b == b;
    } else {
      assert (a + b)[0] == a[0];
      assert (a + b)[1..] == a[1..] + b;
      KeptAppend(a[1..], b, excludeTypes);
    }
  }

  /** Each type that is not excluded gets as many blocks as it has occurrences; an excluded one gets none. */
  lemma {:induction false} KeptMultiplicity(metadataTypes: seq<string>, excludeTypes: seq<string>, t: string)
    ensures multiset(Kept(metadataTypes, excludeTypes))[t]
         == if t in excludeTypes then 0 else multiset(metadataTypes)[t]
  {
    if metadataTypes != [] {
      var head := metadataTypes[0];
      KeptMultiplicity(metadataTypes[1..], excludeTypes, t);
      assert metadataTypes == [head] + metadataTypes[1..];
      assert multiset(metadataTypes) == multiset([head]) + multiset(metadataTypes[1..]);
    }
  }

  /** With a larger exclusion list, the manifest names no more types. */
  lemma {:induction false} KeptShrinks(metadataTypes: seq<string>, small: seq<string>, large: seq<string>)
    requires forall t :: t in small ==> t in large
    ensures |Kept(metadataTypes, large)| <= |Kept(metadataTypes, small)|
  {
    if metadataTypes != [] {
      KeptShrinks(metadataTypes[1..], small, large);
    }
  }

  /** The document starts with the declaration and the package element and ends with one version line. */
  lemma ManifestFrame(metadataTypes: seq<string>, excludeTypes: seq<string>, version: string)
    ensures StartsWith(ManifestText(metadataTypes, excludeTypes, version), XmlDeclaration + PackageOpen)
    ensures var m := ManifestText(metadataTypes, excludeTypes, version);
            var tail := VersionOpen + version + VersionClose + PackageClose;
            |tail| <= |m| && m[|m| - |tail|..] == tail
    ensures Kept(metadataTypes, excludeTypes) == []
            ==> ManifestText(metadataTypes, excludeTypes, version)
                == XmlDeclaration + PackageOpen + VersionOpen + version + VersionClose + PackageClose
  {
    var blocks := Blocks(Kept(metadataTypes, excludeTypes));
    var line := VersionLine(version);
    Assoc(Header, blocks, line);
    Assoc(Header, blocks + line, PackageClose);
    StartsWithAppend(Header, blocks + line + PackageClose);
    Assoc(Header + blocks, line, PackageClose);
    EndsWithAppend(Header + blocks, line + PackageClose);
    Inline3(Header, VersionOpen, version, VersionClose, PackageClose);
    if blocks == "" {
      assert Header + blocks == Header;
    }
  }

  // ---------------------------------------------------------------------------
  // A reader for the documents the builder writes, for the round trip below

  /** Reads consecutive `<types>` blocks, returning their names and what follows them. */
  function DecodeBlocks(s: string): Option<(seq<string>, string)>
    decreases |s|
  {
    if !StartsWith(s, BlockLead) then Some(([], s))
    else
      var rest := s[|BlockLead|..];
      var k := FindFrom(rest, '<', 0);
      var after := rest[k..];
      if !StartsWith(after, BlockTail) then None
      else
        match DecodeBlocks(after[|BlockTail|..])
        case None => None
        case Some((names, tail)) => Some(([rest[..k]] + names, tail))
  }

  /** Reads a whole manifest back into its type names and its version. */
  function DecodeManifest(s: string): Option<(seq<string>, string)>
  {
    if !StartsWith(s, Header) then None
    else
      match DecodeBlocks(s[|Header|..])
      case None => None
      case Some((names, rest)) =>
        if !StartsWith(rest, VersionOpen) then None
        else
          var body := rest[|VersionOpen|..];
          var k := FindFrom(body, '<', 0);
          if body[k..] == VersionClose + PackageClose then Some((names, body[..k])) else None
  }

  predicate NoAngle(s: string)
  {
    '<' !in s
  }

  lemma {:induction false} DecodeBlocksRoundTrip(names: seq<string>, tail: string)
    requires forall n :: n in names ==> NoAngle(n)
    requires !StartsWith(tail, BlockLead)
    ensures DecodeBlocks(Blocks(names) + tail) == Some((names, tail))
  {
    if names == [] {
      assert Blocks(names) + tail == tail;
    } else {
      var n := names[0];
      assert n in names;
      var more := Blocks(names[1..]) + tail;
      var s := Blocks(names) + tail;
      Assoc(TypesBlock(n), Blocks(names[1..]), tail);
      RegroupBlock(TypesOpen, MembersWildcard, NameOpen, n, NameClose, TypesClose, more);
      assert s == BlockLead + (n + (BlockTail + more));
      StartsWithAppend(BlockLead, n + (BlockTail + more));
      var rest := s[|BlockLead|..];
      FindAfter(n, BlockTail + more, '<');
      StartsWithAppend(n, BlockTail + more);
      StartsWithAppend(BlockTail, more);
      forall m | m in names[1..] ensures NoAngle(m) {
        assert m in names;
      }
      DecodeBlocksRoundTrip(names[1..], tail);
      assert [n] + names[1..] == names;
    }
  }

  /**
   * Round trip: reading a built manifest gives back exactly the kept types, in order,
   * one block each, and the supplied version, provided no name contains `<`.
   */
  lemma ManifestRoundTrip(metadataTypes: seq<string>, excludeTypes: seq<string>, version: string)
    requires forall t :: t in metadataTypes ==> NoAngle(t)
    requires NoAngle(version)
    ensures DecodeManifest(ManifestText(metadataTypes, excludeTypes, version))
         == Some((Kept(metadataTypes, excludeTypes), version))
  {
    var kept := Kept(metadataTypes, excludeTypes);
    var closing := VersionClose + PackageClose;
    var tail := VersionLine(version) + PackageClose;
    var m := ManifestText(metadataTypes, excludeTypes, version);
    Assoc(Header, Blocks(kept), tail);
    Assoc(Header + Blocks(kept), VersionLine(version), PackageClose);
    StartsWithAppend(Header, Blocks(kept) + tail);
    assert tail[3] != BlockLead[3];
    forall n | n in kept ensures NoAngle(n) {
      assert n in metadataTypes;
    }
    DecodeBlocksRoundTrip(kept, tail);
    AssocRight(VersionOpen, version, VersionClose, PackageClose);
    StartsWithAppend(VersionOpen, version + closing);
    FindAfter(version, closing, '<');
    StartsWithAppend(version, closing);
  }
}
