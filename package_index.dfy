/** The index page of one package: the list of its releases, rendered as one anchor
    per release and decoded from the anchors of a page. */
module PackageIndexes {
  import opened Wrappers
  import opened Seqs
  import opened Html
  import opened Template
  import opened Releases
  import RootIndexes

  /** The releases of a package, in document order, duplicates kept. */
  datatype PackageIndex = PackageIndex(releases: seq<Release>)

  /* ---------------------------------------------------------------- rendering */

  /** One anchor per release, in list order. */
  function ReleaseLinks(releases: seq<Release>): (links: seq<string>)
    ensures |links| == |releases|
  {
    Map(ReleaseToString, releases)
  }

  /** The page listing all releases of the package: the anchors between the fixed
      header and footer. */
  function PackageIndexToString(index: PackageIndex): (page: string)
    ensures |page| >= |Header| + |Footer|
    ensures page[..|Header|] == Header && page[|page| - |Footer|..] == Footer
    ensures index.releases == [] ==> page == Header + Footer
  {
    Document(Join(ReleaseLinks(index.releases), Separator))
  }

  /** Adding a release at the end adds a separator and its anchor at the end of the
      link list, and changes nothing before it. */
  lemma PackageIndexToStringAppend(releases: seq<Release>, r: Release)
    requires releases != []
    ensures PackageIndexToString(PackageIndex(releases + [r]))
            == Document(Join(ReleaseLinks(releases), Separator) + Separator + ReleaseToString(r))
  {
    MapSnoc(ReleaseToString, releases, r);
    JoinSnoc(ReleaseLinks(releases), ReleaseToString(r), Separator);
  }

  /** The links of a non-empty list: the first release's anchor, then those of the rest. */
  lemma ReleaseLinksCons(rs: seq<Release>)
    requires rs != []
    ensures ReleaseLinks(rs)[0] == ReleaseToString(rs[0])
    ensures ReleaseLinks(rs)[1..] == ReleaseLinks(rs[1..])
  {
    MapCons(ReleaseToString, rs);
  }

  /** What follows the first anchor of joined release links: nothing, or the
      separator and the rest. */
  function RestOfLinks(rs: seq<Release>): string
    requires rs != []
  {
    if |rs| == 1 then "" else Separator + Join(ReleaseLinks(rs[1..]), Separator)
  }

  /** Joined anchors of delimited releases begin with the same release, and
      the same text follows it. */
  lemma JoinedReleaseLinksHead(rs: seq<Release>, qs: seq<Release>)
    requires rs != [] && qs != []
    requires DelimitedRelease(rs[0]) && DelimitedRelease(qs[0])
    requires Join(ReleaseLinks(rs), Separator) == Join(ReleaseLinks(qs), Separator)
    ensures rs[0] == qs[0] && RestOfLinks(rs) == RestOfLinks(qs)
  {
    JoinCons(ReleaseLinks(rs), Separator);
    JoinCons(ReleaseLinks(qs), Separator);
    ReleaseLinksCons(rs);
    ReleaseLinksCons(qs);
    ReleaseToStringDelimited(rs[0], RestOfLinks(rs), qs[0], RestOfLinks(qs));
  }

  /** The joined links of a non-empty release list are not empty. */
  lemma JoinedReleaseLinksNonEmpty(rs: seq<Release>)
    requires rs != []
    ensures Join(ReleaseLinks(rs), Separator) != ""
  {
    JoinCons(ReleaseLinks(rs), Separator);
    ReleaseLinksCons(rs);
    assert ReleaseToString(rs[0])[0] == '<';
  }

  /** Past equal first anchors, the rest of the releases are delimited and their
      joined links are equal too. */
  lemma JoinedReleaseLinksTail(rs: seq<Release>, qs: seq<Release>)
    requires |rs| > 1 && |qs| > 1
    requires forall i | 0 <= i < |rs| :: DelimitedRelease(rs[i])
    requires forall i | 0 <= i < |qs| :: DelimitedRelease(qs[i])
    requires RestOfLinks(rs) == RestOfLinks(qs)
    ensures forall i | 0 <= i < |rs[1..]| :: DelimitedRelease(rs[1..][i])
    ensures forall i | 0 <= i < |qs[1..]| :: DelimitedRelease(qs[1..][i])
    ensures Join(ReleaseLinks(rs[1..]), Separator) == Join(ReleaseLinks(qs[1..]), Separator)
  {
    assert forall i | 0 <= i < |rs| - 1 :: rs[1..][i] == rs[i + 1];
    assert forall i | 0 <= i < |qs| - 1 :: qs[1..][i] == qs[i + 1];
    assert Join(ReleaseLinks(rs[1..]), Separator) == RestOfLinks(rs)[|Separator|..];
    assert Join(ReleaseLinks(qs[1..]), Separator) == RestOfLinks(qs)[|Separator|..];
  }

  /** A single release is followed by nothing, several by a separator. */
  lemma RestOfLinksEmpty(rs: seq<Release>)
    requires rs != []
    ensures RestOfLinks(rs) == "" <==> |rs| == 1
  {
  }

  /** Joined anchors of delimited releases determine the releases. */
  lemma {:induction false} JoinedReleaseLinksInjective(rs: seq<Release>, qs: seq<Release>)
    requires forall i | 0 <= i < |rs| :: DelimitedRelease(rs[i])
    requires forall i | 0 <= i < |qs| :: DelimitedRelease(qs[i])
    requires Join(ReleaseLinks(rs), Separator) == Join(ReleaseLinks(qs), Separator)
    ensures rs == qs
  {
    if rs == [] || qs == [] {
      if rs != [] { JoinedReleaseLinksNonEmpty(rs); }
      if qs != [] { JoinedReleaseLinksNonEmpty(qs); }
    } else {
      JoinedReleaseLinksHead(rs, qs);
      RestOfLinksEmpty(rs);
      RestOfLinksEmpty(qs);
      if |rs| > 1 && |qs| > 1 {
        JoinedReleaseLinksTail(rs, qs);
        JoinedReleaseLinksInjective(rs[1..], qs[1..]);
      }
      HeadTailEqual(rs, qs);
    }
  }

  /** Rendering loses nothing for delimited releases: two indexes with the same
      page are the same index. */
  lemma PackageIndexToStringInjective(a: PackageIndex, b: PackageIndex)
    requires forall i | 0 <= i < |a.releases| :: DelimitedRelease(a.releases[i])
    requires forall i | 0 <= i < |b.releases| :: DelimitedRelease(b.releases[i])
    requires PackageIndexToString(a) == PackageIndexToString(b)
    ensures a == b
  {
    DocumentInjective(Join(ReleaseLinks(a.releases), Separator), Join(ReleaseLinks(b.releases), Separator));
    JoinedReleaseLinksInjective(a.releases, b.releases);
  }

  /** The release that a root index link describes: named after the package, pointing
      at its page, unsigned and unconstrained. */
  function PackagePageRelease(p: string): Release
  {
    Release(p, RootIndexes.PackageHref(p), false, None)
  }

  /** Such a release renders as the root index link to the package. */
  lemma PackagePageReleaseLink(p: string)
    ensures ReleaseToString(PackagePageRelease(p)) == RootIndexes.PackageLink(p)
  {
    var r := PackagePageRelease(p);
    ReleaseToStringLayout(r);
    RootIndexes.PackageLinkIsAnchorHtml(p);
    assert ReleaseAttributes(r) == [("href", RootIndexes.PackageHref(p))];
  }

  /** The package pages of a list of packages, as releases. */
  function PackagePageReleases(ps: seq<string>): (rs: seq<Release>)
    ensures |rs| == |ps|
  {
    seq(|ps|, i requires 0 <= i < |ps| => PackagePageRelease(ps[i]))
  }

  /** The two pages share their template and separator: a package index whose
      releases are the package pages of ps renders exactly as the root index of ps. */
  lemma RootAndPackageShareTemplate(ps: seq<string>)
    ensures PackageIndexToString(PackageIndex(PackagePageReleases(ps))) == RootIndexes.RootIndexToString(RootIndexes.RootIndex(ps))
  {
    var rs := PackagePageReleases(ps);
    forall i | 0 <= i < |ps| ensures ReleaseLinks(rs)[i] == RootIndexes.PackageLinks(ps)[i] {
      PackagePageReleaseLink(ps[i]);
    }
    assert ReleaseLinks(rs) == RootIndexes.PackageLinks(ps);
  }

  /** Rendering a root index loses nothing for delimited package names: two root
      indexes with the same page are the same index. Each link is the anchor of a
      delimited release, so this follows from the package page's injectivity. */
  lemma RootIndexToStringInjective(a: RootIndexes.RootIndex, b: RootIndexes.RootIndex)
    requires forall i | 0 <= i < |a.packages| :: RootIndexes.DelimitedName(a.packages[i])
    requires forall i | 0 <= i < |b.packages| :: RootIndexes.DelimitedName(b.packages[i])
    requires RootIndexes.RootIndexToString(a) == RootIndexes.RootIndexToString(b)
    ensures a == b
  {
    var ra, rb := PackagePageReleases(a.packages), PackagePageReleases(b.packages);
    RootAndPackageShareTemplate(a.packages);
    RootAndPackageShareTemplate(b.packages);
    forall i | 0 <= i < |ra| ensures DelimitedRelease(ra[i]) {
      RootIndexes.PackageHrefQuoteFree(a.packages[i]);
    }
    forall i | 0 <= i < |rb| ensures DelimitedRelease(rb[i]) {
      RootIndexes.PackageHrefQuoteFree(b.packages[i]);
    }
    PackageIndexToStringInjective(PackageIndex(ra), PackageIndex(rb));
    forall i | 0 <= i < |a.packages| ensures a.packages[i] == b.packages[i] {
      assert ra[i].name == a.packages[i] && rb[i].name == b.packages[i];
    }
  }

  /* ----------------------------------------------------------------- decoding */

  /** What one anchor contributes: nothing when it has no first child or no href;
      otherwise a release named by the text of its first child, pointing at the href
      verbatim, signed exactly when data-gpg-sig is "true", and constrained by
      data-requires-python verbatim when that is present. */
  function ReleaseEntry(anchor: Node): (entry: Option<Release>)
    ensures entry.None? <==> anchor.firstChild.None? || "href" !in anchor.attributes
  {
    match anchor.firstChild
    case None => None
    case Some(child) =>
      match GetAttribute(anchor, "href")
      case None => None
      case Some(uri) =>
        Some(Release(TextContents(child), uri,
                     GetAttribute(anchor, "data-gpg-sig") == Some("true"),
                     GetAttribute(anchor, "data-requires-python")))
  }

  /** The releases a document lists. */
  function PackageReleases(nodes: seq<Node>): (releases: seq<Release>)
    ensures |releases| <= |Anchors(nodes)|
  {
    FilterMap(ReleaseEntry, Anchors(nodes))
  }

  /** Decodes the nodes of a page into a package index; it always succeeds. */
  method PackageIndexFromStr(nodes: seq<Node>) returns (r: Result<PackageIndex, ()>)
    ensures r == Ok(PackageIndex(PackageReleases(nodes)))
  {
    var anchors := Anchors(nodes);
    var releases: seq<Release> := [];
    for i := 0 to |anchors|
      invariant releases == FilterMap(ReleaseEntry, anchors[..i])
    {
      assert anchors[..i + 1] == anchors[..i] + [anchors[i]];
      FilterMapSnoc(ReleaseEntry, anchors[..i], anchors[i]);
      var anchor := anchors[i];
      var name: string;
      match anchor.firstChild {
        case None =>
          continue;
        case Some(child) =>
          name := TextContents(child);
      }
      var uri: string;
      match GetAttribute(anchor, "href") {
        case None =>
          continue;
        case Some(href) =>
          uri := href;
      }
      var hasGpg := GetAttribute(anchor, "data-gpg-sig") == Some("true");
      var requiresPython := GetAttribute(anchor, "data-requires-python");
      releases := releases + [Release(name, uri, hasGpg, requiresPython)];
    }
    assert anchors[..|anchors|] == anchors;
    return Ok(PackageIndex(releases));
  }

  /** The fields of a decoded release are read verbatim: the name is the text of
      the first child, the uri is the href, fragment included, and the constraint
      is present exactly when data-requires-python is, with its value. */
  lemma ReleaseEntryFields(anchor: Node, r: Release)
    requires ReleaseEntry(anchor) == Some(r)
    ensures anchor.firstChild.Some? && r.name == TextContents(anchor.firstChild.value)
    ensures "href" in anchor.attributes && r.uri == anchor.attributes["href"]
    ensures r.requiresPython.Some? <==> "data-requires-python" in anchor.attributes
    ensures r.requiresPython.Some? ==> r.requiresPython.value == anchor.attributes["data-requires-python"]
  {
  }

  /** The signature flag is strict: set exactly when data-gpg-sig is present with
      the value "true". */
  lemma GpgFlagStrict(anchor: Node, r: Release)
    requires ReleaseEntry(anchor) == Some(r)
    ensures r.hasGpg <==> "data-gpg-sig" in anchor.attributes && anchor.attributes["data-gpg-sig"] == "true"
  {
  }

  /** An anchor with a name and an href, with data-gpg-sig set to v. */
  function SignedAnchor(v: string): Node
  {
    Node(Some("a"), Some(Text("x")), map["href" := "u", "data-gpg-sig" := v])
  }

  /** "True", "1" and "" do not count as signed, nor does a missing attribute; "true" does. */
  lemma GpgFlagExamples()
    ensures ReleaseEntry(SignedAnchor("true")) == Some(Release("x", "u", true, None))
    ensures ReleaseEntry(SignedAnchor("True")) == Some(Release("x", "u", false, None))
    ensures ReleaseEntry(SignedAnchor("1")) == Some(Release("x", "u", false, None))
    ensures ReleaseEntry(SignedAnchor("")) == Some(Release("x", "u", false, None))
    ensures ReleaseEntry(Node(Some("a"), Some(Text("x")), map["href" := "u"])) == Some(Release("x", "u", false, None))
  {
    assert "True" != "true" by { assert "True"[0] != "true"[0]; }
    assert "1" != "true" by { assert |"1"| != |"true"|; }
    assert "" != "true" by { assert |""| != |"true"|; }
  }

  /** Decoding a concatenation of documents concatenates the release lists, so
      document order is kept. */
  lemma PackageReleasesAppend(a: seq<Node>, b: seq<Node>)
    ensures PackageReleases(a + b) == PackageReleases(a) + PackageReleases(b)
  {
    FilterAppend(IsAnchor, a, b);
    FilterMapAppend(ReleaseEntry, Anchors(a), Anchors(b));
  }

  /** A one-node document lists the node's release when it is an anchor that has one. */
  lemma PackageReleasesSingle(n: Node)
    ensures PackageReleases([n]) == if IsAnchor(n) && ReleaseEntry(n).Some? then [ReleaseEntry(n).value] else []
  {
    assert [n][1..] == [];
    assert Anchors([n]) == if IsAnchor(n) then [n] else [];
    FilterMapSingleton(ReleaseEntry, n);
  }

  /** A node that is not an anchor, an anchor without children, or one without href
      contributes nothing. */
  lemma PackageReleasesSkip(before: seq<Node>, n: Node, after: seq<Node>)
    requires !IsAnchor(n) || n.firstChild.None? || "href" !in n.attributes
    ensures PackageReleases(before + [n] + after) == PackageReleases(before + after)
  {
    PackageReleasesAppend(before + [n], after);
    PackageReleasesAppend(before, [n]);
    PackageReleasesAppend(before, after);
    PackageReleasesSingle(n);
  }

  /** An anchor that decodes to r contributes exactly r, in its place. */
  lemma PackageReleasesKeep(before: seq<Node>, n: Node, after: seq<Node>, r: Release)
    requires IsAnchor(n) && ReleaseEntry(n) == Some(r)
    ensures PackageReleases(before + [n] + after) == PackageReleases(before) + [r] + PackageReleases(after)
  {
    PackageReleasesAppend(before + [n], after);
    PackageReleasesAppend(before, [n]);
    PackageReleasesSingle(n);
  }

  /** r is listed exactly when some anchor of the document decodes to it. */
  lemma PackageReleasesMember(nodes: seq<Node>, r: Release)
    ensures r in PackageReleases(nodes)
            <==> exists n :: n in nodes && IsAnchor(n) && ReleaseEntry(n) == Some(r)
  {
    var anchors := Anchors(nodes);
    FilterMapMember(ReleaseEntry, anchors, r);
    if exists n :: n in nodes && IsAnchor(n) && ReleaseEntry(n) == Some(r) {
      var n :| n in nodes && IsAnchor(n) && ReleaseEntry(n) == Some(r);
      var i :| 0 <= i < |anchors| && anchors[i] == n;
    }
  }

  /** The list is empty exactly when no anchor has both a child and an href. */
  lemma PackageReleasesEmpty(nodes: seq<Node>)
    ensures PackageReleases(nodes) == []
            <==> forall n | n in nodes && IsAnchor(n) :: n.firstChild.None? || "href" !in n.attributes
  {
    var anchors := Anchors(nodes);
    FilterMapEmpty(ReleaseEntry, anchors);
    if PackageReleases(nodes) == [] {
      forall n | n in nodes && IsAnchor(n) ensures n.firstChild.None? || "href" !in n.attributes {
        var i :| 0 <= i < |anchors| && anchors[i] == n;
      }
    }
    forall i | 0 <= i < |anchors| ensures anchors[i] in nodes && IsAnchor(anchors[i]) {
      assert anchors[i] in anchors;
    }
  }

  /** Relative order is kept: the releases of two anchors appear in document order. */
  lemma PackageReleasesOrder(nodes: seq<Node>, i: int, j: int)
    requires 0 <= i < j < |Anchors(nodes)|
    requires ReleaseEntry(Anchors(nodes)[i]).Some? && ReleaseEntry(Anchors(nodes)[j]).Some?
    ensures exists k1, k2 :: 0 <= k1 < k2 < |PackageReleases(nodes)|
                             && PackageReleases(nodes)[k1] == ReleaseEntry(Anchors(nodes)[i]).value
                             && PackageReleases(nodes)[k2] == ReleaseEntry(Anchors(nodes)[j]).value
  {
    var anchors := Anchors(nodes);
    FilterMapOrder(ReleaseEntry, anchors, i, j);
    var k1, k2 :| 0 <= k1 < k2 < |FilterMap(ReleaseEntry, anchors)|
                  && FilterMap(ReleaseEntry, anchors)[k1] == ReleaseEntry(anchors[i]).value
                  && FilterMap(ReleaseEntry, anchors)[k2] == ReleaseEntry(anchors[j]).value;
    assert PackageReleases(nodes)[k1] == ReleaseEntry(anchors[i]).value;
  }

  /* --------------------------------------------------------------- round trip */

  /** The anchor node of a release carries its href, its constraint exactly when
      it has one, and a gpg attribute valued "true" exactly when it is signed. */
  lemma ReleaseAnchorAttributes(r: Release)
    ensures var m := ReleaseAnchor(r).attributes;
      && "href" in m && m["href"] == r.uri
      && ("data-requires-python" in m <==> r.requiresPython.Some?)
      && (r.requiresPython.Some? ==> m["data-requires-python"] == r.requiresPython.value)
      && ("data-gpg-sig" in m <==> r.hasGpg)
      && (r.hasGpg ==> m["data-gpg-sig"] == "true")
  {
    var attrs := ReleaseAttributes(r);
    ReleaseAttributesShape(r);
    var m := AttributeMap(attrs);
    assert m == ReleaseAnchor(r).attributes;
    assert attrs[0].0 in m;
    match r.requiresPython {
      case None =>
      case Some(v) =>
        assert attrs[1] == ("data-requires-python", v);
        assert attrs[0].0 != attrs[1].0;
    }
    if r.hasGpg {
      var k := |attrs| - 1;
      assert attrs[k] == ("data-gpg-sig", "true");
      assert forall j | 0 <= j < k :: attrs[j].0 != attrs[k].0 by {
        forall j | 0 <= j < k ensures attrs[j].0 != attrs[k].0 {
          assert AttributeRank(attrs[j].0) < AttributeRank(attrs[k].0);
        }
      }
    }
  }

  /** Decoding the anchor node of a release gives the release back, except that a
      release with an empty name has an anchor without children and gives nothing. */
  lemma ReleaseRoundTrip(r: Release)
    ensures ReleaseEntry(ReleaseAnchor(r)) == if r.name == "" then None else Some(r)
  {
    ReleaseAnchorAttributes(r);
  }

  /** The anchor nodes that the anchors of the releases stand for, in list order. */
  function ReleaseAnchors(rs: seq<Release>): (anchors: seq<Node>)
    ensures |anchors| == |rs|
  {
    Map(ReleaseAnchor, rs)
  }

  /** A release with a non-empty name. */
  predicate HasName(r: Release)
  {
    r.name != ""
  }

  /** Decoding the anchors of a release list gives the releases with names. */
  lemma {:induction false} AnchorsToReleases(rs: seq<Release>)
    ensures FilterMap(ReleaseEntry, ReleaseAnchors(rs)) == Filter(HasName, rs)
  {
    var anchors := ReleaseAnchors(rs);
    if rs != [] {
      AnchorsToReleases(rs[1..]);
      MapCons(ReleaseAnchor, rs);
      ReleaseRoundTrip(rs[0]);
      FilterMapCons(ReleaseEntry, anchors);
      FilterCons(HasName, rs);
    }
  }

  /** Decoding the anchors that a rendered package index stands for gives back its
      releases, except those with empty names; whatever non-anchor nodes the page
      has around them. */
  lemma PackageIndexRoundTrip(index: PackageIndex, nodes: seq<Node>)
    requires Anchors(nodes) == ReleaseAnchors(index.releases)
    ensures PackageReleases(nodes) == Filter(HasName, index.releases)
    ensures (forall i | 0 <= i < |index.releases| :: index.releases[i].name != "") ==> PackageReleases(nodes) == index.releases
  {
    AnchorsToReleases(index.releases);
    if forall i | 0 <= i < |index.releases| :: index.releases[i].name != "" {
      FilterAll(HasName, index.releases);
    }
  }

  /* ------------------------------------------------------------------ example */

  /** An anchor of the xgboost page: the file name as text, the URI with its hash
      fragment as href, and the constraint ">=3.6". */
  function XgboostAnchor(file: string, uri: string): Node
  {
    Node(Some("a"), Some(Text(file)), map["href" := uri, "data-requires-python" := ">=3.6"])
  }

  /** The release such an anchor stands for: unsigned, constrained to ">=3.6". */
  function XgboostRelease(file: string, uri: string): Release
  {
    Release(file, uri, false, Some(">=3.6"))
  }

  /** The xgboost releases are delimited whenever their file names hold no '<' and
      their uris no '"': the constraint ">=3.6" is no obstacle. */
  lemma XgboostReleaseDelimited(file: string, uri: string)
    requires '<' !in file && '"' !in uri
    ensures DelimitedRelease(XgboostRelease(file, uri))
  {
  }

  /** Every anchor of the xgboost page decodes to its release; the fragment stays in the uri. */
  lemma XgboostAnchorDecodes(file: string, uri: string)
    ensures ReleaseEntry(XgboostAnchor(file, uri)) == Some(XgboostRelease(file, uri))
  {
    assert "data-gpg-sig" != "href" && "data-gpg-sig" != "data-requires-python" by {
      assert "data-gpg-sig"[0] != "href"[0];
      assert "data-gpg-sig"[5] != "data-requires-python"[5];
    }
  }

  const XgboostHost: string := "https://fakepythonhosted.org/xgboost/"

  const Wheel1: string := "xgboost-1.5.2-py3-none-macosx_10_15_x86_64.macosx_11_0_x86_64.macosx_12_0_x86_64.whl"
  const Wheel2: string := "xgboost-1.5.2-py3-none-manylinux2014_aarch64.whl"
  const Wheel3: string := "xgboost-1.5.2-py3-none-manylinux2014_x86_64.whl"
  const Wheel4: string := "xgboost-1.5.2-py3-none-win_amd64.whl"
  const Sdist: string := "xgboost-1.5.2.tar.gz"

  const Uri1: string := XgboostHost + Wheel1 + "#sha256=51b5dfe553d78ab92f2c60ccead6abc38196c2961f6952f6ec14b1feba6ffd25"
  const Uri2: string := XgboostHost + Wheel2 + "#sha256=a449b0d0d8a15e72946c9d07e3d4ea153ac12570d054f6020cc5146cb4979261"
  const Uri3: string := XgboostHost + Wheel3 + "#sha256=46e43e06b1de260fe4c67e818720485559dab1bed1d97b82275220fab602a2ba"
  const Uri4: string := XgboostHost + Wheel4 + "#sha256=f9d459ad42da74c60136123ead36fa562086fb886f52fca229477d327d60dad0"
  const Uri5: string := XgboostHost + Sdist + "#sha256=404dc09dca887ef5a9bc0268f882c54b33bfc16ac365a859a11e7b24d49da387"

  /** A page of five such anchors decodes to their five releases, in order. */
  lemma FiveXgboostAnchors(nodes: seq<Node>, f1: string, u1: string, f2: string, u2: string, f3: string, u3: string,
                           f4: string, u4: string, f5: string, u5: string)
    requires Anchors(nodes) == [XgboostAnchor(f1, u1), XgboostAnchor(f2, u2), XgboostAnchor(f3, u3),
                                XgboostAnchor(f4, u4), XgboostAnchor(f5, u5)]
    ensures PackageReleases(nodes) == [XgboostRelease(f1, u1), XgboostRelease(f2, u2), XgboostRelease(f3, u3),
                                       XgboostRelease(f4, u4), XgboostRelease(f5, u5)]
  {
    XgboostAnchorDecodes(f1, u1);
    XgboostAnchorDecodes(f2, u2);
    XgboostAnchorDecodes(f3, u3);
    XgboostAnchorDecodes(f4, u4);
    XgboostAnchorDecodes(f5, u5);
    var a := Anchors(nodes);
    FilterMapCons(ReleaseEntry, a);
    FilterMapCons(ReleaseEntry, a[1..]);
    FilterMapCons(ReleaseEntry, a[1..][1..]);
    FilterMapCons(ReleaseEntry, a[1..][1..][1..]);
    FilterMapCons(ReleaseEntry, a[1..][1..][1..][1..]);
    assert a[1..][1..][1..][1..][1..] == [];
  }

  /** The xgboost page: whatever other nodes it has, its five anchors decode to the
      five releases, in order, each unsigned, constrained to ">=3.6", and with its
      hash fragment kept in the uri. */
  lemma XgboostPageExample(nodes: seq<Node>)
    requires Anchors(nodes) == [XgboostAnchor(Wheel1, Uri1), XgboostAnchor(Wheel2, Uri2),
                                XgboostAnchor(Wheel3, Uri3), XgboostAnchor(Wheel4, Uri4),
                                XgboostAnchor(Sdist, Uri5)]
    ensures PackageReleases(nodes) == [XgboostRelease(Wheel1, Uri1), XgboostRelease(Wheel2, Uri2),
                                       XgboostRelease(Wheel3, Uri3), XgboostRelease(Wheel4, Uri4),
                                       XgboostRelease(Sdist, Uri5)]
  {
    FiveXgboostAnchors(nodes, Wheel1, Uri1, Wheel2, Uri2, Wheel3, Uri3, Wheel4, Uri4, Sdist, Uri5);
  }
}
