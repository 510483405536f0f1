/** The root index of a repository: the list of all its package names, rendered as
    one link per package and decoded from the anchors of a page. */
module RootIndexes {
  import opened Wrappers
  import opened Seqs
  import opened Html
  import opened Template

  /** The package names of a repository, in document order, duplicates kept. */
  datatype RootIndex = RootIndex(packages: seq<string>)

  /* ---------------------------------------------------------------- rendering */

  /** Where the link to package p points. */
  function PackageHref(p: string): string
  {
    "/simple/" + p + "/"
  }

  /** The link to package p; p is not escaped. */
  function PackageLink(p: string): string
  {
    "<a href=\"" + (PackageHref(p) + ("\">" + (p + "</a>")))
  }

  /** One link per package, in list order. */
  function PackageLinks(packages: seq<string>): (links: seq<string>)
    ensures |links| == |packages|
  {
    Map(PackageLink, packages)
  }

  /** The page listing all packages of the index: the links between the fixed
      header and footer. */
  function RootIndexToString(index: RootIndex): (page: string)
    ensures |page| >= |Header| + |Footer|
    ensures page[..|Header|] == Header && page[|page| - |Footer|..] == Footer
    ensures index.packages == [] ==> page == Header + Footer
  {
    Document(Join(PackageLinks(index.packages), Separator))
  }

  /** A package link is the anchor tag with the single attribute href = PackageHref(p)
      and the text p. */
  lemma PackageLinkIsAnchorHtml(p: string)
    ensures PackageLink(p) == AnchorHtml([("href", PackageHref(p))], p)
  {
    var h, quote, tail := PackageHref(p), "\"", ">" + (p + "</a>");
    var href := " href=\"";
    AttributeText("href", h);
    assert " " + "href" + "=\"" == href;
    AppendAssoc(href, h + quote, tail);
    AppendAssoc(h, quote, tail);
    AppendAssoc("<a", href, h + (quote + tail));
    assert "<a" + href == "<a href=\"";
    AppendAssoc(quote, ">", p + "</a>");
    assert quote + ">" == "\">";
  }

  /** Adding a package at the end adds a separator and its link at the end of the
      link list, and changes nothing before it. */
  lemma RootIndexToStringAppend(packages: seq<string>, p: string)
    requires packages != []
    ensures RootIndexToString(RootIndex(packages + [p]))
            == Document(Join(PackageLinks(packages), Separator) + Separator + PackageLink(p))
  {
    MapSnoc(PackageLink, packages, p);
    JoinSnoc(PackageLinks(packages), PackageLink(p), Separator);
  }

  /** The page of a three-package index: its three links, in order, separated
      and wrapped. */
  lemma RootIndexToStringThree(a: string, b: string, c: string)
    ensures RootIndexToString(RootIndex([a, b, c]))
            == Document(PackageLink(a) + (Separator + (PackageLink(b) + (Separator + PackageLink(c)))))
  {
    assert PackageLinks([a, b, c]) == [PackageLink(a), PackageLink(b), PackageLink(c)];
    JoinThree(PackageLink(a), PackageLink(b), PackageLink(c), Separator);
  }

  /** The link to numpy. */
  lemma PackageLinkNumpy()
    ensures PackageLink("numpy") == "<a href=\"/simple/numpy/\">numpy</a>"
  {
  }

  /** The link to protobuf. */
  lemma PackageLinkProtobuf()
    ensures PackageLink("protobuf") == "<a href=\"/simple/protobuf/\">protobuf</a>"
  {
  }

  /** The link to xgboost. */
  lemma PackageLinkXgboost()
    ensures PackageLink("xgboost") == "<a href=\"/simple/xgboost/\">xgboost</a>"
  {
  }

  /** The template around the three links of the example page. */
  lemma ExamplePageLayout(l1: string, l2: string, l3: string)
    requires l1 == "<a href=\"/simple/numpy/\">numpy</a>"
    requires l2 == "<a href=\"/simple/protobuf/\">protobuf</a>"
    requires l3 == "<a href=\"/simple/xgboost/\">xgboost</a>"
    ensures Document(l1 + (Separator + (l2 + (Separator + l3)))) == "<!DOCTYPE html>\n<html>\n    <body>\n    "
               + "<a href=\"/simple/numpy/\">numpy</a>" + "<br/>\n    "
               + "<a href=\"/simple/protobuf/\">protobuf</a>" + "<br/>\n    "
               + "<a href=\"/simple/xgboost/\">xgboost</a>"
               + "\n    </body>\n</html>"
  {
  }

  /** The page that the index of numpy, protobuf and xgboost renders to. */
  lemma RootIndexToStringExample()
    ensures RootIndexToString(RootIndex(["numpy", "protobuf", "xgboost"])) == "<!DOCTYPE html>\n<html>\n    <body>\n    "
               + "<a href=\"/simple/numpy/\">numpy</a>" + "<br/>\n    "
               + "<a href=\"/simple/protobuf/\">protobuf</a>" + "<br/>\n    "
               + "<a href=\"/simple/xgboost/\">xgboost</a>"
               + "\n    </body>\n</html>"
  {
    RootIndexToStringThree("numpy", "protobuf", "xgboost");
    PackageLinkNumpy();
    PackageLinkProtobuf();
    PackageLinkXgboost();
    ExamplePageLayout(PackageLink("numpy"), PackageLink("protobuf"), PackageLink("xgboost"));
  }

  /** A package name whose link can be read back without ambiguity: no '<', which
      would end the link text, and no '"', which would end the href. */
  predicate DelimitedName(p: string)
  {
    '<' !in p && '"' !in p
  }

  /** The href of a name without '"' holds no quote. */
  lemma PackageHrefQuoteFree(p: string)
    requires '"' !in p
    ensures '"' !in PackageHref(p)
  {
    var h := PackageHref(p);
    forall i | 0 <= i < |h| ensures h[i] != '"' {
      if 8 <= i < 8 + |p| { assert h[i] == p[i - 8]; }
    }
  }

  /* ----------------------------------------------------------------- decoding */

  /** The decoder can read n: an anchor whose first child exists must have a text
      node there (any other first child makes the decoder fail). */
  predicate EntryDefined(n: Node)
  {
    IsAnchor(n) && n.firstChild.Some? ==> n.firstChild.value.Text?
  }

  /** The decoder can read every node of the document. */
  predicate RootDecodable(nodes: seq<Node>)
  {
    forall i | 0 <= i < |nodes| :: EntryDefined(nodes[i])
  }

  /** What one node contributes: the text of an anchor's first child; nothing for
      any other node or for an anchor without children. No attribute is read. */
  function PackageEntry(n: Node): (entry: Option<string>)
    requires EntryDefined(n)
    ensures entry.Some? <==> IsAnchor(n) && n.firstChild.Some?
    ensures entry.Some? ==> n.firstChild == Some(Text(entry.value))
  {
    if !IsAnchor(n) then None
    else
      match n.firstChild
      case None => None
      case Some(child) => Some(child.text)
  }

  /** The package names a document lists. */
  function RootPackages(nodes: seq<Node>): (packages: seq<string>)
    requires RootDecodable(nodes)
    ensures |packages| <= |nodes|
  {
    FilterMap(PackageEntry, nodes)
  }

  /** Decodes the nodes of a page into a root index; it always succeeds. */
  method RootIndexFromStr(nodes: seq<Node>) returns (r: Result<RootIndex, ()>)
    requires RootDecodable(nodes)
    ensures r == Ok(RootIndex(RootPackages(nodes)))
  {
    var packages: seq<string> := [];
    for i := 0 to |nodes|
      invariant packages == RootPackages(nodes[..i])
    {
      assert nodes[..i + 1] == nodes[..i] + [nodes[i]];
      FilterMapSnoc(PackageEntry, nodes[..i], nodes[i]);
      var node := nodes[i];
      if node.localName != Some("a") {
        continue;
      }
      var package: string;
      match node.firstChild {
        case None =>
          continue;
        case Some(child) =>
          package := child.text;
      }
      packages := packages + [package];
    }
    assert nodes[..|nodes|] == nodes;
    return Ok(RootIndex(packages));
  }

  /** Decoding a concatenation of documents concatenates the package lists, so
      document order is kept. */
  lemma RootPackagesAppend(a: seq<Node>, b: seq<Node>)
    requires RootDecodable(a) && RootDecodable(b)
    ensures RootDecodable(a + b)
    ensures RootPackages(a + b) == RootPackages(a) + RootPackages(b)
  {
    FilterMapAppend(PackageEntry, a, b);
  }

  /** A node that is not an anchor, or an anchor without children, contributes nothing. */
  lemma RootPackagesSkip(before: seq<Node>, n: Node, after: seq<Node>)
    requires RootDecodable(before) && RootDecodable(after)
    requires !IsAnchor(n) || n.firstChild.None?
    ensures RootDecodable(before + [n] + after)
    ensures RootPackages(before + [n] + after) == RootPackages(before + after)
  {
    assert EntryDefined(n) && PackageEntry(n) == None;
    FilterMapSnoc(PackageEntry, before, n);
    FilterMapAppend(PackageEntry, before + [n], after);
    FilterMapAppend(PackageEntry, before, after);
  }

  /** An anchor whose first child is the text p contributes exactly p, in its place,
      whether or not p occurs elsewhere. */
  lemma RootPackagesKeep(before: seq<Node>, n: Node, after: seq<Node>, p: string)
    requires RootDecodable(before) && RootDecodable(after)
    requires IsAnchor(n) && n.firstChild == Some(Text(p))
    ensures RootDecodable(before + [n] + after)
    ensures RootPackages(before + [n] + after) == RootPackages(before) + [p] + RootPackages(after)
  {
    assert EntryDefined(n) && PackageEntry(n) == Some(p);
    FilterMapSnoc(PackageEntry, before, n);
    FilterMapAppend(PackageEntry, before + [n], after);
  }

  /** p is listed exactly when some anchor has the text p as its first child. */
  lemma RootPackagesMember(nodes: seq<Node>, p: string)
    requires RootDecodable(nodes)
    ensures p in RootPackages(nodes)
            <==> exists i :: 0 <= i < |nodes| && IsAnchor(nodes[i]) && nodes[i].firstChild == Some(Text(p))
  {
    FilterMapMember(PackageEntry, nodes, p);
    assert forall i | 0 <= i < |nodes| ::
        PackageEntry(nodes[i]) == Some(p) <==> IsAnchor(nodes[i]) && nodes[i].firstChild == Some(Text(p));
  }

  /** The list is empty exactly when no anchor has a child. */
  lemma RootPackagesEmpty(nodes: seq<Node>)
    requires RootDecodable(nodes)
    ensures RootPackages(nodes) == []
            <==> forall i :: 0 <= i < |nodes| && IsAnchor(nodes[i]) ==> nodes[i].firstChild.None?
  {
    FilterMapEmpty(PackageEntry, nodes);
  }

  /** Only the anchors of a document matter, and there are at most as many names
      as anchors. */
  lemma RootPackagesOfAnchors(nodes: seq<Node>)
    requires RootDecodable(nodes)
    ensures RootDecodable(Anchors(nodes))
    ensures RootPackages(Anchors(nodes)) == RootPackages(nodes)
    ensures |RootPackages(nodes)| <= |Anchors(nodes)|
  {
    FilterMapOfFilter(PackageEntry, IsAnchor, nodes);
  }

  /** No attribute is read: documents that differ only in attributes list the same names. */
  lemma {:induction false} RootPackagesIgnoreAttributes(a: seq<Node>, b: seq<Node>)
    requires RootDecodable(a) && |a| == |b|
    requires forall i | 0 <= i < |a| :: a[i].localName == b[i].localName && a[i].firstChild == b[i].firstChild
    ensures RootDecodable(b)
    ensures RootPackages(a) == RootPackages(b)
  {
    if a != [] {
      assert forall i | 0 <= i < |a| - 1 :: a[1..][i] == a[i + 1] && b[1..][i] == b[i + 1];
      RootPackagesIgnoreAttributes(a[1..], b[1..]);
    }
  }

  /** The anchor node that the link to p stands for. */
  function PackageAnchor(p: string): Node
  {
    AnchorNode([("href", PackageHref(p))], p)
  }

  /** The anchor nodes that the links to the packages stand for, in list order. */
  function PackageAnchors(ps: seq<string>): (anchors: seq<Node>)
    ensures |anchors| == |ps|
  {
    Map(PackageAnchor, ps)
  }

  /** Not empty: a link with an empty name has no child, so it lists nothing. */
  predicate NonEmpty(s: string)
  {
    s != ""
  }

  /** Decoding the anchors that the links of a rendered index stand for gives back
      its package list, except for empty names, whose anchors have no child;
      whatever non-anchor nodes the page has around them. */
  lemma {:induction false} RootIndexRoundTrip(index: RootIndex, nodes: seq<Node>)
    requires Anchors(nodes) == PackageAnchors(index.packages)
    ensures RootDecodable(nodes)
    ensures RootPackages(nodes) == Filter(NonEmpty, index.packages)
    ensures (forall i | 0 <= i < |index.packages| :: index.packages[i] != "") ==> RootPackages(nodes) == index.packages
  {
    var ps := index.packages;
    assert RootDecodable(nodes) by {
      forall i | 0 <= i < |nodes| ensures EntryDefined(nodes[i]) {
        if IsAnchor(nodes[i]) {
          assert nodes[i] in Anchors(nodes);
        }
      }
    }
    RootPackagesOfAnchors(nodes);
    AnchorsToPackages(ps);
    if forall i | 0 <= i < |ps| :: ps[i] != "" {
      FilterAll(NonEmpty, ps);
    }
  }

  /** Decoding the anchors of a package list gives the non-empty names. */
  lemma {:induction false} AnchorsToPackages(ps: seq<string>)
    ensures RootDecodable(PackageAnchors(ps))
    ensures RootPackages(PackageAnchors(ps)) == Filter(NonEmpty, ps)
  {
    var anchors := PackageAnchors(ps);
    if ps != [] {
      AnchorsToPackages(ps[1..]);
      MapCons(PackageAnchor, ps);
      assert EntryDefined(anchors[0]);
      FilterMapCons(PackageEntry, anchors);
      FilterCons(NonEmpty, ps);
    }
  }

  /** The root index page of numpy, protobuf and xgboost: whatever other nodes the
      page has, its three anchors decode to the three names, in order. */
  lemma RootIndexFromStrExample(nodes: seq<Node>)
    requires Anchors(nodes) == [Node(Some("a"), Some(Text("numpy")), map["href" := "/simple/numpy/"]),
                                Node(Some("a"), Some(Text("protobuf")), map["href" := "/simple/protobuf/"]),
                                Node(Some("a"), Some(Text("xgboost")), map["href" := "/simple/xgboost/"])]
    ensures RootDecodable(nodes)
    ensures RootPackages(nodes) == ["numpy", "protobuf", "xgboost"]
  {
    assert RootDecodable(nodes) by {
      forall i | 0 <= i < |nodes| ensures EntryDefined(nodes[i]) {
        if IsAnchor(nodes[i]) {
          assert nodes[i] in Anchors(nodes);
        }
      }
    }
    RootPackagesOfAnchors(nodes);
    var a := Anchors(nodes);
    assert a[1..][1..][1..] == [];
    assert RootPackages(a[1..][1..]) == ["xgboost"];
    assert RootPackages(a[1..]) == ["protobuf", "xgboost"];
  }
}
