/** A release: one downloadable artifact of a package, rendered as one anchor of
    the package index page. */
module Releases {
  import opened Wrappers
  import opened Seqs
  import opened Html

  /** The artifact's file name (the anchor text), its URI (the href, kept verbatim,
      fragment included), whether a detached signature is offered, and the Python
      version constraint, kept verbatim when given. */
  datatype Release = Release(name: string, uri: string, hasGpg: bool, requiresPython: Option<string>)

  /* ---------------------------------------------------------------- rendering */

  /** The optional ` data-requires-python="…"` part; empty without a constraint. */
  function RequiresPythonPart(r: Release): string
  {
    match r.requiresPython
    case Some(v) => " data-requires-python=\"" + (v + "\"")
    case None => ""
  }

  /** The optional ` data-gpg-sig="true"` part; empty without a signature. */
  function GpgSigPart(r: Release): string
  {
    if r.hasGpg then " data-gpg-sig=\"true\"" else ""
  }

  /** The anchor of a release; nothing is escaped. It opens with the href, whose
      value begins with the uri verbatim, and closes with the name and the end tag. */
  function ReleaseToString(r: Release): (s: string)
    ensures |s| >= 9 + |r.uri| + |r.name| + 4
    ensures s[..9] == "<a href=\"" && s[9..9 + |r.uri|] == r.uri
    ensures s[|s| - |r.name| - 4..] == r.name + "</a>"
  {
    "<a href=\"" + (r.uri + ("\"" + (RequiresPythonPart(r) + (GpgSigPart(r) + (">" + (r.name + "</a>"))))))
  }

  /** The position of an attribute name in the fixed order href, data-requires-python,
      data-gpg-sig. */
  function AttributeRank(name: string): int
  {
    if name == "href" then 0 else if name == "data-requires-python" then 1 else 2
  }

  /** The requires-python attribute, when a constraint is given. */
  function RequiresPythonAttributes(r: Release): seq<Attribute>
  {
    match r.requiresPython
    case Some(v) => [("data-requires-python", v)]
    case None => []
  }

  /** The gpg attribute, when a signature is offered. */
  function GpgSigAttributes(r: Release): seq<Attribute>
  {
    if r.hasGpg then [("data-gpg-sig", "true")] else []
  }

  /** The attributes a release's anchor carries, in the order they are written. */
  function ReleaseAttributes(r: Release): seq<Attribute>
  {
    [("href", r.uri)] + (RequiresPythonAttributes(r) + GpgSigAttributes(r))
  }

  /** href first; a requires-python attribute exactly when a constraint is given,
      with that constraint; a gpg attribute, valued "true", exactly when a signature
      is offered; nothing else, and the names in the fixed order, so none twice. */
  lemma ReleaseAttributesShape(r: Release)
    ensures var attrs := ReleaseAttributes(r);
      && |attrs| >= 1 && attrs[0] == ("href", r.uri)
      && (forall v :: ("data-requires-python", v) in attrs <==> r.requiresPython == Some(v))
      && (("data-gpg-sig", "true") in attrs <==> r.hasGpg)
      && (forall i | 0 <= i < |attrs| ::
            attrs[i] == ("href", r.uri)
            || (r.requiresPython.Some? && attrs[i] == ("data-requires-python", r.requiresPython.value))
            || (r.hasGpg && attrs[i] == ("data-gpg-sig", "true")))
      && (forall i, j | 0 <= i < j < |attrs| :: AttributeRank(attrs[i].0) < AttributeRank(attrs[j].0))
  {
  }

  /** The text before a requires-python value. */
  lemma RequiresPythonPrefix()
    ensures " " + "data-requires-python" + "=\"" == " data-requires-python=\""
  {
  }

  /** The requires-python part is that attribute written out. */
  lemma RequiresPythonPartIsAttribute(r: Release)
    ensures AttributesHtml(RequiresPythonAttributes(r)) == RequiresPythonPart(r)
  {
    match r.requiresPython {
      case None =>
      case Some(v) =>
        AttributeText("data-requires-python", v);
        RequiresPythonPrefix();
    }
  }

  /** The gpg part is that attribute written out. */
  lemma GpgSigPartIsAttribute(r: Release)
    ensures AttributesHtml(GpgSigAttributes(r)) == GpgSigPart(r)
  {
    if r.hasGpg {
      AttributeText("data-gpg-sig", "true");
      assert (" " + "data-gpg-sig" + "=\"") + ("true" + "\"") == " data-gpg-sig=\"true\"";
    }
  }

  /** The attributes of a release written out: href, then the optional parts. */
  lemma ReleaseAttributesHtml(r: Release)
    ensures AttributesHtml(ReleaseAttributes(r)) == " href=\"" + (r.uri + ("\"" + (RequiresPythonPart(r) + GpgSigPart(r))))
  {
    var rp, gpg := RequiresPythonAttributes(r), GpgSigAttributes(r);
    AttributesHtmlAppend([("href", r.uri)], rp + gpg);
    AttributesHtmlAppend(rp, gpg);
    RequiresPythonPartIsAttribute(r);
    GpgSigPartIsAttribute(r);
    AttributeText("href", r.uri);
    assert " " + "href" + "=\"" == " href=\"";
    var optional := RequiresPythonPart(r) + GpgSigPart(r);
    AppendAssoc(" href=\"", r.uri + "\"", optional);
    AppendAssoc(r.uri, "\"", optional);
  }

  /** Rendering writes exactly the attributes of ReleaseAttributes, in that order,
      then the name as the anchor text. */
  lemma ReleaseToStringLayout(r: Release)
    ensures ReleaseToString(r) == AnchorHtml(ReleaseAttributes(r), r.name)
  {
    ReleaseAttributesHtml(r);
    var href, quote := " href=\"", "\"";
    var rp, gpg := RequiresPythonPart(r), GpgSigPart(r);
    var tail := ">" + (r.name + "</a>");
    var y := r.uri + (quote + (rp + gpg));
    AppendAssoc(href, y, tail);
    AppendAssoc(r.uri, quote + (rp + gpg), tail);
    AppendAssoc(quote, rp + gpg, tail);
    AppendAssoc(rp, gpg, tail);
    var z := r.uri + (quote + (rp + (gpg + tail)));
    AppendAssoc("<a", href, z);
    assert "<a" + href == "<a href=\"";
  }

  /** The anchor node that a release's anchor stands for in a parsed page. */
  function ReleaseAnchor(r: Release): Node
  {
    AnchorNode(ReleaseAttributes(r), r.name)
  }

  /** A release whose anchor can be read back without ambiguity: its name holds no
      '<', which would end the anchor text, and its uri and constraint hold no
      '"', which would end the attribute value. Every other character is allowed,
      so constraints such as ">=3.6" are covered. */
  predicate DelimitedRelease(r: Release)
  {
    '<' !in r.name && '"' !in r.uri && (r.requiresPython.Some? ==> '"' !in r.requiresPython.value)
  }

  /** How the requires-python part begins, whatever follows it. */
  lemma RequiresPythonPartStart(r: Release, u: string)
    ensures r.requiresPython.None? ==> RequiresPythonPart(r) + u == u
    ensures r.requiresPython.Some? ==>
              var s := RequiresPythonPart(r) + u; |s| > 6 && s[0] == ' ' && s[6] == 'r'
    ensures r.requiresPython.Some? ==>
              RequiresPythonPart(r) + u == " data-requires-python=\"" + (r.requiresPython.value + (['"'] + u))
  {
  }

  /** How the gpg part begins, whatever follows it. */
  lemma GpgSigPartStart(r: Release, u: string)
    ensures !r.hasGpg ==> GpgSigPart(r) + u == u
    ensures r.hasGpg ==> var s := GpgSigPart(r) + u; |s| > 6 && s[0] == ' ' && s[6] == 'g'
  {
  }

  /** After the requires-python part comes either '>' or the gpg part, told apart
      from the requires-python part by its first and seventh characters; a
      constraint without '"' ends at the closing quote. */
  lemma RequiresPythonPartDelimited(r1: Release, u1: string, r2: Release, u2: string)
    requires r1.requiresPython.Some? ==> '"' !in r1.requiresPython.value
    requires r2.requiresPython.Some? ==> '"' !in r2.requiresPython.value
    requires |u1| > 0 && (u1[0] == '>' || (|u1| > 6 && u1[0] == ' ' && u1[6] == 'g'))
    requires |u2| > 0 && (u2[0] == '>' || (|u2| > 6 && u2[0] == ' ' && u2[6] == 'g'))
    requires RequiresPythonPart(r1) + u1 == RequiresPythonPart(r2) + u2
    ensures r1.requiresPython == r2.requiresPython && u1 == u2
  {
    RequiresPythonPartStart(r1, u1);
    RequiresPythonPartStart(r2, u2);
    var start := " data-requires-python=\"";
    match (r1.requiresPython, r2.requiresPython) {
      case (None, None) =>
      case (Some(v1), None) =>
      case (None, Some(v2)) =>
      case (Some(v1), Some(v2)) =>
        var s1, s2 := RequiresPythonPart(r1) + u1, RequiresPythonPart(r2) + u2;
        assert v1 + (['"'] + u1) == s1[|start|..];
        assert v2 + (['"'] + u2) == s2[|start|..];
        CutAtDelimiter('"', v1, u1, v2, u2);
    }
  }

  /** After the gpg part comes '>'. */
  lemma GpgSigPartDelimited(r1: Release, u1: string, r2: Release, u2: string)
    requires |u1| > 0 && u1[0] == '>' && |u2| > 0 && u2[0] == '>'
    requires GpgSigPart(r1) + u1 == GpgSigPart(r2) + u2
    ensures r1.hasGpg == r2.hasGpg && u1 == u2
  {
    GpgSigPartStart(r1, u1);
    GpgSigPartStart(r2, u2);
    if r1.hasGpg && r2.hasGpg {
      var s1, s2 := GpgSigPart(r1) + u1, GpgSigPart(r2) + u2;
      assert u1 == s1[|GpgSigPart(r1)|..] && u2 == s2[|GpgSigPart(r2)|..];
    }
  }

  /** A release's anchor followed by x, regrouped at the places where one part ends
      and the next begins. */
  lemma ReleaseToStringThen(r: Release, x: string)
    ensures ReleaseToString(r) + x
            == "<a href=\"" + (r.uri + (['"'] + (RequiresPythonPart(r) + (GpgSigPart(r)
               + (['>'] + (r.name + (['<'] + ("/a>" + x))))))))
  {
    var e := ['<'] + ("/a>" + x);
    assert "</a>" + x == e;
    var n := r.name + e;
    assert (r.name + "</a>") + x == n;
    var v := ['>'] + n;
    assert (">" + (r.name + "</a>")) + x == v;
    var g := GpgSigPart(r) + v;
    assert (GpgSigPart(r) + (">" + (r.name + "</a>"))) + x == g;
    var t := RequiresPythonPart(r) + g;
    assert (RequiresPythonPart(r) + (GpgSigPart(r) + (">" + (r.name + "</a>")))) + x == t;
    var q := ['"'] + t;
    assert ("\"" + (RequiresPythonPart(r) + (GpgSigPart(r) + (">" + (r.name + "</a>"))))) + x == q;
    var u := r.uri + q;
    assert (r.uri + ("\"" + (RequiresPythonPart(r) + (GpgSigPart(r) + (">" + (r.name + "</a>")))))) + x == u;
  }

  /** The anchor of a delimited release ends where its text says: the release and
      whatever follows the anchor are determined by the string. */
  lemma ReleaseToStringDelimited(r1: Release, x1: string, r2: Release, x2: string)
    requires DelimitedRelease(r1) && DelimitedRelease(r2)
    requires ReleaseToString(r1) + x1 == ReleaseToString(r2) + x2
    ensures r1 == r2 && x1 == x2
  {
    ReleaseToStringThen(r1, x1);
    ReleaseToStringThen(r2, x2);
    var start := "<a href=\"";
    var e1, e2 := ['<'] + ("/a>" + x1), ['<'] + ("/a>" + x2);
    var v1, v2 := ['>'] + (r1.name + e1), ['>'] + (r2.name + e2);
    var g1, g2 := GpgSigPart(r1) + v1, GpgSigPart(r2) + v2;
    var t1, t2 := RequiresPythonPart(r1) + g1, RequiresPythonPart(r2) + g2;
    var s1, s2 := ReleaseToString(r1) + x1, ReleaseToString(r2) + x2;
    assert r1.uri + (['"'] + t1) == s1[|start|..];
    assert r2.uri + (['"'] + t2) == s2[|start|..];
    CutAtDelimiter('"', r1.uri, t1, r2.uri, t2);
    GpgSigPartStart(r1, v1);
    GpgSigPartStart(r2, v2);
    RequiresPythonPartDelimited(r1, g1, r2, g2);
    GpgSigPartDelimited(r1, v1, r2, v2);
    assert r1.name + e1 == v1[1..] && r2.name + e2 == v2[1..];
    CutAtDelimiter('<', r1.name, "/a>" + x1, r2.name, "/a>" + x2);
    assert x1 == ("/a>" + x1)[3..] && x2 == ("/a>" + x2)[3..];
  }
}
