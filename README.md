# PEP 503 simple index pages

A model of the codec in `pep-503-rs` between the HTML index pages of the Simple
Repository API (PEP 503) and three record types:

- a **root index**, the list of a repository's package names;
- a **package index**, the list of a package's releases;
- a **release**: file name, URI, whether a detached GPG signature is offered, and an
  optional Python version constraint.

Each type has a renderer and a decoder.

**Renderers** are modelled as pure functions, because the Rust `to_string` impls
only build strings.

- Each entry becomes one anchor.
- The anchors are joined by `"<br/>\n    "`.
- The result is placed in a fixed document template.
- Nothing is escaped.

**Decoders** are modelled as methods with loops, because the two `from_str` impls push
into a vector inside a `for` loop that uses `continue`.

- Each method is proved equal to a pure order-preserving filter-map over the nodes of
  the parsed page.
- The HTML parser is not modelled. A page is given as its nodes in document order,
  each reduced to what the decoders read: the element's local name, its first child
  (a text node, or another node with its text contents), and its attribute map.

Modules:

- `Wrappers`: `Option` and `Result`.
- `Seqs`: filter-map, filter, join, and cutting a string at a delimiter.
- `Html`: nodes, anchors, attribute maps, and the text form of an anchor tag.
- `Template`: the page wrapper and the separator.
- `RootIndexes`, `Releases`, `PackageIndexes`: the three record types and their
  operations.

**Partners.** Each renderer is paired with two things:

- an injectivity lemma: when no name holds `<` and no attribute value holds `"`, the page determines the value;
- a round-trip lemma at the level of anchor records: decoding the records that a
  rendered page stands for gives the value back.

Each decoder method is paired with its filter-map specification. The lemmas about that
specification cover ordering, skipping, membership, emptiness and the field decoding.

## Model

| member | source | states |
|---|---|---|
| RootIndexes.RootIndexToString | src/lib.rs:13-27 | the page is the links between the fixed header and footer, and only the two of them for an empty index; the links, their order and the separator are stated by RootIndexToStringAppend and RootIndexToStringThree, injectivity by PackageIndexes.RootIndexToStringInjective |
| RootIndexes.PackageLinkIsAnchorHtml | src/lib.rs:16 | a package link is the anchor tag with the single attribute href = `/simple/{p}/` and the text p |
| RootIndexes.RootIndexToStringAppend | src/lib.rs:13-27 | adding a package at the end adds the separator and its link after the existing links and changes nothing before them |
| RootIndexes.RootIndexToStringThree | src/lib.rs:13-27 | a three-package page is the header, the three links in list order with the separator between them, then the footer |
| RootIndexes.RootIndexToStringExample | src/lib.rs:179-189 | the index of numpy, protobuf and xgboost renders to exactly the expected document |
| RootIndexes.PackageEntry | src/lib.rs:41-51 | a node contributes a name iff it is an anchor with a first child, and the name is the text of that child |
| RootIndexes.RootPackages | src/lib.rs:38-52 | the names a page lists, at most one per node; its order, membership and emptiness are stated by RootPackagesAppend, RootPackagesMember and RootPackagesEmpty |
| RootIndexes.RootIndexFromStr | src/lib.rs:34-54 | decoding always returns Ok, with the first-child texts of the anchors in document order (RootPackages); an anchor whose first child is not text is excluded by the precondition |
| RootIndexes.RootPackagesAppend | src/lib.rs:38-52 | decoding concatenated documents concatenates the package lists |
| RootIndexes.RootPackagesSkip | src/lib.rs:42-50 | a non-anchor node, or an anchor without children, contributes nothing |
| RootIndexes.RootPackagesKeep | src/lib.rs:46-51 | an anchor whose first child is the text p contributes exactly p, in its place, with no deduplication |
| RootIndexes.RootPackagesMember | src/lib.rs:38-52 | p is listed iff some anchor's first child is the text p |
| RootIndexes.RootPackagesEmpty | src/lib.rs:38-52 | the list is empty iff no anchor has a child |
| RootIndexes.RootPackagesOfAnchors | src/lib.rs:39-44 | only anchors matter, and there are at most as many names as anchors |
| RootIndexes.RootPackagesIgnoreAttributes | src/lib.rs:38-52 | no attribute is read: documents that differ only in attributes list the same names |
| RootIndexes.AnchorsToPackages | src/lib.rs:46-51 | decoding the anchors of a name list gives the non-empty names, in order |
| RootIndexes.RootIndexRoundTrip | src/lib.rs:13-53 | decoding the anchors a rendered root index stands for gives back its names, except empty ones; exactly the names when none is empty |
| RootIndexes.RootIndexFromStrExample | src/lib.rs:166-177 | a page whose anchors are those of numpy, protobuf and xgboost decodes to those three names in order |
| Releases.ReleaseToString | src/lib.rs:138-153 | the anchor opens with the href holding the uri verbatim and closes with the name and the end tag; its full layout is stated by ReleaseToStringLayout, its unambiguity by ReleaseToStringDelimited |
| Releases.ReleaseAttributesShape | src/lib.rs:140-152 | href comes first; a requires-python attribute with value v is present iff the constraint is Some(v); `data-gpg-sig="true"` is present iff has_gpg; there are no other attributes; names appear in the order href, requires-python, gpg |
| Releases.RequiresPythonPartIsAttribute | src/lib.rs:140-144 | the requires-python part is that attribute written out, and is empty without a constraint |
| Releases.GpgSigPartIsAttribute | src/lib.rs:145-149 | the gpg part is that attribute written out, and is empty without a signature |
| Releases.ReleaseAttributesHtml | src/lib.rs:139-152 | the attributes written are href, then the optional parts, in that order |
| Releases.ReleaseToStringLayout | src/lib.rs:138-153 | a release renders as the anchor tag with exactly ReleaseAttributes, in order, and the name as its text |
| Releases.RequiresPythonPartDelimited | src/lib.rs:140-144 | in a rendered anchor, the text determines whether a constraint without `"` is present and what it is |
| Releases.GpgSigPartDelimited | src/lib.rs:145-149 | in a rendered anchor, the text determines the gpg flag |
| Releases.ReleaseToStringDelimited | src/lib.rs:138-153 | for releases whose name has no `<` and whose uri and constraint have no `"`, the anchor text determines the release and whatever follows the anchor |
| PackageIndexes.PackageIndexToString | src/lib.rs:63-78 | the page is the release anchors between the fixed header and footer, and only the two of them for an empty index; the anchors and the separator are stated by PackageIndexToStringAppend, injectivity by PackageIndexToStringInjective |
| PackageIndexes.PackageIndexToStringAppend | src/lib.rs:64-78 | adding a release at the end adds the separator and its anchor after the existing ones |
| PackageIndexes.JoinedReleaseLinksInjective | src/lib.rs:64-69 | joined anchors of delimited releases (no `<` in a name, no `"` in a uri or a constraint) determine the releases |
| PackageIndexes.PackageIndexToStringInjective | src/lib.rs:63-78 | two package indexes of delimited releases with the same page are equal; constraints such as `>=3.6` are covered |
| PackageIndexes.RootIndexToStringInjective | src/lib.rs:13-27 | two root indexes whose names hold no `<` and no `"` and that have the same page are equal |
| PackageIndexes.PackagePageReleaseLink | src/lib.rs:152 | a release named p that points at `/simple/p/`, with no signature and no constraint, renders as the root index link to p |
| PackageIndexes.RootAndPackageShareTemplate | src/lib.rs:64-78 | the package page uses the same separator and template as the root page: for such releases the two pages are identical |
| PackageIndexes.PackageReleases | src/lib.rs:88-125 | at most one release per anchor |
| PackageIndexes.PackageIndexFromStr | src/lib.rs:85-126 | decoding always returns Ok, with the releases of the anchors in document order (PackageReleases) |
| PackageIndexes.ReleaseEntry | src/lib.rs:97-122 | an anchor yields no release iff it has no first child or no href; the fields are stated by ReleaseEntryFields and GpgFlagStrict |
| PackageIndexes.ReleaseEntryFields | src/lib.rs:98-115 | name, uri and constraint are read verbatim: the first child's text contents, the href value, and data-requires-python iff present |
| PackageIndexes.GpgFlagStrict | src/lib.rs:114 | has_gpg iff data-gpg-sig is present with value exactly "true" |
| PackageIndexes.GpgFlagExamples | src/lib.rs:114 | "True", "1", "" and a missing attribute give false; "true" gives true |
| PackageIndexes.PackageReleasesAppend | src/lib.rs:88-123 | decoding concatenated documents concatenates the release lists |
| PackageIndexes.PackageReleasesSingle | src/lib.rs:97-123 | a one-node page lists the node's release iff the node is an anchor that has one |
| PackageIndexes.PackageReleasesSkip | src/lib.rs:88-109 | a non-anchor node, an anchor without children, or an anchor without href contributes nothing |
| PackageIndexes.PackageReleasesKeep | src/lib.rs:97-122 | an anchor that decodes to r contributes exactly r, in its place |
| PackageIndexes.PackageReleasesMember | src/lib.rs:88-123 | r is listed iff some anchor of the page decodes to r |
| PackageIndexes.PackageReleasesEmpty | src/lib.rs:88-123 | the list is empty iff no anchor has both a child and an href |
| PackageIndexes.PackageReleasesOrder | src/lib.rs:96-123 | the releases of two anchors appear in document order |
| PackageIndexes.ReleaseAnchorAttributes | src/lib.rs:138-153 | the anchor record of a rendered release has href = uri, a constraint attribute iff one is given (with its value), and a gpg attribute "true" iff signed |
| PackageIndexes.ReleaseRoundTrip | src/lib.rs:98-122 | decoding the anchor record of a rendered release gives the release back; an empty name gives nothing |
| PackageIndexes.AnchorsToReleases | src/lib.rs:97-123 | decoding the anchor records of a release list gives the releases with non-empty names, in order |
| PackageIndexes.PackageIndexRoundTrip | src/lib.rs:64-125 | decoding the anchors a rendered package index stands for gives back its releases, except those with empty names; exactly the releases when none has an empty name |
| PackageIndexes.XgboostAnchorDecodes | src/lib.rs:198-208 | an anchor with a file name, an href carrying a sha256 fragment, and requires-python ">=3.6" decodes to an unsigned release with that uri verbatim |
| PackageIndexes.XgboostReleaseDelimited | src/lib.rs:198-208 | a fixture-shaped release, constraint `>=3.6` included, falls under the injectivity lemmas whenever its file name has no `<` and its uri no `"` |
| PackageIndexes.FiveXgboostAnchors | src/lib.rs:193-260 | any page whose anchors are five records shaped like the xgboost fixture anchors decodes to their five releases, in the same order |
| PackageIndexes.XgboostPageExample | src/lib.rs:193-260 | a page with the five xgboost anchors decodes to the five expected releases, in order |
| Template.DocumentInjective | src/lib.rs:20-26 | the page template loses nothing: equal pages have equal link text |
| Html.Anchors | src/lib.rs:88-94 | the anchors of a page are exactly its elements named "a", and there are no more of them than nodes |

## Left out

- The HTML parser (`kuchiki::parse_html().one(s)` and `descendants()`, src/lib.rs:35 and 86). It is a foreign library. The decoders take the parsed page as a sequence of node records in document order.
- `text_contents()` of a first child that is not a text node (src/lib.rs:99). It is a field of the record, not computed from descendants.
- The panic in the root index decoder (src/lib.rs:47, `as_text().unwrap()`). An anchor whose first child is not a text node makes it panic. This is the precondition `RootDecodable`, not an error result.
- RootIndexes.RootIndexRoundTrip: stated over anchor records, not over text. `Html.AnchorNode` is the record an anchor tag is taken to parse to; that is an assumption about the parser, made only for `Html.MarkupFree` names, values and text (see below).
- PackageIndexes.PackageIndexRoundTrip: stated over anchor records, as above.
- The round trip and empty names. A name can be empty. Its anchor then has no child, and the decoder drops it. So both round trips state `Filter(HasName, …)`/`Filter(NonEmpty, …)` and hold exactly only when every name is non-empty. A round trip for all `Html.MarkupFree` values does not hold as the code is written.
- HTML escaping. The renderers do none, and neither does the model. Injectivity is proved only when the text that ends a field cannot occur in it: no `<` in a name, no `"` in a uri or a constraint.
- What the parser does to the characters it rewrites. `Html.AnchorNode` is taken to be the parse of an anchor only for `Html.MarkupFree` strings, which exclude `<`, `>`, `&`, `"`, the carriage return and NUL. HTML parsing turns a carriage return into a line feed, drops NUL from text, and decodes character references after `&`. None of this is modelled, so a name such as `"a\rb"` is outside the round trip's assumption.
- Loading the test fixtures from files (src/lib.rs:166, 194). Only the expected values are kept, as the example lemmas. The fixture pages are not part of this model, so the xgboost page is given by its five anchor records.
- Package name normalization. It is not part of src/lib.rs.
- Rust strings are UTF-8 byte strings. The model uses sequences of characters.
