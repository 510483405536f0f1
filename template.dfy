/** The document wrapper and link separator that the root index and the package
    index renderings share. */
module Template {

  /** Put between two consecutive links: a line break, a newline and four spaces. */
  const Separator: string := "<br/>\n    "

  /** Everything before the links. */
  const Header: string := "<!DOCTYPE html>\n<html>\n    <body>\n    "

  /** Everything after the links. */
  const Footer: string := "\n    </body>\n</html>"

  /** The whole page around the given links. */
  function Document(links: string): string
  {
    Header + links + Footer
  }

  /** The links can be read back from the page: the wrapper loses nothing. */
  lemma DocumentInjective(links1: string, links2: string)
    requires Document(links1) == Document(links2)
    ensures links1 == links2
  {
    var d1, d2 := Document(links1), Document(links2);
    assert links1 == d1[|Header|..|d1| - |Footer|];
    assert links2 == d2[|Header|..|d2| - |Footer|];
  }
}
