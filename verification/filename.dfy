/** The name of the output file, derived from the book title
    (`f"./{book_title.replace(' ', '_')}.md"` in join_and_save_chapter). */
module Filename {

  /** `s` with every space (U+0020) replaced by an underscore. No other
      character is touched: tabs, colons, slashes and dots stay as they are. */
  function ReplaceSpaces(s: string): (r: string)
    ensures |r| == |s|
    ensures forall i :: 0 <= i < |s| ==> r[i] == (if s[i] == ' ' then '_' else s[i])
  {
    if s == [] then "" else [if s[0] == ' ' then '_' else s[0]] + ReplaceSpaces(s[1..])
  }

  /** The path the book is written to: "./", the title with spaces replaced, ".md". */
  function OutputFilename(title: string): string
  {
    "./" + ReplaceSpaces(title) + ".md"
  }

  /** The filename starts with "./", ends with ".md", and its middle part has
      the title's length, with '_' exactly where the title has a space and the
      title's own character everywhere else. */
  lemma FilenameShape(title: string)
    ensures var f := OutputFilename(title);
      |f| == |title| + 5 &&
      f[..2] == "./" && f[|f| - 3..] == ".md" &&
      (forall i :: 0 <= i < |title| && title[i] == ' ' ==> f[i + 2] == '_') &&
      (forall i :: 0 <= i < |title| && title[i] != ' ' ==> f[i + 2] == title[i])
  {
  }

  /** No space survives in the filename. */
  lemma FilenameHasNoSpace(title: string)
    ensures ' ' !in OutputFilename(title)
  {
  }

  /** An underscore in the middle part comes from a space or an underscore of
      the title, and from nothing else. */
  lemma UnderscoreOrigin(title: string, i: nat)
    requires i < |title|
    ensures OutputFilename(title)[i + 2] == '_' <==> title[i] == ' ' || title[i] == '_'
  {
  }

  /** A title without spaces is kept verbatim, and only then. */
  lemma ReplaceSpacesFixedIff(s: string)
    ensures ReplaceSpaces(s) == s <==> ' ' !in s
  {
  }

  /** Replacing twice is replacing once. */
  lemma ReplaceSpacesIdempotent(s: string)
    ensures ReplaceSpaces(ReplaceSpaces(s)) == ReplaceSpaces(s)
  {
  }

  /** "My Book: V1" becomes "My_Book:_V1": the colon is kept.
      The title comes in as a parameter equal to the literal: with the
      literal written in the call itself, the solver unfolds ReplaceSpaces on
      it eagerly and the proof is unstable. */
  lemma ReplaceSpacesExample(t: string)
    requires t == "My Book: V1"
    ensures ReplaceSpaces(t) == "My_Book:_V1"
  {
  }

  /** The book titled "My Book: V1" is written to "./My_Book:_V1.md".
      The title is a parameter for the same reason as above. */
  lemma FilenameExample(title: string)
    requires title == "My Book: V1"
    ensures OutputFilename(title) == "./My_Book:_V1.md"
  {
  }
}
