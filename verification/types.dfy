/** The records of book_writer/custom_types.py. They carry no behaviour of
    their own: every operation on them lives in Assembly, Filename and Flow. */
module BookTypes {

  /** One stub of the outline: the title of a chapter and what it should cover. */
  datatype ChapterOutline = ChapterOutline(title: string, description: string)

  /** The structured result of the outline crew: the chapter stubs in book order. */
  datatype BookOutline = BookOutline(chapters: seq<ChapterOutline>)

  /** A finished chapter as produced by the chapter-writing crew. */
  datatype Chapter = Chapter(title: string, content: string)
}
