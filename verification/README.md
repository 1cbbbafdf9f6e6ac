# Book writer flow — a Dafny model

The book writer is a three-step flow (`BookFlow` in `main.py`). It asks an
outline crew for the outline of a book on a topic and goal. It then asks a
chapter-writing crew for one chapter per outline entry and appends the
chapters to the flow state's `book`. Finally it joins the chapters into one
markdown text and saves that text to a file named after the book title.
This project models the three steps, the state they share and the records
they pass around. It then proves what the steps promise about the book that
comes out.

Files and modules:

- `types.dfy`, module `BookTypes`: the records of
  `book_writer/custom_types.py` (`ChapterOutline`, `BookOutline`,
  `Chapter`) as datatypes.
- `assembly.dfy`, module `Assembly`: the markdown each chapter contributes
  (`Section`) and the book text (`Assemble`). `Assemble` is defined the way
  the assembly loop builds it, by appending the last chapter's section.
  The module proves that the text is the in-order concatenation of one
  section per chapter, that it distributes over list concatenation, and
  what its length is.
- `filename.dfy`, module `Filename`: the output path
  `"./" + title-with-spaces-as-underscores + ".md"` and its character-wise
  properties.
- `parse.dfy`, module `BookParse`: an inverse partner for the assembly. It
  splits a book on its H1 headings, and the round trip holds for chapters
  whose title is one line and whose content never contains `"\n\n# "`.
  Both halves of the condition are needed. `AssembleNotInjective` shows one
  chapter whose content holds `"\n\n# B\n\ny"` giving the same text as two
  chapters. `TitleLineBreakCollides` shows a title holding a line break
  giving the same text as a different chapter.
- `flow.dfy`, module `Flow`: the state class `BookState` with its defaults,
  and the class `BookFlow`, whose methods `GenerateBookOutline`,
  `WriteChapters` and `JoinAndSaveChapter` are the three steps. It also
  holds `Kickoff`, which runs the three steps in order on a fresh flow. The
  two crews are parameters. The outline crew is a total function from
  (topic, goal) to a `BookOutline`. The chapter crew is a total function
  from the request that `write_single_chapter` builds (goal, topic, chapter
  title, chapter description and the whole outline) to a `Chapter`.

Chapter order: `write_chapters` starts one task per outline entry and
awaits them with `asyncio.gather`, which returns results in argument
order, not completion order. So the chapters are appended in outline
order, and the model writes them with an in-order sequential map
(`WriteEach`).

## Model

| member | source | states |
|---|---|---|
| Assembly.AssembleIsConcat | main.py:117-123 | the book text is exactly the concatenation, in list order, of `"# " + title + "\n\n" + content + "\n\n"` over the chapters |
| Assembly.AssembleAppend | main.py:117-123 | assembling `a + b` gives the text of `a` followed by the text of `b`, so chapter order in the output is list order |
| Assembly.AssembleCons | main.py:119-123 | the first chapter's section opens the book and the text of the remaining chapters follows it |
| Assembly.AssembleSplitAt | main.py:119-123 | chapter `k`'s section sits between the text of chapters `0..k-1` and the text of chapters `k+1..` |
| Assembly.AssembleLength | main.py:119-123 | the text's length is the sum over chapters of title length plus content length plus 6 |
| Assembly.AssembleEmptyIff | main.py:117-123 | the text is empty exactly when there are no chapters |
| Assembly.AssembleTwoChapters | main.py:117-123 | chapters (Intro, Hello) and (Conclusion, Bye) give `"# Intro\n\nHello\n\n# Conclusion\n\nBye\n\n"` |
| Filename.ReplaceSpaces | main.py:129 | the result has the input's length; position i is `'_'` where the input has a space and the input's character everywhere else |
| Filename.FilenameShape | main.py:129 | the filename starts with `"./"`, ends with `".md"`, is five characters longer than the title, and its middle is the title with each space turned into `'_'` and every other character kept |
| Filename.FilenameHasNoSpace | main.py:129 | no space occurs anywhere in the filename |
| Filename.UnderscoreOrigin | main.py:129 | a middle character of the filename is `'_'` exactly when the title has a space or an underscore there |
| Filename.ReplaceSpacesFixedIff | main.py:129 | the replacement leaves a title unchanged exactly when it has no space |
| Filename.ReplaceSpacesIdempotent | main.py:129 | replacing spaces twice gives the same result as replacing them once |
| Filename.ReplaceSpacesExample | main.py:129 | "My Book: V1" becomes "My_Book:_V1", so the colon is kept |
| Filename.FilenameExample | main.py:129 | the book titled "My Book: V1" is saved to "./My_Book:_V1.md" |
| BookParse.ParseSection | main.py:121-123 | one section of a readable chapter in front of a text that is empty or opens with a heading reads back as that chapter in front of what the text reads back as |
| BookParse.ParseAssemble | main.py:117-123 | splitting the assembled book on its headings gives back the same chapters in the same order when every title is one line and no content holds `"\n\n# "` |
| BookParse.AssembleNotInjective | main.py:121-123 | without that condition the text does not determine the chapters: one chapter with content `"x\n\n# B\n\ny"` gives the same text as chapters (A, x) and (B, y) |
| BookParse.TitleLineBreakCollides | main.py:121-123 | a title with a line break is not read back either: chapter ("A\n\nx", "y") gives the same text as chapter ("A", "x\n\ny") |
| Flow.WriteEach | main.py:96-104 | one chapter is written per stub |
| Flow.WriteEachAt | main.py:74-104 | entry j of the written chapters is the crew's answer to the request for stub j, which carries the state's goal and topic, the stub's title and description, and the whole outline |
| Flow.WriteEachAppend | main.py:96-104 | writing the stubs `a + b` gives the chapters for `a` followed by those for `b`, so the results keep outline order |
| Flow.TitlesFollowOutline | main.py:74-94 | when the crew echoes the requested title, chapter j carries the title of outline entry j |
| Flow.BookFromOutline | main.py:96-123 | the book assembled from a written outline has exactly one section per outline entry, in outline order, and each section is built from the crew's chapter for that entry |
| Flow.BookState.constructor | main.py:17-33 | a new state has the empty id, the default title, topic and goal, and an empty book and outline |
| Flow.BookFlow.constructor | main.py:36-41 | a new flow starts from a fresh state with those defaults |
| Flow.BookFlow.GenerateBookOutline | main.py:43-64 | the outline crew is asked with the state's topic and goal; its chapters are returned and stored as `book_outline`; no other field changes |
| Flow.BookFlow.WriteChapters | main.py:66-106 | `book` becomes the old `book` followed by one chapter per outline entry, in outline order; its length grows by the outline's length; the earlier entries are unchanged; outline, id, title, topic and goal are unchanged |
| Flow.BookFlow.JoinAndSaveChapter | main.py:110-136 | the returned text is the assembly of `book` (with length the sum of title length plus content length plus 6), and the file it is written to is the filename derived from `title` |
| Flow.Kickoff | main.py:139-144 | a run from the default state yields one section per entry of the outline for the default topic and goal, in outline order, saved under the filename of the default title |

## Left out

- The crews (`book_writer/crews/outline_book_crew/outline_crew.py` and `book_writer/crews/write_book_chapter_crew/write_book_chapter_crew.py`): agent and task wiring, language-model clients, the search tool and the environment lookup. They have no logic of their own and are parameters of the model, taken as total, deterministic functions. So in the model equal requests get equal answers: two identical outline stubs get identical chapters, which a language-model call need not do. No stated property depends on this.
- Failures of a crew kickoff: exceptions, and a missing `"chapters"`, `"title"` or `"content"` key in a crew's output. The crews are total, so no step fails. In the source such a failure propagates out of `gather` before `extend` runs, which leaves `book` unchanged.
- Validation of crew output against `BookOutline` and `Chapter` is not modelled. It is done by the schema library on language-model output.
- The concurrency of `asyncio.create_task`/`gather` is not modelled. Its observable result is modelled: an in-order map over the outline.
- The chapter crew receives the outline as a list of JSON dumps of its entries. The model passes the outline records themselves, because the serialisation is library code.
- The file write, the `print` calls, `load_dotenv` and `plot` are I/O and are not modelled. `JoinAndSaveChapter` returns the text together with the filename it would be written to, and that text is the one returned at the end of the step.
- The flow framework's event dispatch (`@start`/`@listen`) is only modelled as the fixed order of the three calls in `Kickoff`.
- The `id` field is carried and never changed. Its framework meaning is not modelled.
