/** The three steps of BookFlow in main.py and the state they share.
    The two crews are opaque: each is a parameter, a total function from the
    inputs the source passes to its kickoff to the structured output it reads. */
module Flow {
  import opened BookTypes
  import Assembly
  import Filename

  /** The inputs of the outline crew's kickoff. */
  datatype OutlineRequest = OutlineRequest(topic: string, goal: string)

  /** The inputs of one chapter-writing crew kickoff: the shared goal and
      topic, the stub to write, and the whole outline as context. */
  datatype ChapterRequest = ChapterRequest(
    goal: string,
    topic: string,
    chapterTitle: string,
    chapterDescription: string,
    bookOutline: seq<ChapterOutline>)

  /** The outline crew: from topic and goal to a structured outline. */
  type OutlineCrew = OutlineRequest -> BookOutline

  /** The chapter-writing crew: from one request to a finished chapter. */
  type ChapterCrew = ChapterRequest -> Chapter

  const DefaultTitle: string := "Python Design Patterns for Machine Learning"
  const DefaultTopic: string := "Python Design Patterns for Machine Learning"
  const DefaultGoal: string :=
    "The goal of this book is to provide a comprehensive overview with "
    + "examples of the most common design patterns used in machine learning. "
    + "It will be a practical guide with real-world examples and use cases. "
    + "It will be written in a way that is easy to understand and "
    + "follow."

  /** What write_single_chapter asks the crew for one stub. */
  function RequestFor(goal: string, topic: string, stub: ChapterOutline, outline: seq<ChapterOutline>): ChapterRequest
  {
    ChapterRequest(goal, topic, stub.title, stub.description, outline)
  }

  /** The chapters written for `stubs`, one per stub and in stub order, every
      request carrying the same goal, topic and outline context. */
  function WriteEach(crew: ChapterCrew, goal: string, topic: string,
                     context: seq<ChapterOutline>, stubs: seq<ChapterOutline>): (r: seq<Chapter>)
    ensures |r| == |stubs|
  {
    if stubs == [] then []
    else WriteEach(crew, goal, topic, context, stubs[..|stubs| - 1])
         + [crew(RequestFor(goal, topic, stubs[|stubs| - 1], context))]
  }

  /** The chapters write_chapters produces for an outline: one per entry,
      with the outline itself as the shared context. */
  function WrittenChapters(crew: ChapterCrew, goal: string, topic: string,
                           outline: seq<ChapterOutline>): seq<Chapter>
  {
    WriteEach(crew, goal, topic, outline, outline)
  }

  /** Entry `j` of the result is the crew's chapter for stub `j`. */
  lemma {:induction false} WriteEachAt(crew: ChapterCrew, goal: string, topic: string,
                                       context: seq<ChapterOutline>, stubs: seq<ChapterOutline>, j: nat)
    requires j < |stubs|
    ensures WriteEach(crew, goal, topic, context, stubs)[j]
            == crew(RequestFor(goal, topic, stubs[j], context))
  {
    if j < |stubs| - 1 {
      WriteEachAt(crew, goal, topic, context, stubs[..|stubs| - 1], j);
    }
  }

  /** Writing distributes over the stubs: writing `a + b` is writing `a`
      and then `b`, so the result keeps the stubs' order. */
  lemma {:induction false} WriteEachAppend(crew: ChapterCrew, goal: string, topic: string,
                                           context: seq<ChapterOutline>, a: seq<ChapterOutline>, b: seq<ChapterOutline>)
    ensures WriteEach(crew, goal, topic, context, a + b)
            == WriteEach(crew, goal, topic, context, a) + WriteEach(crew, goal, topic, context, b)
  {
    if b == [] {
      assert a + b == a;
    } else {
      var front := b[..|b| - 1];
      assert (a + b)[..|a + b| - 1] == a + front;
      assert (a + b)[|a + b| - 1] == b[|b| - 1];
      WriteEachAppend(crew, goal, topic, context, a, front);
    }
  }

  /** When the crew echoes the requested title, the written chapters carry
      the outline's titles, in outline order. */
  lemma TitlesFollowOutline(crew: ChapterCrew, goal: string, topic: string, outline: seq<ChapterOutline>)
    requires forall q: ChapterRequest :: crew(q).title == q.chapterTitle
    ensures var written := WrittenChapters(crew, goal, topic, outline);
      forall j :: 0 <= j < |outline| ==> written[j].title == outline[j].title
  {
    forall j | 0 <= j < |outline|
      ensures WrittenChapters(crew, goal, topic, outline)[j].title == outline[j].title
    {
      WriteEachAt(crew, goal, topic, outline, outline, j);
    }
  }

  /** The book assembled from a written outline holds exactly one section per
      outline entry, in outline order, each the crew's chapter for that entry. */
  lemma BookFromOutline(crew: ChapterCrew, goal: string, topic: string, outline: seq<ChapterOutline>)
    ensures Assembly.Assemble(WrittenChapters(crew, goal, topic, outline))
            == Assembly.Concat(seq(|outline|, i requires 0 <= i < |outline| =>
                 Assembly.Section(crew(RequestFor(goal, topic, outline[i], outline)))))
  {
    var written := WrittenChapters(crew, goal, topic, outline);
    Assembly.AssembleIsConcat(written);
    forall i | 0 <= i < |outline|
      ensures written[i] == crew(RequestFor(goal, topic, outline[i], outline))
    {
      WriteEachAt(crew, goal, topic, outline, outline, i);
    }
    assert Assembly.Sections(written) == seq(|outline|, i requires 0 <= i < |outline| =>
      Assembly.Section(crew(RequestFor(goal, topic, outline[i], outline))));
  }

  /** The pipeline state (BookState). Every field starts at its default. */
  class BookState {
    var id: string
    var title: string
    var book: seq<Chapter>
    var bookOutline: seq<ChapterOutline>
    var topic: string
    var goal: string

    constructor ()
      ensures id == "" && title == DefaultTitle && topic == DefaultTopic && goal == DefaultGoal
      ensures book == [] && bookOutline == []
    {
      id := "";
      title := DefaultTitle;
      book := [];
      bookOutline := [];
      topic := DefaultTopic;
      goal := DefaultGoal;
    }
  }

  /** The flow: three steps that run in order over one shared state. */
  class BookFlow {
    const state: BookState

    constructor ()
      ensures fresh(state)
      ensures state.id == "" && state.title == DefaultTitle
      ensures state.topic == DefaultTopic && state.goal == DefaultGoal
      ensures state.book == [] && state.bookOutline == []
    {
      state := new BookState();
    }

    /** Step 1: ask the outline crew for the outline of the state's topic and
        goal and store its chapters; nothing else in the state changes. */
    method GenerateBookOutline(outlineCrew: OutlineCrew) returns (chapters: seq<ChapterOutline>)
      modifies state
      ensures chapters == outlineCrew(OutlineRequest(old(state.topic), old(state.goal))).chapters
      ensures state.bookOutline == chapters
      ensures state.book == old(state.book) && state.id == old(state.id) && state.title == old(state.title)
      ensures state.topic == old(state.topic) && state.goal == old(state.goal)
    {
      var output := outlineCrew(OutlineRequest(state.topic, state.goal));
      chapters := output.chapters;
      state.bookOutline := chapters;
    }

    /** Step 2: write one chapter per outline entry and append them to the
        book in outline order; the earlier chapters and every other field
        stay as they were. */
    method WriteChapters(chapterCrew: ChapterCrew)
      modifies state
      ensures state.book == old(state.book)
                            + WrittenChapters(chapterCrew, old(state.goal), old(state.topic), old(state.bookOutline))
      ensures |state.book| == |old(state.book)| + |old(state.bookOutline)|
      ensures state.book[..|old(state.book)|] == old(state.book)
      ensures forall j :: 0 <= j < |old(state.bookOutline)| ==>
                state.book[|old(state.book)| + j]
                == chapterCrew(RequestFor(old(state.goal), old(state.topic), old(state.bookOutline)[j], old(state.bookOutline)))
      ensures state.bookOutline == old(state.bookOutline) && state.id == old(state.id)
      ensures state.title == old(state.title) && state.topic == old(state.topic) && state.goal == old(state.goal)
    {
      var tasks: seq<Chapter> := [];
      for i := 0 to |state.bookOutline|
        invariant tasks == WriteEach(chapterCrew, state.goal, state.topic, state.bookOutline, state.bookOutline[..i])
      {
        var chapter := chapterCrew(RequestFor(state.goal, state.topic, state.bookOutline[i], state.bookOutline));
        assert state.bookOutline[..i + 1][..i] == state.bookOutline[..i];
        tasks := tasks + [chapter];
      }
      assert state.bookOutline[..|state.bookOutline|] == state.bookOutline;
      ghost var before := state.book;
      state.book := state.book + tasks;
      forall j | 0 <= j < |state.bookOutline|
        ensures state.book[|before| + j]
                == chapterCrew(RequestFor(state.goal, state.topic, state.bookOutline[j], state.bookOutline))
      {
        WriteEachAt(chapterCrew, state.goal, state.topic, state.bookOutline, state.bookOutline, j);
      }
    }

    /** Step 3: join the book's chapters into one markdown text and derive the
        file it is saved to; the text returned is the text written. */
    method JoinAndSaveChapter() returns (bookContent: string, filename: string)
      ensures bookContent == Assembly.Assemble(state.book)
      ensures |bookContent| == Assembly.TotalSize(state.book)
      ensures filename == Filename.OutputFilename(state.title)
    {
      bookContent := "";
      for i := 0 to |state.book|
        invariant bookContent == Assembly.Assemble(state.book[..i])
      {
        var chapter := state.book[i];
        assert state.book[..i + 1][..i] == state.book[..i];
        bookContent := bookContent + "# " + chapter.title + "\n\n";
        bookContent := bookContent + chapter.content + "\n\n";
      }
      assert state.book[..|state.book|] == state.book;
      Assembly.AssembleLength(state.book);
      filename := Filename.OutputFilename(state.title);
    }
  }

  /** A whole run from the default state: outline, then chapters, then the
      joined book. The text holds one section per outline entry, in outline
      order, and goes to the file named after the default title. */
  method Kickoff(outlineCrew: OutlineCrew, chapterCrew: ChapterCrew) returns (bookContent: string, filename: string)
    ensures var outline := outlineCrew(OutlineRequest(DefaultTopic, DefaultGoal)).chapters;
      bookContent == Assembly.Concat(seq(|outline|, i requires 0 <= i < |outline| =>
        Assembly.Section(chapterCrew(RequestFor(DefaultGoal, DefaultTopic, outline[i], outline)))))
    ensures filename == Filename.OutputFilename(DefaultTitle)
  {
    var flow := new BookFlow();
    var outline := flow.GenerateBookOutline(outlineCrew);
    flow.WriteChapters(chapterCrew);
    bookContent, filename := flow.JoinAndSaveChapter();
    BookFromOutline(chapterCrew, DefaultGoal, DefaultTopic, outline);
  }
}
