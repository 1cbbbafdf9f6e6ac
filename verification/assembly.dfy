/** Book assembly: how the finished chapters become one markdown text
    (the loop of join_and_save_chapter in main.py). */
module Assembly {
  import opened BookTypes

  /** The markdown one chapter contributes: an H1 heading line with its title,
      a blank line, its content, a blank line. */
  function Section(c: Chapter): string
  {
    "# " + c.title + "\n\n" + c.content + "\n\n"
  }

  /** The book text for `cs`, built the way the assembly loop builds it:
      the text of all chapters but the last, then the last one's section. */
  function Assemble(cs: seq<Chapter>): string
  {
    if cs == [] then "" else Assemble(cs[..|cs| - 1]) + Section(cs[|cs| - 1])
  }

  /** The sections of `cs`, one per chapter, in list order. */
  function Sections(cs: seq<Chapter>): seq<string>
  {
    seq(|cs|, i requires 0 <= i < |cs| => Section(cs[i]))
  }

  /** Reference definition: the parts joined front to back. */
  function Concat(parts: seq<string>): string
  {
    if parts == [] then "" else parts[0] + Concat(parts[1..])
  }

  /** The size each chapter adds to the book: its title, its content and the
      six characters of markup around them ("# " and two "\n\n"). */
  function TotalSize(cs: seq<Chapter>): nat
  {
    if cs == [] then 0 else |cs[0].title| + |cs[0].content| + 6 + TotalSize(cs[1..])
  }

  /** Assembly distributes over list concatenation: the chapters of `a`
      come first in the text, those of `b` after them. */
  lemma {:induction false} AssembleAppend(a: seq<Chapter>, b: seq<Chapter>)
    ensures Assemble(a + b) == Assemble(a) + Assemble(b)
  {
    if b == [] {
      assert a + b == a;
    } else {
      var front := b[..|b| - 1];
      assert (a + b)[..|a + b| - 1] == a + front;
      assert (a + b)[|a + b| - 1] == b[|b| - 1];
      AssembleAppend(a, front);
    }
  }

  /** The first chapter's section opens the book; the rest follows it. */
  lemma {:induction false} AssembleCons(c: Chapter, cs: seq<Chapter>)
    ensures Assemble([c] + cs) == Section(c) + Assemble(cs)
  {
    AssembleAppend([c], cs);
    assert [c][..0] == [];
  }

  /** The assembled text is exactly the in-order concatenation of one
      section per chapter. */
  lemma {:induction false} AssembleIsConcat(cs: seq<Chapter>)
    ensures Assemble(cs) == Concat(Sections(cs))
  {
    if cs != [] {
      assert cs == [cs[0]] + cs[1..];
      AssembleCons(cs[0], cs[1..]);
      AssembleIsConcat(cs[1..]);
      assert Sections(cs)[1..] == Sections(cs[1..]);
    }
  }

  /** Chapter `k` sits between the text of the chapters before it and the
      text of the chapters after it: the output keeps list order. */
  lemma {:induction false} AssembleSplitAt(cs: seq<Chapter>, k: nat)
    requires k < |cs|
    ensures Assemble(cs) == Assemble(cs[..k]) + Section(cs[k]) + Assemble(cs[k + 1..])
  {
    assert cs == cs[..k] + ([cs[k]] + cs[k + 1..]);
    AssembleAppend(cs[..k], [cs[k]] + cs[k + 1..]);
    AssembleCons(cs[k], cs[k + 1..]);
  }

  /** The assembled length is the sum, over chapters, of title length plus
      content length plus six. */
  lemma {:induction false} AssembleLength(cs: seq<Chapter>)
    ensures |Assemble(cs)| == TotalSize(cs)
  {
    if cs != [] {
      assert cs == [cs[0]] + cs[1..];
      AssembleCons(cs[0], cs[1..]);
      AssembleLength(cs[1..]);
    }
  }

  /** The book text is empty exactly when there are no chapters. */
  lemma AssembleEmptyIff(cs: seq<Chapter>)
    ensures Assemble(cs) == "" <==> cs == []
  {
  }

  /** Two chapters, (Intro, Hello) and (Conclusion, Bye). */
  lemma AssembleTwoChapters()
    ensures Assemble([Chapter("Intro", "Hello"), Chapter("Conclusion", "Bye")])
            == "# Intro\n\nHello\n\n# Conclusion\n\nBye\n\n"
  {
  }
}
