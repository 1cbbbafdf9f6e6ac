/** Reading an assembled book back: split the markdown on its H1 headings
    and recover the chapters. This is the inverse partner of
    Assembly.Assemble; it states how much of the chapter list the book text
    determines. */
module BookParse {
  import opened BookTypes
  import Assembly

  datatype Option<T> = None | Some(value: T)

  /** At position `k` of `s` one section ends and the next heading starts:
      "\n\n# ". */
  predicate HeadingBreak(s: string, k: nat)
  {
    k + 4 <= |s| && s[k] == '\n' && s[k + 1] == '\n' && s[k + 2] == '#' && s[k + 3] == ' '
  }

  /** A chapter whose section can be read back unambiguously: a one-line
      title, and content that never contains "\n\n# ". */
  predicate Readable(c: Chapter)
  {
    '\n' !in c.title && forall k: nat :: k < |c.content| ==> !HeadingBreak(c.content, k)
  }

  /** The index of the first line break in `s`, or |s| when there is none. */
  function LineEnd(s: string): (k: nat)
    ensures k <= |s|
    ensures forall i :: 0 <= i < k ==> s[i] != '\n'
    ensures k < |s| ==> s[k] == '\n'
  {
    if s == [] || s[0] == '\n' then 0 else 1 + LineEnd(s[1..])
  }

  /** Where the content starting at `from` ends: at the first heading break,
      or two characters before the end of the text when the text ends in
      "\n\n"; None when neither happens. */
  function ContentEnd(s: string, from: nat): (e: Option<nat>)
    decreases |s| - from
    ensures e.Some? ==> from <= e.value && e.value + 2 <= |s|
  {
    if from + 2 > |s| then None
    else if from + 2 == |s| && s[from] == '\n' && s[from + 1] == '\n' then Some(from)
    else if HeadingBreak(s, from) then Some(from)
    else ContentEnd(s, from + 1)
  }

  /** Split a book text into chapters: "# ", a title line, a blank line, the
      content up to the next heading (or the end), a blank line. */
  function ParseBook(s: string): Option<seq<Chapter>>
    decreases |s|
  {
    if s == "" then Some([])
    else if |s| < 2 || s[0] != '#' || s[1] != ' ' then None
    else
      var body := s[2..];
      var t := LineEnd(body);
      if t + 2 > |body| || body[t + 1] != '\n' then None
      else
        var rest := body[t + 2..];
        match ContentEnd(rest, 0)
        case None => None
        case Some(e) =>
          match ParseBook(rest[e + 2..])
          case None => None
          case Some(cs) => Some([Chapter(body[..t], rest[..e])] + cs)
  }

  /** A title without line breaks ends at the first one after it. */
  lemma LineEndOf(t: string, tail: string)
    requires '\n' !in t
    ensures LineEnd(t + "\n\n" + tail) == |t|
  {
    var s := t + "\n\n" + tail;
    assert s[|t|] == '\n';
    assert forall i :: 0 <= i < |t| ==> s[i] == t[i] && s[i] != '\n';
  }

  /** In content + "\n\n" + next, where next is empty or opens with a
      heading, the content ends exactly where the content ends. */
  lemma {:induction false} ContentEndOf(content: string, next: string, from: nat)
    requires forall k: nat :: k < |content| ==> !HeadingBreak(content, k)
    requires next == "" || (|next| >= 2 && next[0] == '#' && next[1] == ' ')
    requires from <= |content|
    ensures ContentEnd(content + "\n\n" + next, from) == Some(|content|)
    decreases |content| - from
  {
    var s := content + "\n\n" + next;
    if from < |content| {
      assert !HeadingBreak(s, from) by {
        if from + 4 <= |content| {
          assert !HeadingBreak(content, from);
          assert s[from..from + 4] == content[from..from + 4];
        } else if from + 3 == |content| {
          assert s[from + 3] == '\n';
        } else {
          assert s[|content|] == '\n';
        }
      }
      ContentEndOf(content, next, from + 1);
    } else {
      assert s[from] == '\n' && s[from + 1] == '\n';
      if next != "" {
        assert s[from + 2] == '#' && s[from + 3] == ' ';
      }
    }
  }

  /** A non-empty book opens with a heading. */
  lemma AssembleOpensWithHeading(cs: seq<Chapter>)
    requires cs != []
    ensures |Assembly.Assemble(cs)| >= 2
    ensures Assembly.Assemble(cs)[0] == '#' && Assembly.Assemble(cs)[1] == ' '
  {
  }

  /** The text of a section followed by `next`, cut after its "# ". */
  lemma SectionText(c: Chapter, next: string)
    ensures var s := Assembly.Section(c) + next;
      |s| >= 2 && s[0] == '#' && s[1] == ' ' &&
      s[2..] == c.title + "\n\n" + (c.content + "\n\n" + next)
  {
  }

  /** One readable section in front of a text that is empty or opens with
      a heading reads back as that chapter in front of whatever the text
      reads back as. */
  lemma ParseSection(c: Chapter, next: string)
    requires Readable(c)
    requires next == "" || (|next| >= 2 && next[0] == '#' && next[1] == ' ')
    ensures ParseBook(Assembly.Section(c) + next)
            == match ParseBook(next)
               case None => None
               case Some(cs) => Some([c] + cs)
  {
    var s := Assembly.Section(c) + next;
    var rest := c.content + "\n\n" + next;
    var body := c.title + "\n\n" + rest;
    SectionText(c, next);
    var t := |c.title|;
    LineEndOf(c.title, rest);
    assert body[t + 1] == '\n';
    assert body[t + 2..] == rest;
    assert body[..t] == c.title;
    ContentEndOf(c.content, next, 0);
    var e := |c.content|;
    assert rest[..e] == c.content;
    assert rest[e + 2..] == next;
  }

  /** Round trip: reading back the book assembled from readable chapters
      gives the same chapters, in the same order. */
  lemma {:induction false} ParseAssemble(cs: seq<Chapter>)
    requires forall i :: 0 <= i < |cs| ==> Readable(cs[i])
    ensures ParseBook(Assembly.Assemble(cs)) == Some(cs)
  {
    if cs != [] {
      var c, more := cs[0], cs[1..];
      assert cs == [c] + more;
      assert Readable(c);
      Assembly.AssembleCons(c, more);
      if more != [] {
        AssembleOpensWithHeading(more);
      }
      ParseAssemble(more);
      ParseSection(c, Assembly.Assemble(more));
    }
  }

  /** Without the readability condition the book text does not determine
      the chapters: content holding "\n\n# " reads as two chapters. */
  lemma AssembleNotInjective()
    ensures Assembly.Assemble([Chapter("A", "x\n\n# B\n\ny")])
            == Assembly.Assemble([Chapter("A", "x"), Chapter("B", "y")])
  {
  }

  /** A title holding a line break is not read back either: its second line
      passes for the start of the content. */
  lemma TitleLineBreakCollides()
    ensures Assembly.Assemble([Chapter("A\n\nx", "y")])
            == Assembly.Assemble([Chapter("A", "x\n\ny")])
  {
  }
}
