/** A two-article dump run through the assembler, and the records it hands
    off run through the chunker. Article A has id `1`, title `Alpha` and a
    body of two sentences, delivered as the parser's `normalize` option
    leaves it (every run of whitespace, blank lines included, becomes one
    space). Article B has id `2`, title `Beta` and an empty body: its
    `<text/>` delivers no text event, since the parser drops empty text. */
module Scenario {
  import opened Wrappers
  import opened Assembler
  import opened Chunker

  /** The events of one article whose body arrives as one text event, or as
      none when it is empty. */
  function ArticleEvents(title: string, id: string, body: Option<string>): seq<Event>
  {
    [Open("page"), Open("title"), Text(title), Close("title"),
     Open("id"), Text(id), Close("id"), Open("text")]
    + (if body.None? then [] else [Text(body.value)])
    + [Close("text"), Close("page")]
  }

  lemma TitlePart(st: State, title: string)
    ensures Run(st, [Open("page"), Open("title"), Text(title), Close("title")])
         == Outcome(State(Some("title"), Some(Page(Some(title), None, ""))), [])
  {
    var q0, q1 := FreshPage, Page(Some(title), None, "");
    var p0: seq<Event> := [];
    var p1 := p0 + [Open("page")];
    assert Run(st, p1) == Outcome(State(Some("page"), Some(q0)), []) by { RunSnoc(st, p0, Open("page")); }
    var p2 := p1 + [Open("title")];
    assert Run(st, p2) == Outcome(State(Some("title"), Some(q0)), []) by { RunSnoc(st, p1, Open("title")); }
    var p3 := p2 + [Text(title)];
    assert Run(st, p3) == Outcome(State(Some("title"), Some(q1)), []) by { RunSnoc(st, p2, Text(title)); }
    var p4 := p3 + [Close("title")];
    assert Run(st, p4) == Outcome(State(Some("title"), Some(q1)), []) by { RunSnoc(st, p3, Close("title")); }
    assert p4 == [Open("page"), Open("title"), Text(title), Close("title")];
  }

  lemma IdPart(st: State, id: string, q: Page)
    requires st.page == Some(q)
    ensures Run(st, [Open("id"), Text(id), Close("id"), Open("text")])
         == Outcome(State(Some("text"), Some(q.(id := Some(id)))), [])
  {
    var q1 := q.(id := Some(id));
    var p0: seq<Event> := [];
    var p1 := p0 + [Open("id")];
    assert Run(st, p1) == Outcome(State(Some("id"), Some(q)), []) by { RunSnoc(st, p0, Open("id")); }
    var p2 := p1 + [Text(id)];
    assert Run(st, p2) == Outcome(State(Some("id"), Some(q1)), []) by { RunSnoc(st, p1, Text(id)); }
    var p3 := p2 + [Close("id")];
    assert Run(st, p3) == Outcome(State(Some("id"), Some(q1)), []) by { RunSnoc(st, p2, Close("id")); }
    var p4 := p3 + [Open("text")];
    assert Run(st, p4) == Outcome(State(Some("text"), Some(q1)), []) by { RunSnoc(st, p3, Open("text")); }
    assert p4 == [Open("id"), Text(id), Close("id"), Open("text")];
  }

  lemma BodyPart(st: State, body: Option<string>, q: Page)
    requires st.tag == Some("text") && st.page == Some(q) && q.text == ""
    ensures Run(st, (if body.None? then [] else [Text(body.value)]) + [Close("text"), Close("page")])
         == Outcome(State(Some("text"), None), [q.(text := if body.None? then "" else body.value)])
  {
    var q1 := q.(text := if body.None? then "" else body.value);
    var p0: seq<Event> := if body.None? then [] else [Text(body.value)];
    assert Run(st, p0) == Outcome(State(Some("text"), Some(q1)), []) by {
      if body.Some? {
        RunSnoc(st, [], Text(body.value));
        assert [] + [Text(body.value)] == p0;
        assert "" + body.value == body.value;
      }
    }
    ClosingTags(st, p0, q1);
    assert p0 + [Close("text")] + [Close("page")] == p0 + [Close("text"), Close("page")];
  }

  lemma ClosingTags(st: State, p0: seq<Event>, q: Page)
    requires Run(st, p0) == Outcome(State(Some("text"), Some(q)), [])
    ensures Run(st, p0 + [Close("text")] + [Close("page")]) == Outcome(State(Some("text"), None), [q])
  {
    var none: Option<Page> := None;
    var p1 := p0 + [Close("text")];
    assert Run(st, p1) == Outcome(State(Some("text"), Some(q)), []) by { RunSnoc(st, p0, Close("text")); }
    var p2 := p1 + [Close("page")];
    assert Run(st, p2) == Outcome(State(Some("text"), none), [q]) by { RunSnoc(st, p1, Close("page")); }
  }

  /** One such article, from any state, hands off exactly its own record and
      ends outside a record with tag `text`. */
  lemma ArticleRecord(st: State, title: string, id: string, body: Option<string>)
    ensures Run(st, ArticleEvents(title, id, body))
         == Outcome(State(Some("text"), None), [Page(Some(title), Some(id), if body.None? then "" else body.value)])
  {
    var a: seq<Event> := [Open("page"), Open("title"), Text(title), Close("title")];
    var b: seq<Event> := [Open("id"), Text(id), Close("id"), Open("text")];
    var c: seq<Event> := (if body.None? then [] else [Text(body.value)]) + [Close("text"), Close("page")];
    assert ArticleEvents(title, id, body) == (a + b) + c;
    TitlePart(st, title);
    var sa := Run(st, a).state;
    IdPart(sa, id, Page(Some(title), None, ""));
    RunAppend(st, a, b);
    var sb := Run(st, a + b).state;
    BodyPart(sb, body, Page(Some(title), Some(id), ""));
    RunAppend(st, a + b, c);
  }

  /** Two records come out, in document order, each with its own fields.
      A's body gives two chunks, the first without its final dot (the match
      consumed it), and B's empty body gives none. */
  lemma TwoArticleDump()
    ensures var out := Run(Initial, ArticleEvents("Alpha", "1", Some("Para one. Para two."))
                                  + ArticleEvents("Beta", "2", None)).emitted;
      && out == [Page(Some("Alpha"), Some("1"), "Para one. Para two."),
                 Page(Some("Beta"), Some("2"), "")]
      && Chunks(out[0].text) == ["Para one", "Para two."]
      && Chunks(out[1].text) == []
  {
    var a := ArticleEvents("Alpha", "1", Some("Para one. Para two."));
    var b := ArticleEvents("Beta", "2", None);
    var out := Run(Initial, a + b).emitted;
    assert out == [Page(Some("Alpha"), Some("1"), "Para one. Para two."),
                   Page(Some("Beta"), Some("2"), "")] by {
      ArticleRecord(Initial, "Alpha", "1", Some("Para one. Para two."));
      ArticleRecord(Run(Initial, a).state, "Beta", "2", None);
      RunAppend(Initial, a, b);
    }
    assert out[0].text == "Para one. Para two." && out[1].text == "";
    TwoSentenceBody();
  }
}
