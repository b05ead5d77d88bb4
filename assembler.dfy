/** The record assembler of the Wikipedia seeder, as a pure state machine:
    the parser's `opentag`, `text` and `closetag` events are folded over a
    state made of the last opened tag name and the page record in progress,
    and every `</page>` that finds a record in progress hands off a copy of
    it, taken at that `</page>`. */
module Assembler {
  import opened Wrappers
  import Chunker

  /** What the XML parser delivers. */
  datatype Event = Open(name: string) | Text(text: string) | Close(name: string)

  /** A page record: `title` and `id` stay absent until a text event sets
      them; `text` starts out empty. */
  datatype Page = Page(title: Option<string>, id: Option<string>, text: string)

  /** The two closure variables: `tag` (null until the first opening tag) and
      `page` (null when no record is in progress). */
  datatype State = State(tag: Option<string>, page: Option<Page>)

  /** The state after one or more events, and the records handed off on the way. */
  datatype Outcome = Outcome(state: State, emitted: seq<Page>)

  const Initial: State := State(None, None)

  /** The record that `page = {}; page.text = ''` installs. */
  const FreshPage: Page := Page(None, None, "")

  /** `!tag` holds for a null tag and for an empty name. */
  predicate NoTag(tag: Option<string>) {
    tag.None? || tag.value == ""
  }

  /** One event: the three handlers. Only a `</page>` that finds a record
      hands anything off, namely that record, and leaves no record in
      progress; only an opening tag changes the tag; `<page>` installs a
      fresh record, and otherwise only a text event changes the record. */
  function Step(st: State, e: Event): (r: Outcome)
    ensures |r.emitted| <= 1
    ensures r.emitted != [] <==> e == Close("page") && st.page.Some?
    ensures r.emitted != [] ==> r.emitted[0] == st.page.value && r.state.page.None?
    ensures r.state.tag == if e.Open? then Some(e.name) else st.tag
    ensures e == Open("page") ==> r.state.page == Some(FreshPage)
    ensures !e.Text? && e != Open("page") && r.emitted == [] ==> r.state.page == st.page
  {
    match e
    case Open(name) =>
      Outcome(State(Some(name), if name == "page" then Some(FreshPage) else st.page), [])
    case Text(s) =>
      if st.page.None? || NoTag(st.tag) then Outcome(st, [])
      else
        var p := st.page.value;
        var p' :=
          if st.tag.value == "title" then p.(title := Some(s))
          else if st.tag.value == "id" then p.(id := Some(s))
          else if st.tag.value == "text" then p.(text := p.text + s)
          else p;
        Outcome(st.(page := Some(p')), [])
    case Close(name) =>
      if name == "page" && st.page.Some? then Outcome(st.(page := None), [st.page.value])
      else Outcome(st, [])
  }

  /** The events of a stream so far, handled in order from `st`; the records
      handed off accumulate in order. The tag is then the name of the last
      opened element (closing tags never reset it), and at most one record
      has been handed off per `</page>`. */
  function Run(st: State, events: seq<Event>): (r: Outcome)
    ensures r.state.tag == LastOpened(st.tag, events)
    ensures |r.emitted| <= PageCloses(events)
    decreases |events|
  {
    if events == [] then Outcome(st, [])
    else
      var before := Run(st, events[..|events| - 1]);
      var last := Step(before.state, events[|events| - 1]);
      Outcome(last.state, before.emitted + last.emitted)
  }

  /** Handling a stream in two parts is handling it at once: the second part
      starts from the state the first part left, and its hand-offs follow the
      first part's. */
  lemma {:induction false} RunAppend(st: State, a: seq<Event>, b: seq<Event>)
    ensures Run(st, a + b).state == Run(Run(st, a).state, b).state
    ensures Run(st, a + b).emitted == Run(st, a).emitted + Run(Run(st, a).state, b).emitted
    decreases |b|
  {
    if b == [] {
      assert a + b == a;
    } else {
      var b' := b[..|b| - 1];
      assert (a + b)[..|a + b| - 1] == a + b';
      assert (a + b)[|a + b| - 1] == b[|b| - 1];
      RunAppend(st, a, b');
    }
  }

  /** A handed-off record is a copy: later events never change or withdraw it. */
  lemma HandedOffNeverChange(st: State, a: seq<Event>, b: seq<Event>)
    ensures |Run(st, a).emitted| <= |Run(st, a + b).emitted|
    ensures Run(st, a + b).emitted[..|Run(st, a).emitted|] == Run(st, a).emitted
  {
    RunAppend(st, a, b);
  }

  // ---------------------------------------------------------------- deferred clone

  /** When the task queued at a `</page>` starts: inside `pqueue.add` itself,
      before `page = null` runs (while fewer than ten tasks are pending), or
      only once a slot frees up, after the first `count` events of the stream
      have been handled. */
  datatype TaskStart = InsideAdd | AfterEvents(count: nat)

  /** What the queued closure `() => embedPage(R.clone(page!))`, as written,
      hands to `embedPage` for the `</page>` at index `k`, which found a
      record in progress and so queued a task: the closure reads the
      closure variable `page` only when the task starts. Started inside
      `pqueue.add` it sees the record that `</page>` found, which is the
      record `Step` hands off. Started right after the `</page>` it sees
      `null` (`None`), on which `embedPage` throws at `page.text`. */
  function ClonedByTask(st: State, events: seq<Event>, k: nat, start: TaskStart): (r: Option<Page>)
    requires k < |events| && events[k] == Close("page") && Run(st, events[..k]).state.page.Some?
    requires start.AfterEvents? ==> k < start.count <= |events|
    ensures start.InsideAdd? ==>
      r.Some? && Run(st, events[..k + 1]).emitted == Run(st, events[..k]).emitted + [r.value]
    ensures start == AfterEvents(k + 1) ==> r.None?
  {
    assert events[..k + 1] == events[..k] + [events[k]];
    RunSnoc(st, events[..k], events[k]);
    match start
    case InsideAdd => Run(st, events[..k]).state.page
    case AfterEvents(n) => Run(st, events[..n]).state.page
  }

  /** The stream of `DeferredCloneCounterexample`: a first page with title
      `A` and body `x`, then the start of a second page with title `B`. */
  function DeferredStream(): seq<Event> {
    [Open("page"), Open("title"), Text("A"), Close("title"),
     Open("text"), Text("x"), Close("text"), Close("page"),
     Open("page"), Open("title"), Text("B")]
  }

  /** A stream that reaches its first `</page>` with ten tasks still pending,
      say after ten earlier articles (any state `st`): the task queued there
      can only start after later events. Whichever later event boundary it
      starts at, it clones `null` (and `embedPage` throws), a fresh record or
      the second page's partial record, all with an empty body. The first
      record, the one `Step` hands off, has a body that gives a chunk, and
      it never reaches `embedPage`. */
  lemma DeferredCloneCounterexample(st: State)
    ensures Run(st, DeferredStream()).emitted == [Page(Some("A"), None, "x")]
    ensures Chunker.Chunks("x") == ["x"]
    ensures Run(st, DeferredStream()[..7]).state.page == Some(Page(Some("A"), None, "x"))
    ensures ClonedByTask(st, DeferredStream(), 7, AfterEvents(8)) == None
    ensures ClonedByTask(st, DeferredStream(), 7, AfterEvents(9)) == Some(FreshPage)
    ensures ClonedByTask(st, DeferredStream(), 7, AfterEvents(10)) == Some(FreshPage)
    ensures ClonedByTask(st, DeferredStream(), 7, AfterEvents(11)) == Some(Page(Some("B"), None, ""))
  {
    DeferredStreamFirstPage(st);
    DeferredStreamSecondPage(st);
    assert DeferredStream()[..11] == DeferredStream();
    Chunker.OneWordBody();
  }

  lemma DeferredStreamFirstPage(st: State)
    ensures Run(st, DeferredStream()[..7]) == Outcome(State(Some("text"), Some(Page(Some("A"), None, "x"))), [])
  {
    DeferredStreamTitle(st);
    DeferredStreamBody(st);
  }

  lemma DeferredStreamTitle(st: State)
    ensures Run(st, DeferredStream()[..4]) == Outcome(State(Some("title"), Some(Page(Some("A"), None, ""))), [])
  {
    var events := DeferredStream();
    var a0, a := Page(Some("A"), None, ""), Page(Some("A"), None, "x");
    assert Run(st, events[..0]) == Outcome(st, []);
    assert Run(st, events[..0]) == Outcome(st, []);
    assert Run(st, events[..0]) == Outcome(st, []);
    assert Run(st, events[..1]) == Outcome(State(Some("page"), Some(FreshPage)), []) by {
      assert events[..1] == events[..0] + [events[0]];
      RunSnoc(st, events[..0], events[0]);
    }
    assert Run(st, events[..2]) == Outcome(State(Some("title"), Some(FreshPage)), []) by {
      assert events[..2] == events[..1] + [events[1]];
      RunSnoc(st, events[..1], events[1]);
    }
    assert Run(st, events[..3]) == Outcome(State(Some("title"), Some(a0)), []) by {
      assert events[..3] == events[..2] + [events[2]];
      RunSnoc(st, events[..2], events[2]);
    }
    assert Run(st, events[..4]) == Outcome(State(Some("title"), Some(a0)), []) by {
      assert events[..4] == events[..3] + [events[3]];
      RunSnoc(st, events[..3], events[3]);
    }
  }

  lemma DeferredStreamBody(st: State)
    requires Run(st, DeferredStream()[..4]) == Outcome(State(Some("title"), Some(Page(Some("A"), None, ""))), [])
    ensures Run(st, DeferredStream()[..7]) == Outcome(State(Some("text"), Some(Page(Some("A"), None, "x"))), [])
  {
    var events := DeferredStream();
    var a0, a := Page(Some("A"), None, ""), Page(Some("A"), None, "x");
    assert Run(st, events[..5]) == Outcome(State(Some("text"), Some(a0)), []) by {
      assert events[..5] == events[..4] + [events[4]];
      RunSnoc(st, events[..4], events[4]);
    }
    assert Run(st, events[..6]) == Outcome(State(Some("text"), Some(a)), []) by {
      assert events[..6] == events[..5] + [events[5]];
      RunSnoc(st, events[..5], events[5]);
      assert a0.(text := a0.text + "x") == a by { assert "" + "x" == "x"; }
    }
    assert Run(st, events[..7]) == Outcome(State(Some("text"), Some(a)), []) by {
      assert events[..7] == events[..6] + [events[6]];
      RunSnoc(st, events[..6], events[6]);
    }
  }

  lemma DeferredStreamSecondPage(st: State)
    requires Run(st, DeferredStream()[..7]) == Outcome(State(Some("text"), Some(Page(Some("A"), None, "x"))), [])
    ensures Run(st, DeferredStream()[..8]) == Outcome(State(Some("text"), None), [Page(Some("A"), None, "x")])
    ensures Run(st, DeferredStream()[..9]) == Outcome(State(Some("page"), Some(FreshPage)), [Page(Some("A"), None, "x")])
    ensures Run(st, DeferredStream()[..10]) == Outcome(State(Some("title"), Some(FreshPage)), [Page(Some("A"), None, "x")])
    ensures Run(st, DeferredStream()[..11]) == Outcome(State(Some("title"), Some(Page(Some("B"), None, ""))), [Page(Some("A"), None, "x")])
  {
    var events := DeferredStream();
    var a0, a, b := Page(Some("A"), None, ""), Page(Some("A"), None, "x"), Page(Some("B"), None, "");
    var none: Option<Page> := None;
    assert Run(st, events[..8]) == Outcome(State(Some("text"), none), [a]) by {
      assert events[..8] == events[..7] + [events[7]];
      RunSnoc(st, events[..7], events[7]);
    }
    assert Run(st, events[..9]) == Outcome(State(Some("page"), Some(FreshPage)), [a]) by {
      assert events[..9] == events[..8] + [events[8]];
      RunSnoc(st, events[..8], events[8]);
    }
    assert Run(st, events[..10]) == Outcome(State(Some("title"), Some(FreshPage)), [a]) by {
      assert events[..10] == events[..9] + [events[9]];
      RunSnoc(st, events[..9], events[9]);
    }
    assert Run(st, events[..11]) == Outcome(State(Some("title"), Some(b)), [a]) by {
      assert events[..11] == events[..10] + [events[10]];
      RunSnoc(st, events[..10], events[10]);
    }
  }

  /** One more event at the end of a stream. */
  lemma RunSnoc(st: State, events: seq<Event>, e: Event)
    ensures Run(st, events + [e]).state == Step(Run(st, events).state, e).state
    ensures Run(st, events + [e]).emitted == Run(st, events).emitted + Step(Run(st, events).state, e).emitted
  {
    assert (events + [e])[..|events|] == events;
  }

  /** The first event of a stream, then the rest. */
  lemma RunCons(st: State, e: Event, rest: seq<Event>)
    ensures Run(st, [e] + rest).state == Run(Step(st, e).state, rest).state
    ensures Run(st, [e] + rest).emitted == Step(st, e).emitted + Run(Step(st, e).state, rest).emitted
  {
    RunAppend(st, [e], rest);
    assert [e][..0] == [];
    assert Run(st, [e]) == Outcome(Step(st, e).state, [] + Step(st, e).emitted);
    assert [] + Step(st, e).emitted == Step(st, e).emitted;
  }

  /** An opening `<page>` wipes out whatever came before it: an unfinished
      record is dropped without being handed off, and from there on the
      stream behaves as if it had started with a fresh record under tag
      `page`. */
  lemma OpenPageDiscards(st: State, a: seq<Event>, b: seq<Event>)
    ensures Run(st, a + [Open("page")] + b).state
         == Run(State(Some("page"), Some(FreshPage)), b).state
    ensures Run(st, a + [Open("page")] + b).emitted
         == Run(st, a).emitted + Run(State(Some("page"), Some(FreshPage)), b).emitted
  {
    var mid := Run(st, a).state;
    var start := State(Some("page"), Some(FreshPage));
    assert Step(mid, Open("page")) == Outcome(start, []);
    RunAppend(st, a, [Open("page")] + b);
    assert a + [Open("page")] + b == a + ([Open("page")] + b);
    RunCons(mid, Open("page"), b);
    assert [] + Run(start, b).emitted == Run(start, b).emitted;
  }

  /** The tags whose text the record keeps. */
  predicate IsField(tag: Option<string>) {
    tag == Some("title") || tag == Some("id") || tag == Some("text")
  }

  /** A text event outside a record, before any tag, or under a tag other
      than `title`, `id` and `text` might as well not be there. */
  lemma TextIgnored(st: State, a: seq<Event>, s: string, b: seq<Event>)
    requires Run(st, a).state.page.None? || !IsField(Run(st, a).state.tag)
    ensures Run(st, a + [Text(s)] + b) == Run(st, a + b)
  {
    var mid := Run(st, a).state;
    assert Step(mid, Text(s)) == Outcome(mid, []);
    RunSnoc(st, a, Text(s));
    RunAppend(st, a + [Text(s)], b);
    RunAppend(st, a, b);
  }

  // ---------------------------------------------------------------- tag

  /** The name of the last `Open` event, or `dflt` when there is none. */
  function LastOpened(dflt: Option<string>, events: seq<Event>): Option<string>
    decreases |events|
  {
    if events == [] then dflt
    else if events[|events| - 1].Open? then Some(events[|events| - 1].name)
    else LastOpened(dflt, events[..|events| - 1])
  }

  // ---------------------------------------------------------------- fields

  /** No event of `events` opens or closes a `page` element. */
  predicate WithinOnePage(events: seq<Event>) {
    forall i :: 0 <= i < |events| ==> events[i] != Open("page") && events[i] != Close("page")
  }

  /** The text fragments that arrive while the last opened element is
      `field`, in order. */
  function FieldTexts(tag: Option<string>, events: seq<Event>, field: string): seq<string>
    decreases |events|
  {
    if events == [] then []
    else
      var init := events[..|events| - 1];
      var e := events[|events| - 1];
      FieldTexts(tag, init, field)
        + (if e.Text? && LastOpened(tag, init) == Some(field) then [e.text] else [])
  }

  /** The last element of `parts`, or `dflt` when there is none. */
  function LastOr(dflt: Option<string>, parts: seq<string>): Option<string> {
    if parts == [] then dflt else Some(parts[|parts| - 1])
  }

  /** One event inside a record that neither opens nor closes a page. */
  lemma StepInRecord(st: State, e: Event)
    requires st.page.Some? && e != Open("page") && e != Close("page")
    ensures Step(st, e).emitted == []
    ensures Step(st, e).state.tag == if e.Open? then Some(e.name) else st.tag
    ensures Step(st, e).state.page.Some?
    ensures Step(st, e).state.page.value.title
         == if e.Text? && st.tag == Some("title") then Some(e.text) else st.page.value.title
    ensures Step(st, e).state.page.value.id
         == if e.Text? && st.tag == Some("id") then Some(e.text) else st.page.value.id
    ensures Step(st, e).state.page.value.text
         == st.page.value.text + if e.Text? && st.tag == Some("text") then e.text else ""
  {
  }

  /** The last event of a stream inside a record, with the tag it finds. */
  lemma {:induction false} LastStepInRecord(st: State, events: seq<Event>)
    requires events != [] && WithinOnePage(events)
    ensures WithinOnePage(events[..|events| - 1])
    ensures events[|events| - 1] != Open("page") && events[|events| - 1] != Close("page")
    ensures Run(st, events[..|events| - 1]).state.tag == LastOpened(st.tag, events[..|events| - 1])
  {
    var init := events[..|events| - 1];
    forall i | 0 <= i < |init| ensures init[i] == events[i] { }
  }

  /** Inside one record a record stays in progress and nothing is handed off. */
  lemma {:induction false} RecordStays(st: State, events: seq<Event>)
    requires st.page.Some? && WithinOnePage(events)
    ensures Run(st, events).state.page.Some?
    ensures Run(st, events).emitted == []
    decreases |events|
  {
    if events != [] {
      var init := events[..|events| - 1];
      LastStepInRecord(st, events);
      RecordStays(st, init);
      StepInRecord(Run(st, init).state, events[|events| - 1]);
    }
  }

  /** Inside one record the body is the in-order concatenation of all text
      that arrives under `text`. */
  lemma {:induction false} BodyOfRecord(st: State, events: seq<Event>, p: Page)
    requires st.page == Some(p) && WithinOnePage(events)
    ensures Run(st, events).state.page.Some?
    ensures Run(st, events).state.page.value.text
         == p.text + Chunker.Concat(FieldTexts(st.tag, events, "text"))
    decreases |events|
  {
    RecordStays(st, events);
    if events != [] {
      var init := events[..|events| - 1];
      var e := events[|events| - 1];
      var text := FieldTexts(st.tag, init, "text");
      LastStepInRecord(st, events);
      BodyOfRecord(st, init, p);
      var before := Run(st, init).state;
      StepInRecord(before, e);
      if e.Text? && before.tag == Some("text") {
        Chunker.ConcatSnoc(text, e.text);
        assert p.text + (Chunker.Concat(text) + e.text) == (p.text + Chunker.Concat(text)) + e.text;
      } else {
        assert FieldTexts(st.tag, events, "text") == text;
        assert before.page.value.text + "" == before.page.value.text;
      }
    }
  }

  /** Inside one record `title` is overwritten by every text under `title`:
      the last such fragment wins. */
  lemma {:induction false} TitleOfRecord(st: State, events: seq<Event>, p: Page)
    requires st.page == Some(p) && WithinOnePage(events)
    ensures Run(st, events).state.page.Some?
    ensures Run(st, events).state.page.value.title
         == LastOr(p.title, FieldTexts(st.tag, events, "title"))
    decreases |events|
  {
    RecordStays(st, events);
    if events != [] {
      var init := events[..|events| - 1];
      LastStepInRecord(st, events);
      TitleOfRecord(st, init, p);
      StepInRecord(Run(st, init).state, events[|events| - 1]);
    }
  }

  /** Inside one record `id` is overwritten by every text under `id`: with
      nested revision and contributor `<id>` elements the last one seen wins. */
  lemma {:induction false} IdOfRecord(st: State, events: seq<Event>, p: Page)
    requires st.page == Some(p) && WithinOnePage(events)
    ensures Run(st, events).state.page.Some?
    ensures Run(st, events).state.page.value.id
         == LastOr(p.id, FieldTexts(st.tag, events, "id"))
    decreases |events|
  {
    RecordStays(st, events);
    if events != [] {
      var init := events[..|events| - 1];
      LastStepInRecord(st, events);
      IdOfRecord(st, init, p);
      StepInRecord(Run(st, init).state, events[|events| - 1]);
    }
  }

  /** A whole record from its `<page>` to just before its `</page>`: the body
      concatenates, `title` and `id` keep the last fragment, and nothing is
      handed off on the way. */
  lemma FieldsOfRecord(st: State, events: seq<Event>)
    requires WithinOnePage(events)
    ensures Run(st, [Open("page")] + events).state.page == Some(Page(
      LastOr(None, FieldTexts(Some("page"), events, "title")),
      LastOr(None, FieldTexts(Some("page"), events, "id")),
      Chunker.Concat(FieldTexts(Some("page"), events, "text"))))
    ensures Run(st, [Open("page")] + events).emitted == []
  {
    var start := State(Some("page"), Some(FreshPage));
    RunCons(st, Open("page"), events);
    RecordStays(start, events);
    BodyOfRecord(start, events, FreshPage);
    TitleOfRecord(start, events, FreshPage);
    IdOfRecord(start, events, FreshPage);
    var q := Run(st, [Open("page")] + events).state.page.value;
    assert q == Page(q.title, q.id, q.text);
    assert FreshPage.text + Chunker.Concat(FieldTexts(Some("page"), events, "text"))
        == Chunker.Concat(FieldTexts(Some("page"), events, "text"));
  }

  /** Every fragment collected for a field is the text of one of the events. */
  lemma {:induction false} FieldTextsFromEvents(tag: Option<string>, events: seq<Event>, field: string)
    ensures forall x :: x in FieldTexts(tag, events, field) ==> Text(x) in events
    decreases |events|
  {
    if events != [] {
      var init := events[..|events| - 1];
      FieldTextsFromEvents(tag, init, field);
      assert forall e :: e in init ==> e in events;
    }
  }

  /** A record's body, built from text events that the parser's `trim` and
      `normalize` options have processed, is itself normalized text: no
      whitespace at either end, and single spaces only. So none of its
      chunks starts with whitespace. */
  lemma ParsedBodyNormalized(st: State, events: seq<Event>)
    requires WithinOnePage(events)
    requires forall e :: e in events && e.Text? ==> Chunker.Normalized(e.text)
    ensures Run(st, [Open("page")] + events).state.page.Some?
    ensures Chunker.Normalized(Run(st, [Open("page")] + events).state.page.value.text)
    ensures forall c :: c in Chunker.Chunks(Run(st, [Open("page")] + events).state.page.value.text)
                        ==> c != [] && !Chunker.IsWs(c[0])
  {
    var parts := FieldTexts(Some("page"), events, "text");
    FieldsOfRecord(st, events);
    FieldTextsFromEvents(Some("page"), events, "text");
    assert forall p :: p in parts ==> Chunker.Normalized(p) by {
      forall p | p in parts ensures Chunker.Normalized(p) {
        assert Text(p) in events;
      }
    }
    Chunker.NormalizedConcat(parts);
    Chunker.NormalizedChunksStartVisible(Run(st, [Open("page")] + events).state.page.value.text);
  }

  // ---------------------------------------------------------------- count

  /** The number of `</page>` events. */
  function PageCloses(events: seq<Event>): nat
    decreases |events|
  {
    if events == [] then 0
    else PageCloses(events[..|events| - 1]) + (if events[|events| - 1] == Close("page") then 1 else 0)
  }

  /** Page elements open and close in turn, never nested: starting inside a
      record when `inside` holds, every `<page>` comes when no page is open
      and every `</page>` when one is. */
  predicate PagesAlternate(inside: bool, events: seq<Event>)
    decreases |events|
  {
    if events == [] then true
    else if events[0] == Open("page") then !inside && PagesAlternate(true, events[1..])
    else if events[0] == Close("page") then inside && PagesAlternate(false, events[1..])
    else PagesAlternate(inside, events[1..])
  }

  /** For a well-formed dump, where `<page>` and `</page>` alternate, every
      `</page>` hands off exactly one record. */
  lemma {:induction false} EmittedEqualsCloses(st: State, events: seq<Event>)
    requires PagesAlternate(st.page.Some?, events)
    ensures |Run(st, events).emitted| == PageCloses(events)
    decreases |events|
  {
    if events != [] {
      var e, rest := events[0], events[1..];
      assert events == [e] + rest;
      RunCons(st, e, rest);
      EmittedEqualsCloses(Step(st, e).state, rest);
      PageClosesCons(e, rest);
    }
  }

  lemma {:induction false} PageClosesCons(e: Event, rest: seq<Event>)
    ensures PageCloses([e] + rest) == (if e == Close("page") then 1 else 0) + PageCloses(rest)
    decreases |rest|
  {
    if rest != [] {
      var init := rest[..|rest| - 1];
      assert ([e] + rest)[..|rest|] == [e] + init;
      PageClosesCons(e, init);
    } else {
      assert [e][..0] == [];
    }
  }
}
