/** The handlers as the seeder writes them: closures over two mutable
    variables, `tag` and `page`, where `page` is an object whose properties
    the `text` handler assigns in place, and, at `</page>`, a deep copy of
    that object handed to the work queue. The copy is taken at the `</page>`
    itself, which is what happens when the queued task starts inside
    `pqueue.add` (`Assembler.ClonedByTask` covers a task that starts later).
    Each handler is proved to do what one step of `Assembler.Step` does. */
module Handlers {
  import opened Wrappers
  import opened Assembler

  /** The mutable `page` object. */
  class PageObject {
    var title: Option<string>
    var id: Option<string>
    var text: string

    /** `page = {}; page.text = ''`: no title, no id, an empty body. */
    constructor ()
      ensures Snapshot() == FreshPage
    {
      title := None;
      id := None;
      text := "";
    }

    /** `R.clone(page)`: the object's current value, detached from it. */
    function Snapshot(): Page
      reads this
    {
      Page(title, id, text)
    }
  }

  class SaxHandlers {
    /** The name of the last opened element; `None` before the first one. */
    var tag: Option<string>
    /** The record in progress; `null` outside a record. */
    var page: PageObject?
    /** The copies given to the work queue, in the order they were given. */
    var handedOff: seq<Page>

    /** The closure state as a value. */
    function Current(): State
      reads this, page
    {
      State(tag, if page == null then None else Some(page.Snapshot()))
    }

    /** Before the first event: no tag, no record, nothing handed off. */
    constructor ()
      ensures Current() == Initial && handedOff == []
    {
      tag := None;
      page := null;
      handedOff := [];
    }

    /** `opentag`: a `<page>` installs a new, empty record object in place of
        any unfinished one (which is dropped, not handed off); every opening
        tag becomes the current tag. */
    method OnOpenTag(name: string)
      modifies this
      ensures Current() == Step(old(Current()), Open(name)).state
      ensures tag == Some(name)
      ensures name == "page" ==> fresh(page) && page.Snapshot() == FreshPage
      ensures name != "page" ==> page == old(page)
      ensures handedOff == old(handedOff)
    {
      if name == "page" {
        page := new PageObject();
      }
      tag := Some(name);
    }

    /** `text`: without a record or a tag nothing happens; under `title` or
        `id` the field is overwritten, under `text` the fragment is appended,
        under any other tag nothing happens. Only the record object changes. */
    method OnText(text: string)
      modifies page
      ensures Current() == Step(old(Current()), Text(text)).state
      ensures page != null && tag == Some("text") ==> page.text == old(page.text) + text
      ensures page != null && tag == Some("title") ==> page.title == Some(text)
      ensures page != null && tag == Some("id") ==> page.id == Some(text)
    {
      if page == null || NoTag(tag) {
        return;
      }
      match tag.value
      case "title" => page.title := Some(text);
      case "id" => page.id := Some(text);
      case "text" => page.text := page.text + text;
      case _ =>
    }

    /** `closetag`: a `</page>` with a record in progress hands off a copy of
        it, taken before `page = null`, and leaves no record in progress;
        any other closing tag, or a `</page>` without a record, changes
        nothing. The current tag is never reset. */
    method OnCloseTag(name: string)
      modifies this
      ensures Current() == Step(old(Current()), Close(name)).state
      ensures handedOff == old(handedOff) + Step(old(Current()), Close(name)).emitted
      ensures tag == old(tag)
      ensures name == "page" && old(page) != null ==> page == null && handedOff == old(handedOff) + [old(page.Snapshot())]
      ensures !(name == "page" && old(page) != null) ==> page == old(page) && handedOff == old(handedOff)
    {
      if name == "page" && page != null {
        handedOff := handedOff + [page.Snapshot()];
        page := null;
      }
    }

    /** The parser delivering one event to the handler registered for it. */
    method Handle(e: Event)
      modifies this, page
      ensures Current() == Step(old(Current()), e).state
      ensures handedOff == old(handedOff) + Step(old(Current()), e).emitted
      ensures page == null || page == old(page) || fresh(page)
    {
      match e {
        case Open(name) => OnOpenTag(name);
        case Text(text) => OnText(text);
        case Close(name) => OnCloseTag(name);
      }
    }

    /** The parser delivering a stream of events, one after another, to the
        three handlers: the state and the hand-offs end up as `Run` says. */
    method Feed(events: seq<Event>)
      modifies this, page
      ensures Current() == Run(old(Current()), events).state
      ensures handedOff == old(handedOff) + Run(old(Current()), events).emitted
    {
      ghost var start := Current();
      var i := 0;
      while i < |events|
        invariant 0 <= i <= |events|
        invariant page == null || page == old(page) || fresh(page)
        invariant Current() == Run(start, events[..i]).state
        invariant handedOff == old(handedOff) + Run(start, events[..i]).emitted
      {
        ghost var before := Run(start, events[..i]);
        ghost var after := Run(start, events[..i + 1]);
        assert after.state == Step(before.state, events[i]).state
            && after.emitted == before.emitted + Step(before.state, events[i]).emitted by {
          assert events[..i + 1] == events[..i] + [events[i]];
          RunSnoc(start, events[..i], events[i]);
        }
        Handle(events[i]);
        i := i + 1;
      }
      assert events[..|events|] == events;
    }
  }
}
