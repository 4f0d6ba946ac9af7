/** The whole page: a loading flag, the section tracker and the contact form,
    driven by one stream of events.

    The page starts on a loading placeholder with "hero" active and an empty,
    idle form. A timer started at mount clears the loading flag once, after
    which the full page is rendered. Scroll events move the active section;
    form events go to the contact controller through the page's submit
    button. The two components share nothing.
 */
module Page {
  import Sections
  import Contact

  /** Everything the page renders from. */
  datatype State = State(loading: bool, active: Sections.SectionId, contact: Contact.State)

  /** The state when the page mounts. */
  const Init := State(true, Sections.Hero, Contact.Init)

  /** What can happen to the page. `Scroll` carries the document's geometry at
      the moment of the event. */
  datatype Event =
    | LoadTimerFires
    | Scroll(doc: Sections.Document, scrollY: real)
    | FormEvent(ev: Contact.Event)

  /** A form event that only a user can cause: typing or pressing the button. */
  predicate ByUser(e: Contact.Event) {
    e.Submit? || e.Edit?
  }

  /** The placeholder is shown instead of the page. */
  predicate ShowsPlaceholder(s: State) {
    s.loading
  }

  /** The page's reaction to one event. While the placeholder is shown the
      form is not on screen, so the user can neither type nor submit. */
  function Step(s: State, e: Event): (r: State)
    ensures r.loading ==> s.loading
    ensures e.LoadTimerFires? ==> !r.loading
    ensures !e.Scroll? ==> r.active == s.active
    ensures !e.FormEvent? ==> r.contact == s.contact
    ensures e.Scroll? ==> Sections.Tracked(e.doc, e.scrollY, s.active, r.active)
    ensures e.FormEvent? && s.loading && ByUser(e.ev) ==> r == s
  {
    match e
    case LoadTimerFires =>
      s.(loading := false)
    case Scroll(doc, scrollY) =>
      Sections.TrackIsTracked(doc, scrollY, s.active, Sections.Track(doc, scrollY, s.active));
      s.(active := Sections.Track(doc, scrollY, s.active))
    case FormEvent(ce) =>
      if s.loading && ByUser(ce) then s
      else s.(contact := Contact.UiStep(s.contact, ce))
  }

  /** The page after a sequence of events, oldest first. */
  function Run(s: State, es: seq<Event>): State
    decreases |es|
  {
    if |es| == 0 then s else Run(Step(s, es[0]), es[1..])
  }

  /** The page mounts on the placeholder, with "hero" highlighted and an
      empty, idle, consistent form. */
  lemma InitialState()
    ensures ShowsPlaceholder(Init)
    ensures Sections.NavClass(Init.active, Sections.Hero) == "active"
    ensures Init.contact.status == Contact.Idle && Contact.StatusText(Init.contact.status) == ""
    ensures forall field :: Contact.Get(Init.contact.form, field) == ""
    ensures Contact.Consistent(Init.contact)
  {
  }

  /** The loading flag is still set after a run exactly when it was set before
      and the load timer did not fire: it is cleared once and never set again. */
  lemma {:induction false} LoadingClearsOnce(s: State, es: seq<Event>)
    ensures Run(s, es).loading <==> s.loading && forall i :: 0 <= i < |es| ==> !es[i].LoadTimerFires?
    decreases |es|
  {
    if |es| > 0 {
      LoadingClearsOnce(Step(s, es[0]), es[1..]);
      assert forall i :: 1 <= i < |es| ==> es[i] == es[1..][i - 1];
    }
  }

  /** Only scroll events move the active section. */
  lemma {:induction false} ActiveMovesOnlyOnScroll(s: State, es: seq<Event>)
    requires forall i :: 0 <= i < |es| ==> !es[i].Scroll?
    ensures Run(s, es).active == s.active
    decreases |es|
  {
    if |es| > 0 {
      assert forall i :: 0 <= i < |es[1..]| ==> es[1..][i] == es[i + 1];
      ActiveMovesOnlyOnScroll(Step(s, es[0]), es[1..]);
    }
  }

  /** The form events of a page event stream, in order. */
  function FormEvents(es: seq<Event>): seq<Contact.Event>
    decreases |es|
  {
    if |es| == 0 then []
    else (if es[0].FormEvent? then [es[0].ev] else []) + FormEvents(es[1..])
  }

  /** Once the page is shown, the form evolves exactly as the page-guarded
      controller run on the form events alone: scrolling and the load timer
      have no effect on it. */
  lemma {:induction false} FormIgnoresScrolling(s: State, es: seq<Event>)
    requires !s.loading
    ensures Run(s, es).contact == Contact.UiRun(s.contact, FormEvents(es))
    decreases |es|
  {
    if |es| > 0 {
      var t := Step(s, es[0]);
      FormIgnoresScrolling(t, es[1..]);
      if es[0].FormEvent? {
        var rest := FormEvents(es[1..]);
        assert FormEvents(es) == [es[0].ev] + rest;
        assert ([es[0].ev] + rest)[1..] == rest;
      } else {
        assert FormEvents(es) == FormEvents(es[1..]);
      }
    }
  }

  /** Every page run from a consistent form keeps it consistent. */
  lemma {:induction false} RunKeepsFormConsistent(s: State, es: seq<Event>)
    requires Contact.Consistent(s.contact)
    ensures Contact.Consistent(Run(s, es).contact)
    decreases |es|
  {
    if |es| > 0 {
      if es[0].FormEvent? {
        Contact.StepKeepsConsistent(s.contact, es[0].ev);
      }
      RunKeepsFormConsistent(Step(s, es[0]), es[1..]);
    }
  }
}
