# Portfolio page: section tracker and contact form

This project is a Dafny model of the only behaviour in the portfolio site's single-page
front end (`src/App.js`). The page has two independent state machines:

- **Section tracker** (module `Sections`, `sections.dfy`). On every scroll event the page
  visits the sections hero, about, skills, projects, experience and contact in that order.
  It probes the point `scrollY + 100`. Each present section whose span `[offsetTop,
  offsetTop + offsetHeight)` contains the probe becomes the active section, so the last
  match wins. When nothing matches, the previous active section stays. `Track` is the scan
  written as a fold, and `HandleScroll` is the same scan written as a loop. `Tracked` is an
  independent description of the result ("the last matching section, otherwise the previous
  one"). The navigation link whose section is active gets the class `active`.
- **Contact-form controller** (module `Contact`, `contact.dfy`). It owns three controlled
  inputs (name, email, message) and a status: `""`, `"sending"`, `"success"` or `"error"`.
  - Submitting sets `"sending"` whatever the status, and sends the form as it is.
  - An ok response (HTTP 200–299) gives `"success"` and clears the form.
  - A response that is not ok, or a request that throws, gives `"error"` and keeps the form.
  - Each answer schedules a timer that later sets the status to `""` without looking at the
    current status.
  - The submit button is disabled while sending and reads "Sending..." then. The success or
    error paragraph shows for the matching status.
  - `Step` is the handler alone. `UiStep` puts the page's button in front of it: a submit
    gets through only when the button is enabled and all three `required` inputs are filled.
- **Page** (module `Page`, `page.dfy`). This module holds the loading flag and combines the
  two components. The flag starts true and a load timer clears it once. While it is set, a
  placeholder is shown instead of the form.

The network and the timers are discrete events. `Respond(code)` and `TransportFail` each
answer one request in flight. `ResetTimerFires` and `LoadTimerFires` are the timers firing.
The state counts the requests in flight and the reset timers still pending. It also keeps a
log (`outbox`) of the body of every request sent. An event that cannot happen in a state (an
answer while no request is in flight, or a reset while no reset timer is pending) leaves that
state unchanged.

Geometry is an input. `Document` maps each section that has an element to its integer
`offsetTop` and `offsetHeight`; a section with no element is absent from the map. `scrollY` is
a `real` because browsers can report fractional scroll offsets.

### Stale resets and overlapping requests

The reset timer at src/App.js:70 sets the status to `""` without checking the current
status. The only guard against a second submit is the button's `disabled` flag at
src/App.js:447. So a stale reset can clear a later `"sending"`, and two requests can be in
flight at once:

- `Contact.StaleResetClearsSending` shows that a pending reset clears a later `"sending"`.
- `Contact.TwoRequestsInFlight` is a session the page allows that ends with two requests in
  flight. The user fills the form, submits, and gets a 500 response. They then retry, the
  first reset fires and re-enables the button, and they submit again.

## Model

| member | source | states |
|---|---|---|
| Sections.Track | src/App.js:17-38 | The active section after a scroll is the previous one when no present section's span contains `scrollY + 100`. Otherwise it is the last matching section in visiting order. A section that changes it is present and contains the probe. |
| Sections.ScanIsLastMatch | src/App.js:28-37 | A forward pass with no early exit keeps its starting value when nothing matches and ends on the last match otherwise. |
| Sections.TrackIsTracked | src/App.js:26-37 | Both directions: the tracker's result is exactly the section the last-match description names. |
| Sections.HandleScroll | src/App.js:17-38 | The loop that visits the six sections and overwrites the active one on each match computes the tracker's result. |
| Sections.SpanIsHalfOpen | src/App.js:30-34 | A lone present section is matched when the probe is at its top edge and not when it is at its bottom edge. The lower bound is inclusive and the upper bound exclusive. |
| Sections.AbsentSectionNeverActivated | src/App.js:29-31 | A section with no element never becomes active, whatever the geometry of the others. |
| Sections.EmptyDocumentKeepsActive | src/App.js:144-153 | While only the loading placeholder is rendered, no section exists and scrolling keeps the active section. |
| Sections.OrderDistinct | src/App.js:18-25 | The visiting order lists every section exactly once. |
| Sections.OneLinkHighlighted | src/App.js:165-210 | For every active section exactly one of the six navigation links carries the `active` class. |
| Contact.SetField | src/App.js:416-440 | Editing one input sets that input to the typed value and leaves the other two unchanged. |
| Contact.SetFieldDetermined | src/App.js:416-440 | The two edit laws pin the edited form down: any form holding the typed value in the edited input and the old values elsewhere is the edit's result. |
| Contact.StatusTextInjective | src/App.js:44-71 | The four statuses are stored as four distinct strings, so the page's string comparisons tell them apart. |
| Contact.Step | src/App.js:44-71 | Submit sets `sending` from any status, keeps the form and the pending resets, and logs exactly that form as the request body. An ok answer gives `success` with a blank form. A failed or thrown answer gives `error` with the form kept. Either answer settles one request and schedules one reset. A pending reset gives `""` from any status and leaves the requests in flight. An edit changes only its input, never the status or the counters. An answer with nothing in flight, or a reset with none pending, leaves the state unchanged. |
| Contact.RenderAgrees | src/App.js:444-458 | The button reads "Sending..." exactly when it is disabled, exactly when the status is `sending`. The success and error paragraphs show exactly for their statuses, never both, and never while sending. |
| Contact.UiStep | src/App.js:410-447 | With the page's button in front, a submit while sending or with an empty required input sends nothing. An enabled submit of a filled form, and every other event, acts exactly as in the handler. |
| Contact.InitIsBlank | src/App.js:7-12 | The form starts with three empty inputs, the status `""` and nothing sent. |
| Contact.StepKeepsConsistent | src/App.js:44-71 | After every event a `sending` status has a request in flight, and a `success` or `error` status has a reset pending. |
| Contact.RunKeepsConsistent | src/App.js:44-71 | The same invariant holds after any sequence of events. |
| Contact.OutboxGrowsBySubmits | src/App.js:46-57 | Requests are only added to the log, one per submit: the earlier log is a prefix of the later one. |
| Contact.SuccessPath | src/App.js:60-70 | Submit then an ok response gives `success`, a blank form and one request carrying the submitted form. The following reset gives `""`. |
| Contact.FailurePath | src/App.js:60-70 | Submit then a response that is not ok gives `error` with the form kept. A thrown request ends in the identical state, and the following reset gives `""`. |
| Contact.StaleResetClearsSending | src/App.js:70 | A pending reset clears a newer `sending` while its request is still in flight. |
| Contact.GuardBlocksResubmit | src/App.js:447 | While sending, the disabled button stops a second submit, although the handler alone would send again. |
| Contact.TwoRequestsInFlight | src/App.js:46-70 | A session the page allows ends with two requests in flight: an unconditional reset re-enables the button during a retry. |
| Page.Step | src/App.js:14-42 | The load timer clears the loading flag and nothing sets it. Only scrolls move the active section, and they move it as the last-match description says. Only form events touch the form. While loading, typing and submitting have no effect. |
| Page.InitialState | src/App.js:5-12 | The page mounts on the placeholder with `hero` highlighted and an empty, idle form. |
| Page.LoadingClearsOnce | src/App.js:5-15 | After any events the loading flag is set exactly when it was set before and the load timer did not fire: it is cleared once and never set again. |
| Page.ActiveMovesOnlyOnScroll | src/App.js:17-41 | A run without scroll events leaves the active section unchanged. |
| Page.FormIgnoresScrolling | src/App.js:44-71 | Once the page is shown, the form evolves as the guarded controller run on the form events alone. Scrolling and the load timer do not affect it. |
| Page.RunKeepsFormConsistent | src/App.js:44-71 | The form's invariant holds after any sequence of page events. |

## Left out

- The `fetch` call, the base URL from the environment, the JSON encoding and the request
  headers (src/App.js:49-57) are foreign I/O. The network is modelled only as `Respond(code)`
  and `TransportFail` events, and the request body as the logged form.
- The model does not record which request in flight an answer belongs to. The handler's
  effect does not depend on it: every answer settles the status and schedules one reset.
- Real-time timer behaviour (`setTimeout`, src/App.js:15, 70), React's batching and
  scheduling, and listener registration and removal (src/App.js:40-41) are left out. Timers
  are discrete events.
- The `type='email'` format check the browser applies before submitting is left out.
  `Contact.UiStep` checks only that the three `required` inputs are non-empty.
- DOM geometry is an input. `Page.Step` takes the document the scroll event reports and does
  not itself force the document to be empty during loading. `Sections.EmptyDocumentKeepsActive`
  states what happens then.
- Markup, CSS classes other than the navigation `active` class, and the static skills,
  projects and experience lists (src/App.js:73-142) are fixed presentation data.
- The backend service (`backend/server.py`) and its HTTP test script (`backend_test.py`)
  are not part of this model. Both are framework and network code.
