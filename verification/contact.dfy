/** The contact form: its three controlled fields and the submission status
    that drives the submit button and the confirmation messages.

    A submit sets the status to "sending" and sends the form as it is at that
    moment. The response settles the status: "success" with the form cleared
    when the response is ok, "error" with the form kept otherwise, including
    when the request throws. Each settled response schedules a timer that later
    sets the status back to "" whatever it is then.

    The network and the timers are events: a request in flight is answered by
    one `Respond` or `TransportFail`, and a scheduled reset fires as one
    `ResetTimerFires`. An event that cannot arise in a state (an answer while
    nothing is in flight, a reset while none is scheduled) leaves it unchanged.
 */
module Contact {

  /** The three inputs of the form. */
  datatype Field = Name | Email | Message

  /** The values of the three controlled inputs. */
  datatype Form = Form(name: string, email: string, message: string)

  /** The form as the page starts and as a successful send leaves it. */
  const Blank := Form("", "", "")

  /** The value of one input. */
  function Get(f: Form, field: Field): string {
    match field
    case Name => f.name
    case Email => f.email
    case Message => f.message
  }

  /** An input's change handler: copies the form with one input replaced. */
  function SetField(f: Form, field: Field, value: string): (r: Form)
    ensures Get(r, field) == value
    ensures forall other :: other != field ==> Get(r, other) == Get(f, other)
  {
    match field
    case Name => f.(name := value)
    case Email => f.(email := value)
    case Message => f.(message := value)
  }

  /** Two forms with the same three values are the same form. */
  lemma FormsAgreeOnFields(f: Form, g: Form)
    requires forall field :: Get(f, field) == Get(g, field)
    ensures f == g
  {
    assert Get(f, Name) == Get(g, Name);
    assert Get(f, Email) == Get(g, Email);
    assert Get(f, Message) == Get(g, Message);
  }

  /** The two laws of `SetField` determine its result: any form that holds
      `value` in `field` and agrees with `f` elsewhere is that result. */
  lemma SetFieldDetermined(f: Form, field: Field, value: string, g: Form)
    requires Get(g, field) == value
    requires forall other :: other != field ==> Get(g, other) == Get(f, other)
    ensures g == SetField(f, field, value)
  {
    var r := SetField(f, field, value);
    forall other ensures Get(g, other) == Get(r, other) {
    }
    FormsAgreeOnFields(g, r);
  }

  /** The submission status. */
  datatype Status = Idle | Sending | Success | Error

  /** The string the page stores for each status. */
  function StatusText(s: Status): string {
    match s
    case Idle => ""
    case Sending => "sending"
    case Success => "success"
    case Error => "error"
  }

  /** Distinct statuses are stored as distinct strings, so the page's string
      comparisons decide the status. */
  lemma StatusTextInjective(s: Status, t: Status)
    ensures StatusText(s) == StatusText(t) <==> s == t
  {
  }

  /** A response is ok when its HTTP status code is in 200..299. */
  predicate IsOk(code: int) {
    200 <= code <= 299
  }

  /** Controller state. `inFlight` counts requests sent and not yet answered,
      `pendingResets` counts reset timers scheduled and not yet fired, and
      `outbox` logs the body of every request sent, oldest first. */
  datatype State = State(
    form: Form,
    status: Status,
    inFlight: nat,
    pendingResets: nat,
    outbox: seq<Form>)

  /** The state when the page mounts. */
  const Init := State(Blank, Idle, 0, 0, [])

  /** What can happen to the controller. */
  datatype Event =
    | Submit
    | Respond(code: int)
    | TransportFail
    | ResetTimerFires
    | Edit(field: Field, value: string)

  /** The controller's reaction to one event. A submit is handled whatever the
      status; only the page's submit button refuses it (see `UiStep`). */
  function Step(s: State, e: Event): (r: State)
    ensures e.Submit? ==> r.status == Sending && r.form == s.form
                          && r.outbox == s.outbox + [s.form] && r.inFlight == s.inFlight + 1
                          && r.pendingResets == s.pendingResets
    ensures e.Edit? ==> r.status == s.status && r.outbox == s.outbox
                        && r.inFlight == s.inFlight && r.pendingResets == s.pendingResets
                        && Get(r.form, e.field) == e.value
                        && forall other :: other != e.field ==> Get(r.form, other) == Get(s.form, other)
    ensures (e.Respond? || e.TransportFail?) && s.inFlight > 0 ==>
              r.inFlight + 1 == s.inFlight && r.pendingResets == s.pendingResets + 1
              && r.outbox == s.outbox
              && (if e.Respond? && IsOk(e.code) then r.status == Success && r.form == Blank
                  else r.status == Error && r.form == s.form)
    ensures e.ResetTimerFires? && s.pendingResets > 0 ==>
              r.status == Idle && r.form == s.form && r.pendingResets + 1 == s.pendingResets
    ensures e.ResetTimerFires? ==> r.inFlight == s.inFlight
    ensures (|| ((e.Respond? || e.TransportFail?) && s.inFlight == 0)
             || (e.ResetTimerFires? && s.pendingResets == 0)) ==> r == s
    ensures !e.Submit? ==> r.outbox == s.outbox
  {
    match e
    case Submit =>
      s.(status := Sending, inFlight := s.inFlight + 1, outbox := s.outbox + [s.form])
    case Respond(code) =>
      if s.inFlight == 0 then s
      else if IsOk(code) then
        s.(status := Success, form := Blank,
           inFlight := s.inFlight - 1, pendingResets := s.pendingResets + 1)
      else
        s.(status := Error, inFlight := s.inFlight - 1, pendingResets := s.pendingResets + 1)
    case TransportFail =>
      if s.inFlight == 0 then s
      else s.(status := Error, inFlight := s.inFlight - 1, pendingResets := s.pendingResets + 1)
    case ResetTimerFires =>
      if s.pendingResets == 0 then s
      else s.(status := Idle, pendingResets := s.pendingResets - 1)
    case Edit(field, value) =>
      s.(form := SetField(s.form, field, value))
  }

  /** The controller after a sequence of events, oldest first. */
  function Run(s: State, es: seq<Event>): State
    decreases |es|
  {
    if |es| == 0 then s else Run(Step(s, es[0]), es[1..])
  }

  /** Running one event and then `rest`. */
  lemma RunCons(s: State, e: Event, rest: seq<Event>)
    ensures Run(s, [e] + rest) == Run(Step(s, e), rest)
  {
    assert ([e] + rest)[1..] == rest;
  }

  // ---- Rendering ----------------------------------------------------------

  /** The submit button is disabled while sending. */
  predicate ButtonDisabled(status: Status) {
    status == Sending
  }

  /** The submit button's label. */
  function ButtonLabel(status: Status): string {
    if status == Sending then "Sending..." else "Send Message"
  }

  /** The confirmation paragraph is shown. */
  predicate ShowsSuccess(status: Status) {
    status == Success
  }

  /** The failure paragraph is shown. */
  predicate ShowsError(status: Status) {
    status == Error
  }

  /** The button reads "Sending..." exactly when it is disabled, at most one
      message is shown, and no message is shown while sending or idle. */
  lemma RenderAgrees(status: Status)
    ensures ButtonLabel(status) == "Sending..." <==> ButtonDisabled(status)
    ensures ButtonDisabled(status) <==> StatusText(status) == "sending"
    ensures ShowsSuccess(status) <==> StatusText(status) == "success"
    ensures ShowsError(status) <==> StatusText(status) == "error"
    ensures !(ShowsSuccess(status) && ShowsError(status))
    ensures (ShowsSuccess(status) || ShowsError(status)) ==> !ButtonDisabled(status)
  {
  }

  // ---- The page's submit guard -----------------------------------------------

  /** All three inputs are non-empty, as their `required` attributes demand. */
  predicate Filled(f: Form) {
    forall field :: Get(f, field) != ""
  }

  /** The button is enabled, so a submit can reach the handler. */
  predicate CanSubmit(status: Status) {
    !ButtonDisabled(status)
  }

  /** The controller behind the page: a submit reaches the handler only when
      the button is enabled and every required input is filled. */
  function UiStep(s: State, e: Event): (r: State)
    ensures e.Submit? && !CanSubmit(s.status) ==> r == s
    ensures e.Submit? && !Filled(s.form) ==> r == s
    ensures e.Submit? && CanSubmit(s.status) && Filled(s.form) ==> r == Step(s, e)
    ensures !e.Submit? ==> r == Step(s, e)
  {
    if e.Submit? && !(CanSubmit(s.status) && Filled(s.form)) then s else Step(s, e)
  }

  /** The page-guarded controller after a sequence of events. */
  function UiRun(s: State, es: seq<Event>): State
    decreases |es|
  {
    if |es| == 0 then s else UiRun(UiStep(s, es[0]), es[1..])
  }

  // ---- Invariants and lemmas over runs ----------------------------------------

  /** What every reachable state satisfies: a "sending" status has a request
      in flight, and a settled status has a reset scheduled. */
  predicate Consistent(s: State) {
    && (s.status == Sending ==> s.inFlight > 0)
    && (s.status == Success || s.status == Error ==> s.pendingResets > 0)
  }

  /** The initial state is consistent and shows an idle, empty form. */
  lemma InitIsBlank()
    ensures Consistent(Init)
    ensures Init.status == Idle && StatusText(Init.status) == ""
    ensures forall field :: Get(Init.form, field) == ""
    ensures Init.outbox == []
  {
  }

  /** Every event keeps the state consistent. */
  lemma StepKeepsConsistent(s: State, e: Event)
    requires Consistent(s)
    ensures Consistent(Step(s, e))
    ensures Consistent(UiStep(s, e))
  {
  }

  /** Every run from a consistent state ends consistent. */
  lemma {:induction false} RunKeepsConsistent(s: State, es: seq<Event>)
    requires Consistent(s)
    ensures Consistent(Run(s, es))
    decreases |es|
  {
    if |es| > 0 {
      StepKeepsConsistent(s, es[0]);
      RunKeepsConsistent(Step(s, es[0]), es[1..]);
    }
  }

  /** Number of submits in `es`. */
  function Submits(es: seq<Event>): nat
    decreases |es|
  {
    if |es| == 0 then 0 else (if es[0].Submit? then 1 else 0) + Submits(es[1..])
  }

  /** Requests are only ever added to the log, one per submit: the log before
      a run is a prefix of the log after it. */
  lemma {:induction false} OutboxGrowsBySubmits(s: State, es: seq<Event>)
    ensures s.outbox <= Run(s, es).outbox
    ensures |Run(s, es).outbox| == |s.outbox| + Submits(es)
    decreases |es|
  {
    if |es| > 0 {
      OutboxGrowsBySubmits(Step(s, es[0]), es[1..]);
    }
  }

  /** Submit, then an ok response: the status is "success", the form is blank
      and the one request sent carried the form as it was at submit time;
      the reset that follows returns the status to "". */
  lemma SuccessPath(s: State, code: int)
    requires IsOk(code)
    ensures var t := Run(s, [Submit, Respond(code)]);
            t.status == Success && t.form == Blank && t.outbox == s.outbox + [s.form]
    ensures Run(s, [Submit, Respond(code), ResetTimerFires]).status == Idle
  {
    SubmitThenAnswer(s, Respond(code));
  }

  /** Submit, then a response that is not ok: the status is "error" and the
      form keeps the values the user typed; the reset returns the status to "".
      A request that throws ends in exactly the same state. */
  lemma FailurePath(s: State, code: int)
    requires !IsOk(code)
    ensures var t := Run(s, [Submit, Respond(code)]);
            t.status == Error && t.form == s.form && t.outbox == s.outbox + [s.form]
    ensures Run(s, [Submit, Respond(code)]) == Run(s, [Submit, TransportFail])
    ensures Run(s, [Submit, Respond(code), ResetTimerFires]).status == Idle
  {
    SubmitThenAnswer(s, Respond(code));
    SubmitThenAnswer(s, TransportFail);
  }

  /** Unrolls the runs of a submit followed by an answer, and then a reset. */
  lemma SubmitThenAnswer(s: State, answer: Event)
    ensures Run(s, [Submit, answer]) == Step(Step(s, Submit), answer)
    ensures Run(s, [Submit, answer, ResetTimerFires])
         == Step(Step(Step(s, Submit), answer), ResetTimerFires)
  {
    var t1 := Step(s, Submit);
    var t2 := Step(t1, answer);
    RunCons(s, Submit, [answer]);
    assert [Submit] + [answer] == [Submit, answer];
    RunCons(t1, answer, []);
    assert [answer] + [] == [answer];
    RunCons(s, Submit, [answer, ResetTimerFires]);
    assert [Submit] + [answer, ResetTimerFires] == [Submit, answer, ResetTimerFires];
    RunCons(t1, answer, [ResetTimerFires]);
    assert [answer] + [ResetTimerFires] == [answer, ResetTimerFires];
    RunCons(t2, ResetTimerFires, []);
    assert [ResetTimerFires] + [] == [ResetTimerFires];
  }

  /** A reset that fires while a later submission is sending clears the
      status anyway: the timer does not look at the status. */
  lemma StaleResetClearsSending(s: State)
    requires s.status == Sending && s.pendingResets > 0
    ensures Step(s, ResetTimerFires).status == Idle
    ensures Step(s, ResetTimerFires).inFlight == s.inFlight
  {
  }

  /** While sending, the page's guard stops a second submit: no new request. */
  lemma GuardBlocksResubmit(s: State)
    requires s.status == Sending
    ensures UiStep(s, Submit) == s
    ensures |Step(s, Submit).outbox| == |s.outbox| + 1
  {
  }

  /** A session the page permits that ends with two requests in flight: the
      reset scheduled by a failed send fires while the retry is sending, which
      re-enables the button and lets a third submit through before the retry
      is answered. */
  lemma TwoRequestsInFlight()
    ensures var es := [Edit(Name, "A"), Edit(Email, "a@b.com"), Edit(Message, "hi"),
                       Submit, Respond(500), Submit, ResetTimerFires, Submit];
            var t := UiRun(Init, es);
            t.inFlight == 2 && t.status == Sending && t.outbox == [t.form, t.form, t.form]
  {
    var f := Form("A", "a@b.com", "hi");
    var es := [Edit(Name, "A"), Edit(Email, "a@b.com"), Edit(Message, "hi"),
               Submit, Respond(500), Submit, ResetTimerFires, Submit];
    assert Filled(f) by {
      forall field ensures Get(f, field) != "" {
        match field
        case Name => assert f.name[0] == 'A';
        case Email => assert f.email[0] == 'a';
        case Message => assert f.message[0] == 'h';
      }
    }
    var states := [Init,
                   State(Form("A", "", ""), Idle, 0, 0, []),
                   State(Form("A", "a@b.com", ""), Idle, 0, 0, []),
                   State(f, Idle, 0, 0, []),
                   State(f, Sending, 1, 0, [f]),
                   State(f, Error, 0, 1, [f]),
                   State(f, Sending, 1, 1, [f, f]),
                   State(f, Idle, 1, 0, [f, f]),
                   State(f, Sending, 2, 0, [f, f, f])];
    forall i | 0 <= i < |es| ensures UiStep(states[i], es[i]) == states[i + 1] {
    }
    UiRunFollows(states, es, 0);
  }

  /** A run that visits `states` step by step ends in the last of them. */
  lemma {:induction false} UiRunFollows(states: seq<State>, es: seq<Event>, i: nat)
    requires |states| == |es| + 1 && i <= |es|
    requires forall j :: 0 <= j < |es| ==> UiStep(states[j], es[j]) == states[j + 1]
    ensures UiRun(states[i], es[i..]) == states[|es|]
    decreases |es| - i
  {
    if i < |es| {
      assert es[i..][1..] == es[i + 1..];
      UiRunFollows(states, es, i + 1);
    }
  }
}
