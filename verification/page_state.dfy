/** The search page's state machine (`frontend/app/page.tsx`, `HomePage`):
    the form being edited, the submitted filters, the page number, the rows
    and total of the last answer, the loading flag and the error text,
    driven by user events and by the settlement of the fetches the effect
    starts.

    Two React behaviours are modelled exactly. State setters compare by
    identity, so a form object carries an identity number: every keystroke
    makes a new object, and the effect re-runs when the submitted object or
    the page changes, not when the text does. Each run of the effect gets a
    number, and a settlement carrying an older number than the latest run
    is ignored, which is what the effect's `alive` flag achieves. */
module PageState {

  import opened Optional
  import opened Records
  import Api
  import opened View
  import opened SearchPage

  // ------------------------------------------------------------ form objects

  /** A `FormState` object: its identity and its four fields. */
  datatype FormObject = FormObject(id: nat, fields: Form)

  /** The `initialForm` object, identity 0. */
  const Initial := FormObject(0, InitialForm)

  // ----------------------------------------------------------- fetch outcome

  /** What a rejected promise carries: an `Error` with its message, or any
      other value. */
  datatype Rejection = ErrorValue(message: string) | OtherValue

  /** The error text the page shows for a rejection. */
  function ErrorText(e: Rejection): (t: string)
    ensures e.ErrorValue? ==> t == e.message
    ensures e.OtherValue? ==> t == "Unknown error"
  {
    match e
    case ErrorValue(m) => m
    case OtherValue => "Unknown error"
  }

  /** How the pair of requests of one run settles. */
  datatype Settlement = Fulfilled(rows: seq<FuneralHome>, total: int) | Rejected(reason: Rejection)

  /** `Promise.all` over the list call and the count call: both answers when
      both succeed, otherwise the first failure. Which failure comes first
      when both fail depends on timing, so it is a parameter. */
  function JoinCalls(list: Result<seq<FuneralHome>, string>, count: Result<int, string>, listFailsFirst: bool)
    : (r: Settlement)
    ensures r.Fulfilled? <==> list.Success? && count.Success?
    ensures r.Fulfilled? ==> r.rows == list.value && r.total == count.value
    ensures r.Rejected? ==> r.reason.ErrorValue?
    ensures r.Rejected? ==>
      (list.Failure? && r.reason.message == list.error) || (count.Failure? && r.reason.message == count.error)
  {
    match (list, count)
    case (Success(rows), Success(total)) => Fulfilled(rows, total)
    case (Failure(m), Success(_)) => Rejected(ErrorValue(m))
    case (Success(_), Failure(m)) => Rejected(ErrorValue(m))
    case (Failure(m1), Failure(m2)) => Rejected(ErrorValue(if listFailsFirst then m1 else m2))
  }

  /** The timing of the two calls matters only when both fail. */
  lemma JoinCallsOrderIrrelevant(list: Result<seq<FuneralHome>, string>, count: Result<int, string>)
    requires list.Success? || count.Success?
    ensures JoinCalls(list, count, true) == JoinCalls(list, count, false)
  {
  }

  /** The settlement of one run: the list request for the submitted form and
      page, and the count request for the submitted form, each answered by
      its network. */
  function Answer(
    base: Option<string>, f: Form, page: int,
    listNet: string -> Api.Transport<seq<FuneralHome>>, countNet: string -> Api.Transport<Api.CountBody>,
    listFailsFirst: bool): Settlement
  {
    JoinCalls(Api.FetchFuneralHomes(base, ListRequest(f, page), listNet),
              Api.FetchFuneralHomesCount(base, FormFilters(f), countNet), listFailsFirst)
  }

  /** Without a base URL every run fails with the configuration error,
      whatever the network would say. */
  lemma AnswerWithoutBase(
    base: Option<string>, f: Form, page: int,
    listNet: string -> Api.Transport<seq<FuneralHome>>, countNet: string -> Api.Transport<Api.CountBody>,
    listFailsFirst: bool)
    requires base.None? || base.value == ""
    ensures Answer(base, f, page, listNet, countNet, listFailsFirst) == Rejected(ErrorValue(Api.MissingBaseMessage))
  {
    Api.MissingBaseFailsBeforeRequest(base, ListRequest(f, page), FormFilters(f), listNet, listNet, countNet, countNet);
  }

  // ------------------------------------------------------------------ state

  /** The page's state. `nextId` is the identity the next new form object
      gets; `run` is the number of the latest run of the fetch effect. */
  datatype ViewState = ViewState(
    form: FormObject, submitted: FormObject, nextId: nat,
    page: int, rows: seq<FuneralHome>, total: int,
    loading: bool, error: Option<string>, run: nat)

  /** A new run of the effect: loading, no error, a new run number. */
  function StartRun(s: ViewState): (r: ViewState)
    ensures r.loading && r.error.None? && r.run == s.run + 1
    ensures r == s.(loading := true, error := None, run := s.run + 1)
  {
    s.(loading := true, error := None, run := s.run + 1)
  }

  /** The state once the effect's first run has started: the initial form
      on page 0 with no rows, loading, with no error. The paint before the
      effect runs, with `loading` still false, is not modelled. */
  function Mount(): (s: ViewState)
    ensures s.form == Initial && s.submitted == Initial && s.page == 0
    ensures s.rows == [] && s.total == 0
    ensures s.loading && s.error.None? && s.run == 1
  {
    StartRun(ViewState(Initial, Initial, 1, 0, [], 0, false, None, 0))
  }

  /** A state update followed by the effect's dependency check: the effect
      runs again exactly when the submitted object or the page changed. The
      check touches only the effect's own state: the update itself is kept,
      the run number advances by one exactly when a dependency changed, and
      a new run shows loading with no error. */
  function Rerun(before: ViewState, after: ViewState): (r: ViewState)
    ensures r.(loading := after.loading, error := after.error, run := after.run) == after
    ensures r.run == after.run || r.run == after.run + 1
    ensures r.run == after.run + 1 <==> after.submitted.id != before.submitted.id || after.page != before.page
    ensures r.run == after.run + 1 ==> r.loading && r.error.None?
    ensures r.run == after.run ==> r == after
  {
    if after.submitted.id != before.submitted.id || after.page != before.page then StartRun(after) else after
  }

  /** What can happen to the page. `Settle(g, o)` is the pair of requests of
      run `g` settling with `o`. */
  datatype Event =
    | Edit(field: Field, value: string)
    | Submit
    | Reset
    | Prev
    | Next
    | Settle(gen: nat, outcome: Settlement)

  /** One event.
      - `Edit` is a text field's `onChange`: a new form object.
      - `Submit` is `onSubmit` and `Reset` is `onReset`.
      - `Prev` and `Next` are the buttons, which do nothing while disabled
        (`!canPrev || loading`, `!canNext || loading`).
      - `Settle` applies `then` or `catch` and then `finally`, for the latest
        run only; a run settles once, so a settlement when nothing is
        loading does nothing. */
  function Step(s: ViewState, e: Event): (r: ViewState)
    // the effect runs again exactly when one of its dependencies changed
    ensures r.run == s.run || r.run == s.run + 1
    ensures r.run == s.run + 1 <==> r.submitted.id != s.submitted.id || r.page != s.page
    ensures r.run == s.run + 1 ==> r.loading && r.error.None?
    // a settlement of a superseded run changes nothing
    ensures e.Settle? && e.gen != s.run ==> r == s
    // rows and total change only by the latest run succeeding
    ensures r.rows != s.rows || r.total != s.total
            ==> e.Settle? && e.gen == s.run && e.outcome.Fulfilled?
                && r.rows == e.outcome.rows && r.total == e.outcome.total
    // a failure shows its error and keeps the last rows and total
    ensures e.Settle? && e.gen == s.run && s.loading && e.outcome.Rejected?
            ==> r.rows == s.rows && r.total == s.total && !r.loading
                && r.error == Some(ErrorText(e.outcome.reason))
    // onSubmit and onReset
    ensures e.Submit? ==> r.page == 0 && r.submitted == s.form && r.form == s.form
    ensures e.Reset? ==> r.page == 0 && r.submitted == Initial && r.form == Initial
    // a keystroke changes the form only
    ensures e.Edit? ==> r.submitted == s.submitted && r.page == s.page && r.run == s.run
                        && FieldOf(r.form.fields, e.field) == e.value && r.form.id == s.nextId
    // the paging buttons are inert while loading
    ensures (e.Prev? || e.Next?) && s.loading ==> r == s
  {
    match e
    case Edit(k, v) =>
      s.(form := FormObject(s.nextId, WithField(s.form.fields, k, v)), nextId := s.nextId + 1)
    case Submit =>
      Rerun(s, s.(page := 0, submitted := s.form))
    case Reset =>
      Rerun(s, s.(form := Initial, page := 0, submitted := Initial))
    case Prev =>
      if !CanPrev(s.page) || s.loading then s else Rerun(s, s.(page := PrevPage(s.page)))
    case Next =>
      if !CanNext(s.page, s.total) || s.loading then s else Rerun(s, s.(page := NextPage(s.page)))
    case Settle(g, out) =>
      if g != s.run || !s.loading then s
      else match out
        case Fulfilled(rows, total) => s.(rows := rows, total := total, loading := false)
        case Rejected(reason) => s.(error := Some(ErrorText(reason)), loading := false)
  }

  /** What holds of every reachable state: the page is never negative, a
      run has started, an error is never shown while loading, identities are
      below `nextId`, and an identity determines the fields (identity 0 is
      `initialForm`). */
  predicate Inv(s: ViewState) {
    && s.page >= 0
    && s.run >= 1
    && (s.loading ==> s.error.None?)
    && s.form.id < s.nextId && s.submitted.id < s.nextId
    && (s.form.id == 0 ==> s.form.fields == InitialForm)
    && (s.submitted.id == 0 ==> s.submitted.fields == InitialForm)
    && (s.form.id == s.submitted.id ==> s.form.fields == s.submitted.fields)
  }

  lemma MountInv()
    ensures Inv(Mount())
  {
  }

  /** Every event keeps the invariant. */
  lemma StepPreservesInv(s: ViewState, e: Event)
    requires Inv(s)
    ensures Inv(Step(s, e))
  {
    if e.Prev? && CanPrev(s.page) && !s.loading {
      assert PrevPage(s.page) >= 0;
    }
  }

  /** The state after a sequence of events. */
  function Run(s: ViewState, events: seq<Event>): ViewState
    decreases |events|
  {
    if events == [] then s else Run(Step(s, events[0]), events[1..])
  }

  /** Every reachable state satisfies the invariant. */
  lemma {:induction false} RunPreservesInv(s: ViewState, events: seq<Event>)
    requires Inv(s)
    ensures Inv(Run(s, events))
    decreases |events|
  {
    if events != [] {
      StepPreservesInv(s, events[0]);
      RunPreservesInv(Step(s, events[0]), events[1..]);
    }
  }

  /** A step that starts no new run keeps the search the latest run was
      started for: the submitted fields and the page. */
  lemma StepKeepsSearch(s: ViewState, e: Event)
    requires Inv(s) && Step(s, e).run == s.run
    ensures Step(s, e).submitted.fields == s.submitted.fields && Step(s, e).page == s.page
  {
  }

  /** Run numbers only grow. */
  lemma {:induction false} RunNeverDecreases(s: ViewState, events: seq<Event>)
    ensures Run(s, events).run >= s.run
    decreases |events|
  {
    if events != [] {
      RunNeverDecreases(Step(s, events[0]), events[1..]);
    }
  }

  /** While no newer run has started, the submitted fields and the page are
      still those the latest run was started for: the effect's closure and
      the page agree on what is being searched. */
  lemma {:induction false} SameRunSameSearch(s: ViewState, events: seq<Event>)
    requires Inv(s) && Run(s, events).run == s.run
    ensures Run(s, events).submitted.fields == s.submitted.fields
    ensures Run(s, events).page == s.page
    decreases |events|
  {
    if events != [] {
      var s1 := Step(s, events[0]);
      StepPreservesInv(s, events[0]);
      RunNeverDecreases(s1, events[1..]);
      StepKeepsSearch(s, events[0]);
      SameRunSameSearch(s1, events[1..]);
    }
  }

  /** What the page shows answers what it shows as searched. Let `s` be a
      state of run `s.run`, whose effect asked for the list and the count of
      `s.submitted.fields` at `s.page`. If after any events that run is still
      the latest and still loading, its settlement with those two answers
      shows the rows and total of the list and count requests for the
      submitted fields and page of the resulting state; when either request
      fails, the last rows and total stay and that request's error is shown. */
  lemma SettledRowsAnswerShownSearch(
    s: ViewState, events: seq<Event>, base: Option<string>,
    listNet: string -> Api.Transport<seq<FuneralHome>>, countNet: string -> Api.Transport<Api.CountBody>,
    listFailsFirst: bool)
    requires Inv(s) && Run(s, events).run == s.run && Run(s, events).loading
    ensures var t := Run(s, events);
      var u := Step(t, Settle(s.run, Answer(base, s.submitted.fields, s.page, listNet, countNet, listFailsFirst)));
      var list := Api.FetchFuneralHomes(base, ListRequest(u.submitted.fields, u.page), listNet);
      var count := Api.FetchFuneralHomesCount(base, FormFilters(u.submitted.fields), countNet);
      && !u.loading
      && (list.Success? && count.Success? ==> u.rows == list.value && u.total == count.value && u.error.None?)
      && (list.Failure? || count.Failure? ==>
            && u.rows == t.rows && u.total == t.total
            && ((list.Failure? && u.error == Some(list.error))
                || (count.Failure? && u.error == Some(count.error))))
  {
    var t := Run(s, events);
    RunPreservesInv(s, events);
    SameRunSameSearch(s, events);
    SettleLatest(t, Api.FetchFuneralHomes(base, ListRequest(s.submitted.fields, s.page), listNet),
                 Api.FetchFuneralHomesCount(base, FormFilters(s.submitted.fields), countNet), listFailsFirst);
  }

  /** The latest run settling with the joined answers of its two calls. */
  lemma SettleLatest(t: ViewState, list: Result<seq<FuneralHome>, string>, count: Result<int, string>, listFailsFirst: bool)
    requires Inv(t) && t.loading
    ensures var u := Step(t, Settle(t.run, JoinCalls(list, count, listFailsFirst)));
      && !u.loading && u.submitted == t.submitted && u.page == t.page
      && (list.Success? && count.Success? ==> u.rows == list.value && u.total == count.value && u.error.None?)
      && (list.Failure? || count.Failure? ==>
            && u.rows == t.rows && u.total == t.total
            && ((list.Failure? && u.error == Some(list.error))
                || (count.Failure? && u.error == Some(count.error))))
  {
  }

  /** Submitting text that differs from what was last submitted always
      fetches again, from page 0. */
  lemma SubmitNewTextFetches(s: ViewState)
    requires Inv(s) && s.form.fields != s.submitted.fields
    ensures Step(s, Submit).run == s.run + 1 && Step(s, Submit).page == 0
    ensures Step(s, Submit).submitted.fields == s.form.fields
  {
  }

  /** Submitting the very object already submitted, on page 0, changes
      nothing and fetches nothing. */
  lemma ResubmitIsInert(s: ViewState)
    requires s.form == s.submitted && s.page == 0
    ensures Step(s, Submit) == s
  {
  }

  /** Identity, not text, decides: typing a character and deleting it again
      leaves the same text in a new object, and submitting that fetches
      again. */
  lemma RetypedTextFetches(s: ViewState, k: Field, c: char)
    requires Inv(s) && s.form == s.submitted && s.page == 0
    ensures var t := Run(s, [Edit(k, FieldOf(s.form.fields, k) + [c]), Edit(k, FieldOf(s.form.fields, k)), Submit]);
      && t.submitted.fields == s.submitted.fields
      && t.run == s.run + 1
  {
    var old_text := FieldOf(s.form.fields, k);
    var s1 := Step(s, Edit(k, old_text + [c]));
    var s2 := Step(s1, Edit(k, old_text));
    assert s2.form.fields == s.form.fields by {
      forall j: Field ensures FieldOf(s2.form.fields, j) == FieldOf(s.form.fields, j) {
      }
      FormFieldsDetermine(s2.form.fields, s.form.fields);
    }
    var s3 := Step(s2, Submit);
    var evs := [Edit(k, old_text + [c]), Edit(k, old_text), Submit];
    assert evs[1..] == [Edit(k, old_text), Submit] && evs[1..][1..] == [Submit] && evs[1..][1..][1..] == [];
    assert Run(s, evs) == Run(s1, evs[1..]) == Run(s2, evs[1..][1..]) == Run(s3, []);
  }

  /** Two forms with the same four fields are the same form. */
  lemma FormFieldsDetermine(a: Form, b: Form)
    requires forall j: Field :: FieldOf(a, j) == FieldOf(b, j)
    ensures a == b
  {
    assert FieldOf(a, NameField) == FieldOf(b, NameField);
    assert FieldOf(a, CityField) == FieldOf(b, CityField);
    assert FieldOf(a, RegionField) == FieldOf(b, RegionField);
    assert FieldOf(a, PostalField) == FieldOf(b, PostalField);
  }

  /** Reset on a page that shows `initialForm` on page 0 does nothing. */
  lemma ResetWhenInitialIsInert(s: ViewState)
    requires s.form == Initial && s.submitted == Initial && s.page == 0
    ensures Step(s, Reset) == s
  {
  }

  /** Prev leads to the previous page exactly when the button is enabled,
      and otherwise does nothing; likewise Next. */
  lemma ButtonsMove(s: ViewState)
    requires Inv(s)
    ensures s.page > 0 && !s.loading ==> Step(s, Prev).page == s.page - 1 && Step(s, Prev).loading
    ensures !(s.page > 0 && !s.loading) ==> Step(s, Prev) == s
    ensures PageSize * (s.page + 1) < s.total && !s.loading
            ==> Step(s, Next).page == s.page + 1 && Step(s, Next).loading
    ensures !(PageSize * (s.page + 1) < s.total && !s.loading) ==> Step(s, Next) == s
  {
    CanNextIffMoreRows(s.page, s.total);
  }

  /** Two searches in flight: the first search's answer arrives after the
      second search started and is ignored; the second's answer is shown.
      Each submit carries a new form object, so this holds whatever the two
      texts are, even when they equal each other or the last search. */
  lemma OverlappingSearches(
    s: ViewState, a: Form, b: Form,
    first: Settlement, second: Settlement, rows: seq<FuneralHome>, total: int)
    requires Inv(s) && second == Fulfilled(rows, total)
    ensures var s1 := Step(s.(form := FormObject(s.nextId, a), nextId := s.nextId + 1), Submit);
      var s2 := Step(s1.(form := FormObject(s1.nextId, b), nextId := s1.nextId + 1), Submit);
      var s3 := Step(s2, Settle(s1.run, first));
      var s4 := Step(s3, Settle(s2.run, second));
      && s1.run == s.run + 1 && s2.run == s.run + 2
      && s3 == s2
      && s4.rows == rows && s4.total == total && !s4.loading
      && s4.submitted.fields == b && s4.page == 0
  {
  }
}
