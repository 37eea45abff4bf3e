/** The contact form page as the script sees it: the values of its controls,
    one error indicator per control, the `aria-invalid` attributes of the text
    fields, the success toast and the element that last received focus. The
    helpers that show and hide an indicator are functions on the indicator
    state; the submit handler and the live-clearing handlers are methods that
    update the page in place. */
module FormPage {
  import opened JsString
  import opened EmailFormat
  import opened Validator
  import opened Toast

  /** The error indicators of the page: the controls whose indicator is
      visible, the text fields whose `aria-invalid` is "true", and the
      message last written into each indicator, whose text content is then
      `Text` of that message (an indicator never written keeps its text from
      the page's markup). */
  datatype Marks = Marks(shown: set<Control>, invalid: set<Control>, written: map<Control, Msg>)

  /** A text field is marked invalid exactly when its indicator is visible. */
  ghost predicate Consistent(mk: Marks) {
    mk.invalid == mk.shown * TextFields
  }

  /** The reset at the start of the submit handler: every indicator hidden
      and every text field marked valid; what was written stays. */
  function Reset(mk: Marks): (r: Marks)
    ensures r.shown == {} && r.invalid == {} && r.written == mk.written
    ensures Consistent(r)
  {
    Marks({}, {}, mk.written)
  }

  /** `showError`: text field `c`'s indicator gets the text of `m` and
      becomes visible, and `c` is marked invalid; no other control's
      indicator or attribute changes. */
  function ShowError(mk: Marks, c: Control, m: Msg): (r: Marks)
    requires c in TextFields
    ensures c in r.shown && c in r.invalid && r.written == mk.written[c := m]
    ensures r.shown - {c} == mk.shown - {c} && r.invalid - {c} == mk.invalid - {c}
    ensures Consistent(mk) ==> Consistent(r)
  {
    Marks(mk.shown + {c}, mk.invalid + {c}, mk.written[c := m])
  }

  /** The radio group's failure, written inline in the submit handler: its
      indicator gets the text of `m` and becomes visible; the group has no
      `aria-invalid`, and no other indicator changes. */
  function ShowErrorRadioGroup(mk: Marks, m: Msg): (r: Marks)
    ensures QueryType in r.shown && r.written == mk.written[QueryType := m]
    ensures r.shown - {QueryType} == mk.shown - {QueryType} && r.invalid == mk.invalid
    ensures Consistent(mk) ==> Consistent(r)
  {
    Marks(mk.shown + {QueryType}, mk.invalid, mk.written[QueryType := m])
  }

  /** `showErrorCheckbox`: the consent indicator gets the text of `m` and
      becomes visible; the checkbox has no `aria-invalid`, and no other
      indicator changes. */
  function ShowErrorCheckbox(mk: Marks, m: Msg): (r: Marks)
    ensures Consent in r.shown && r.written == mk.written[Consent := m]
    ensures r.shown - {Consent} == mk.shown - {Consent} && r.invalid == mk.invalid
    ensures Consistent(mk) ==> Consistent(r)
  {
    Marks(mk.shown + {Consent}, mk.invalid, mk.written[Consent := m])
  }

  /** `clearError`: text field `c`'s indicator is hidden and `c` is marked
      valid; its text and every other control's indicator stay. */
  function ClearError(mk: Marks, c: Control): (r: Marks)
    requires c in TextFields
    ensures c !in r.shown && c !in r.invalid && r.written == mk.written
    ensures r.shown - {c} == mk.shown - {c} && r.invalid - {c} == mk.invalid - {c}
    ensures Consistent(mk) ==> Consistent(r)
  {
    Marks(mk.shown - {c}, mk.invalid - {c}, mk.written)
  }

  /** `clearErrorRadioGroup`: the radio group's indicator is hidden; nothing
      else changes. */
  function ClearErrorRadioGroup(mk: Marks): (r: Marks)
    ensures QueryType !in r.shown && r.shown - {QueryType} == mk.shown - {QueryType}
    ensures r.invalid == mk.invalid && r.written == mk.written
    ensures Consistent(mk) ==> Consistent(r)
  {
    Marks(mk.shown - {QueryType}, mk.invalid, mk.written)
  }

  /** `clearErrorCheckbox`: the consent indicator is hidden; nothing else
      changes. */
  function ClearErrorCheckbox(mk: Marks): (r: Marks)
    ensures Consent !in r.shown && r.shown - {Consent} == mk.shown - {Consent}
    ensures r.invalid == mk.invalid && r.written == mk.written
    ensures Consistent(mk) ==> Consistent(r)
  {
    Marks(mk.shown - {Consent}, mk.invalid, mk.written)
  }

  /** The indicators are those a pass that reports `R` leaves once it has
      checked the controls ranked below `k`, starting from indicators that
      had `w0` written into them. */
  ghost predicate Agrees(mk: Marks, R: Validation, k: nat, w0: map<Control, Msg>) {
    forall c ::
      && (c in mk.shown <==> c in R.errors && Rank(c) < k)
      && (c in mk.invalid <==> c in R.errors && Rank(c) < k && c in TextFields)
      && (c in mk.written <==> (c in R.errors && Rank(c) < k) || c in w0)
      && (c in mk.written ==> mk.written[c] == if c in R.errors && Rank(c) < k then R.errors[c] else w0[c])
  }

  /** Before any control is checked, nothing is shown and nothing written. */
  lemma AgreesInitially(mk: Marks, R: Validation)
    requires mk.shown == {} && mk.invalid == {}
    ensures Agrees(mk, R, 0, mk.written)
  {
  }

  /** Checking control `c` next, from `mk` to `mk'`, keeps the indicators in
      step with `R` when only `c`'s indicator changes, and it is shown,
      marked and written exactly as `R` reports it. */
  lemma AgreesStep(mk: Marks, mk': Marks, R: Validation, c: Control, w0: map<Control, Msg>)
    requires Agrees(mk, R, Rank(c), w0)
    requires mk'.shown - {c} == mk.shown - {c} && mk'.invalid - {c} == mk.invalid - {c}
    requires c in mk'.shown <==> c in R.errors
    requires c in mk'.invalid <==> c in R.errors && c in TextFields
    requires mk'.written == if c in R.errors then mk.written[c := R.errors[c]] else mk.written
    ensures Agrees(mk', R, Rank(c) + 1, w0)
  {
    forall d ensures Rank(d) < Rank(c) + 1 <==> Rank(d) < Rank(c) || d == c {
      RankInjective(c, d);
    }
    forall d | d != c
      ensures (d in mk'.shown <==> d in mk.shown) && (d in mk'.invalid <==> d in mk.invalid)
    {
      assert d in mk'.shown <==> d in mk'.shown - {c};
      assert d in mk'.invalid <==> d in mk'.invalid - {c};
    }
  }

  /** Once every control is checked, the indicators are exactly what `R`
      reports. */
  lemma AgreesFinally(mk: Marks, R: Validation, w0: map<Control, Msg>)
    requires Agrees(mk, R, |Order|, w0)
    ensures mk.shown == R.errors.Keys && mk.invalid == R.errors.Keys * TextFields
    ensures mk.written == w0 + R.errors
  {
    forall c ensures Rank(c) < |Order| {
      InAllControls(c);
    }
  }

  class FormModel {
    var firstName: string
    var lastName: string
    var email: string
    var message: string
    /** The checked state of each radio button of the query-type group. */
    var radios: seq<bool>
    var consent: bool
    /** The error indicators and the `aria-invalid` attributes. */
    var marks: Marks
    var toast: ToastState
    /** The control the handler last moved the focus to. */
    var focused: Option<Control>

    /** The indicators are consistent and a shown toast has a hide pending. */
    ghost predicate Valid()
      reads this
    {
      Consistent(marks) && Toast.Inv(toast)
    }

    /** What a submit reads from the page. */
    function Values(): FormValues
      reads this
    {
      FormValues(firstName, lastName, email, message, radios, consent)
    }

    /** The page once loaded: every indicator hidden and never written, no
        field marked invalid, the toast hidden and nothing focused. */
    constructor (v: FormValues)
      ensures Valid()
      ensures Values() == v && marks == Marks({}, {}, map[])
      ensures toast == Initial && focused == None
    {
      firstName, lastName, email, message := v.firstName, v.lastName, v.email, v.message;
      radios, consent := v.radios, v.consent;
      marks := Marks({}, {}, map[]);
      toast, focused := Initial, None;
    }

    /** An `input` event on text field `c`, which now holds `s`: its
        indicator is hidden and it is marked valid, whatever `s` is; nothing
        is validated. */
    method Input(c: Control, s: string)
      requires Valid() && c in TextFields
      modifies this
      ensures Valid()
      ensures Values() == WithText(old(Values()), c, s)
      ensures marks == ClearError(old(marks), c)
      ensures toast == old(toast) && focused == old(focused)
    {
      match c {
        case FirstName => firstName := s;
        case LastName => lastName := s;
        case Email => email := s;
        case Message => message := s;
      }
      marks := ClearError(marks, c);
    }

    /** A `change` event on radio button `i`: the browser checks it and
        unchecks the rest of the group, and the group's indicator is hidden. */
    method SelectRadio(i: nat)
      requires Valid() && i < |radios|
      modifies this
      ensures Valid()
      ensures |radios| == |old(radios)| && radios[i]
      ensures forall j :: 0 <= j < |radios| && j != i ==> !radios[j]
      ensures Values() == old(Values()).(radios := radios)
      ensures marks == ClearErrorRadioGroup(old(marks))
      ensures toast == old(toast) && focused == old(focused)
    {
      radios := seq(|radios|, j => j == i);
      marks := ClearErrorRadioGroup(marks);
    }

    /** A `change` event on the consent checkbox, in either direction: the
        box flips and its indicator is hidden. */
    method ToggleConsent()
      requires Valid()
      modifies this
      ensures Valid()
      ensures Values() == old(Values()).(consent := !old(consent))
      ensures marks == ClearErrorCheckbox(old(marks))
      ensures toast == old(toast) && focused == old(focused)
    {
      consent := !consent;
      marks := ClearErrorCheckbox(marks);
    }

    /** `showToast`: show the toast and schedule its hide. */
    method ShowToast()
      requires Valid()
      modifies this
      ensures Valid()
      ensures toast == Show(old(toast))
      ensures Values() == old(Values()) && marks == old(marks) && focused == old(focused)
    {
      toast := Show(toast);
    }

    /** `hideToast`: hide the toast, whatever its state. */
    method HideToast()
      requires Valid()
      modifies this
      ensures Valid()
      ensures toast == Hide(old(toast))
      ensures Values() == old(Values()) && marks == old(marks) && focused == old(focused)
    {
      toast := Hide(toast);
    }

    /** One scheduled hide timer fires and calls `hideToast`. */
    method TimerFires()
      requires Valid() && toast.pendingHides > 0
      modifies this
      ensures Valid()
      ensures toast == Fire(old(toast))
      ensures Values() == old(Values()) && marks == old(marks) && focused == old(focused)
    {
      HideToast();
      toast := toast.(pendingHides := toast.pendingHides - 1);
    }

    /** The branch the submit handler repeats for control `c`: when the
        check found message `msg`, show it on `c`'s indicator, raise the
        error flag, and make `c` the focus target unless one is recorded
        already or `c` has no element to focus. Checked in the handler's
        order, the indicators stay in step with `R`. */
    method Report(c: Control, msg: Option<Msg>, focusable: bool, mk: Marks, hasError: bool,
                  firstError: Option<Control>, ghost R: Validation, ghost w0: map<Control, Msg>)
      returns (mk': Marks, hasError': bool, firstError': Option<Control>)
      requires Agrees(mk, R, Rank(c), w0)
      requires c in R.errors <==> msg.Some?
      requires msg.Some? ==> R.errors[c] == msg.value
      ensures Agrees(mk', R, Rank(c) + 1, w0)
      ensures hasError' == (hasError || msg.Some?)
      ensures firstError' == if firstError.None? && focusable && msg.Some? then Some(c) else firstError
    {
      mk', hasError', firstError' := mk, hasError, firstError;
      if msg.Some? {
        if c == QueryType {
          mk' := ShowErrorRadioGroup(mk, msg.value);
        } else if c == Consent {
          mk' := ShowErrorCheckbox(mk, msg.value);
        } else {
          mk' := ShowError(mk, c, msg.value);
        }
        hasError' := true;
        if firstError.None? && focusable {
          firstError' := Some(c);
        }
      }
      AgreesStep(mk, mk', R, c, w0);
    }

    /** The checks of the four text fields, in the handler's order: each
        blank field gets "required", a non-blank email that is not of the
        accepted form gets the format message, and the first failing field
        is the focus target. */
    method CheckTextFields(mk: Marks, ghost R: Validation, ghost w0: map<Control, Msg>)
      returns (mk': Marks, hasError: bool, firstError: Option<Control>)
      requires Agrees(mk, R, Rank(FirstName), w0)
      requires ReportsCheck(Values(), R, FirstName) && ReportsCheck(Values(), R, LastName)
      requires ReportsCheck(Values(), R, Email) && ReportsCheck(Values(), R, Message)
      ensures Agrees(mk', R, Rank(Message) + 1, w0)
      ensures hasError == (FirstName in R.errors || LastName in R.errors || Email in R.errors || Message in R.errors)
      ensures firstError ==
        if FirstName in R.errors then Some(FirstName)
        else if LastName in R.errors then Some(LastName)
        else if Email in R.errors then Some(Email)
        else if Message in R.errors then Some(Message)
        else None
    {
      hasError, firstError := false, None;

      var first := if Trim(firstName) == [] then Some(Required) else None;
      mk', hasError, firstError := Report(FirstName, first, true, mk, hasError, firstError, R, w0);

      var last := if Trim(lastName) == [] then Some(Required) else None;
      mk', hasError, firstError := Report(LastName, last, true, mk', hasError, firstError, R, w0);

      var mail := if Trim(email) == [] then Some(Required)
                  else if !IsValidEmail(email) then Some(BadEmail)
                  else None;
      mk', hasError, firstError := Report(Email, mail, true, mk', hasError, firstError, R, w0);

      var text := if Trim(message) == [] then Some(Required) else None;
      mk', hasError, firstError := Report(Message, text, true, mk', hasError, firstError, R, w0);
    }

    /** The checks of the radio group and the consent checkbox, after the
        text fields: the group fails when no button is checked, the checkbox
        when it is unchecked. The group becomes the focus target only if
        none is recorded yet and it has a first button. */
    method CheckChoices(mk: Marks, hasError: bool, firstError: Option<Control>,
                        ghost R: Validation, ghost w0: map<Control, Msg>)
      returns (mk': Marks, hasError': bool, firstError': Option<Control>)
      requires Agrees(mk, R, Rank(QueryType), w0)
      requires ReportsCheck(Values(), R, QueryType) && ReportsCheck(Values(), R, Consent)
      ensures Agrees(mk', R, Rank(Consent) + 1, w0)
      ensures hasError' == (hasError || QueryType in R.errors || Consent in R.errors)
      ensures firstError' ==
        if firstError.Some? then firstError
        else if QueryType in R.errors && |radios| > 0 then Some(QueryType)
        else if Consent in R.errors then Some(Consent)
        else None
    {
      var querySelected := QuerySelected(radios);
      var query := if !querySelected then Some(NoQueryType) else None;
      // `radioButtons[0]` of an empty group is `undefined`: no target.
      mk', hasError', firstError' := Report(QueryType, query, |radios| > 0, mk, hasError, firstError, R, w0);

      var agreed := if !consent then Some(NoConsent) else None;
      mk', hasError', firstError' := Report(Consent, agreed, true, mk', hasError', firstError', R, w0);
    }

    /** The checks of the submit handler, in its order, on the current
        values: every indicator is hidden and every field marked valid, then
        each control is checked, a failing one gets its message, and the
        first failing one with an element is picked as the focus target. The
        resulting indicators, the error flag and the target are exactly what
        `R`, the outcome the checks decide, reports. */
    method CheckAgainst(ghost R: Validation) returns (mk: Marks, hasError: bool, firstError: Option<Control>)
      requires Decides(Values(), R)
      ensures mk.shown == R.errors.Keys && mk.invalid == R.errors.Keys * TextFields
      ensures mk.written == marks.written + R.errors
      ensures hasError <==> R.errors != map[]
      ensures firstError == R.focus
    {
      ghost var v := Values();
      mk := Reset(marks);
      ghost var w0 := mk.written;
      AgreesInitially(mk, R);
      mk, hasError, firstError := CheckTextFields(mk, R, w0);
      mk, hasError, firstError := CheckChoices(mk, hasError, firstError, R, w0);
      AgreesFinally(mk, R, w0);
      DecidesNothing(v, R);
    }

    /** The checks of the submit handler report what `Validate` reports on
        the current values. */
    method CheckControls() returns (mk: Marks, hasError: bool, firstError: Option<Control>)
      ensures var r := Validate(Values());
        && mk.shown == r.errors.Keys && mk.invalid == r.errors.Keys * TextFields
        && mk.written == marks.written + r.errors
        && (hasError <==> r.errors != map[])
        && firstError == r.focus
    {
      ValidateDecides(Values());
      mk, hasError, firstError := CheckAgainst(Validate(Values()));
    }

    /** The submit handler. After the checks, on failure the focus moves to
        the target and nothing else changes; on success the toast is shown
        and only the message field is emptied. */
    method Submit()
      requires Valid()
      modifies this
      ensures Valid()
      ensures var r := Validate(old(Values()));
        && marks.shown == r.errors.Keys
        && marks.invalid == r.errors.Keys * TextFields
        && marks.written == old(marks.written) + r.errors
        && (r.errors == map[] ==>
              && toast == Show(old(toast))
              && Values() == old(Values()).(message := "")
              && focused == old(focused))
        && (r.errors != map[] ==>
              && toast == old(toast)
              && Values() == old(Values())
              && focused == (if r.focus.Some? then r.focus else old(focused)))
    {
      var mk, hasError, firstError := CheckControls();
      marks := mk;
      if hasError {
        if firstError.Some? {
          focused := firstError;
        }
      } else {
        ShowToast();
        message := "";
      }
    }
  }
}
