/** The decision part of the submit handler: the per-control checks, run in
    the handler's fixed order, the message each failing control gets, and the
    control that receives focus. */
module Validator {
  import opened JsString
  import opened EmailFormat

  datatype Option<+T> = None | Some(value: T)

  /** The six controls of the contact form, each with its own error
      indicator; `QueryType` is the radio group. */
  datatype Control = FirstName | LastName | Email | Message | QueryType | Consent

  const AllControls: set<Control> := {FirstName, LastName, Email, Message, QueryType, Consent}

  /** The controls that carry an `aria-invalid` attribute. */
  const TextFields: set<Control> := {FirstName, LastName, Email, Message}

  /** Position of each control in the order the handler checks them. */
  function Rank(c: Control): nat {
    match c
    case FirstName => 0
    case LastName => 1
    case Email => 2
    case Message => 3
    case QueryType => 4
    case Consent => 5
  }

  /** The four error messages of the form. */
  datatype Msg = Required | BadEmail | NoQueryType | NoConsent

  /** The text the handler writes into an error indicator. */
  function Text(m: Msg): string {
    match m
    case Required => "This field is required"
    case BadEmail => "Please enter a valid email address"
    case NoQueryType => "Please select a query type"
    case NoConsent => "To submit this form, please consent to being contacted"
  }

  /** No two messages share a text, so the message written into an indicator
      determines the text the user reads, and the reverse. */
  lemma TextInjective(m: Msg, m': Msg)
    ensures Text(m) == Text(m') <==> m == m'
  {
    if m != m' {
      assert |Text(m)| != |Text(m')|;
    }
  }

  /** The messages that control `c` can show. */
  function MessagesOf(c: Control): set<Msg> {
    match c
    case Email => {Required, BadEmail}
    case QueryType => {NoQueryType}
    case Consent => {NoConsent}
    case _ => {Required}
  }

  /** What one submit reads from the page: the four text values, the checked
      state of each radio button of the query-type group, and the consent
      checkbox. */
  datatype FormValues = FormValues(
    firstName: string,
    lastName: string,
    email: string,
    message: string,
    radios: seq<bool>,
    consent: bool)

  function TextOf(v: FormValues, c: Control): string
    requires c in TextFields
  {
    match c
    case FirstName => v.firstName
    case LastName => v.lastName
    case Email => v.email
    case Message => v.message
  }

  /** `v` with the text field `c` holding `s`. */
  function WithText(v: FormValues, c: Control, s: string): FormValues
    requires c in TextFields
  {
    match c
    case FirstName => v.(firstName := s)
    case LastName => v.(lastName := s)
    case Email => v.(email := s)
    case Message => v.(message := s)
  }

  predicate SomeRadioChecked(radios: seq<bool>) {
    exists i :: 0 <= i < |radios| && radios[i]
  }

  /** The handler's scan of the radio buttons for a checked one. */
  method QuerySelected(radios: seq<bool>) returns (selected: bool)
    ensures selected == SomeRadioChecked(radios)
  {
    selected := false;
    for i := 0 to |radios|
      invariant selected <==> exists j :: 0 <= j < i && radios[j]
    {
      if radios[i] {
        selected := true;
      }
    }
  }

  /** The handler's test for control `c`: the message it shows, or `None`
      when `c` passes. The email format is checked on the untrimmed value, and
      only when the trimmed value is not empty. */
  function Check(v: FormValues, c: Control): Option<Msg> {
    match c
    case FirstName => if Trim(v.firstName) == [] then Some(Required) else None
    case LastName => if Trim(v.lastName) == [] then Some(Required) else None
    case Email =>
      if Trim(v.email) == [] then Some(Required)
      else if !IsValidEmail(v.email) then Some(BadEmail)
      else None
    case Message => if Trim(v.message) == [] then Some(Required) else None
    case QueryType => if !SomeRadioChecked(v.radios) then Some(NoQueryType) else None
    case Consent => if !v.consent then Some(NoConsent) else None
  }

  /** The outcome of one submit: the message of every failing control, and
      the element the handler focuses, if any. */
  datatype Validation = Validation(errors: map<Control, Msg>, focus: Option<Control>)

  /** The order in which the handler checks the controls. */
  const Order: seq<Control> := [FirstName, LastName, Email, Message, QueryType, Consent]

  /** The radio group's focus element is its first button; with no buttons
      the handler records `undefined`, which counts as no target. */
  predicate Focusable(v: FormValues, c: Control) {
    c != QueryType || |v.radios| > 0
  }

  /** What a submit of `v` decides: every failing control with the message
      its check gives, and the first failing control, in the handler's order,
      that has an element to focus. */
  function Validate(v: FormValues): Validation {
    Validation(
      map c | c in AllControls && Check(v, c).Some? :: Check(v, c).value,
      FirstTarget(v, Order))
  }

  /** The first control of `cs` that fails and has an element to focus. */
  function FirstTarget(v: FormValues, cs: seq<Control>): (t: Option<Control>)
    ensures t.Some? ==> t.value in cs && IsTarget(v, t.value)
    ensures t.None? <==> forall i :: 0 <= i < |cs| ==> !IsTarget(v, cs[i])
    decreases |cs|
  {
    if cs == [] then None
    else if IsTarget(v, cs[0]) then Some(cs[0])
    else FirstTarget(v, cs[1..])
  }

  /** A failing control with an element to focus. */
  predicate IsTarget(v: FormValues, c: Control) {
    Check(v, c).Some? && Focusable(v, c)
  }

  /** Every control is one of the six. */
  lemma InAllControls(c: Control)
    ensures c in AllControls
  {
  }

  /** No two controls share a rank. */
  lemma RankInjective(c: Control, d: Control)
    ensures Rank(c) == Rank(d) <==> c == d
  {
  }

  /** `Order` lists every control once, at the position given by `Rank`. */
  lemma OrderRanks()
    ensures |Order| == 6
    ensures forall i :: 0 <= i < |Order| ==> Rank(Order[i]) == i
    ensures forall c :: Order[Rank(c)] == c
  {
  }

  /** In a list without repeats, `cs[k]` is the first target iff it is a
      target and nothing before it is. */
  lemma {:induction false} FirstTargetAt(v: FormValues, cs: seq<Control>, k: nat)
    requires k < |cs|
    requires forall i, j :: 0 <= i < j < |cs| ==> cs[i] != cs[j]
    ensures FirstTarget(v, cs) == Some(cs[k]) <==>
      IsTarget(v, cs[k]) && forall j :: 0 <= j < k ==> !IsTarget(v, cs[j])
    decreases k
  {
    if k > 0 && !IsTarget(v, cs[0]) {
      FirstTargetAt(v, cs[1..], k - 1);
      assert forall j :: 0 < j <= k ==> cs[j] == cs[1..][j - 1];
    }
  }

  /** The pass reports exactly the controls whose check fails, each with the
      message its check gives. */
  lemma ValidateChecks(v: FormValues, c: Control)
    ensures c in Validate(v).errors <==> Check(v, c).Some?
    ensures c in Validate(v).errors ==>
      Validate(v).errors[c] == Check(v, c).value && Check(v, c).value in MessagesOf(c)
  {
    InAllControls(c);
    if Check(v, c).Some? {
      CheckMessage(v, c);
      ExpectedBelongs(v, c);
    }
  }

  /** The focus target of the pass, control by control in the handler's
      order. */
  lemma ValidateFocusInOrder(v: FormValues)
    ensures Validate(v).focus ==
      if IsTarget(v, FirstName) then Some(FirstName)
      else if IsTarget(v, LastName) then Some(LastName)
      else if IsTarget(v, Email) then Some(Email)
      else if IsTarget(v, Message) then Some(Message)
      else if IsTarget(v, QueryType) then Some(QueryType)
      else if IsTarget(v, Consent) then Some(Consent)
      else None
  {
  }

  /** `R` is what the checks of `v` decide, stated control by control. */
  ghost predicate Decides(v: FormValues, R: Validation) {
    && ReportsCheck(v, R, FirstName)
    && ReportsCheck(v, R, LastName)
    && ReportsCheck(v, R, Email)
    && ReportsCheck(v, R, Message)
    && ReportsCheck(v, R, QueryType)
    && ReportsCheck(v, R, Consent)
    && R.focus ==
      if IsTarget(v, FirstName) then Some(FirstName)
      else if IsTarget(v, LastName) then Some(LastName)
      else if IsTarget(v, Email) then Some(Email)
      else if IsTarget(v, Message) then Some(Message)
      else if IsTarget(v, QueryType) then Some(QueryType)
      else if IsTarget(v, Consent) then Some(Consent)
      else None
  }

  /** `R` reports `c` exactly when its check fails, with the check's
      message. */
  ghost predicate ReportsCheck(v: FormValues, R: Validation, c: Control) {
    && (c in R.errors <==> Check(v, c).Some?)
    && (c in R.errors ==> R.errors[c] == Check(v, c).value)
  }

  /** The pass decides what the checks decide. */
  lemma ValidateDecides(v: FormValues)
    ensures Decides(v, Validate(v))
  {
    ValidateChecks(v, FirstName);
    ValidateChecks(v, LastName);
    ValidateChecks(v, Email);
    ValidateChecks(v, Message);
    ValidateChecks(v, QueryType);
    ValidateChecks(v, Consent);
    ValidateFocusInOrder(v);
  }

  /** What the checks decide reports nothing iff every check passes. */
  lemma DecidesNothing(v: FormValues, R: Validation)
    requires Decides(v, R)
    ensures R.errors == map[] <==>
      && Check(v, FirstName).None? && Check(v, LastName).None? && Check(v, Email).None?
      && Check(v, Message).None? && Check(v, QueryType).None? && Check(v, Consent).None?
  {
    if R.errors != map[] {
      var c :| c in R.errors;
      InAllControls(c);
    }
  }

  /** When control `c` fails, stated without the handler's code: a blank text
      field, an email that is not blank and not of the accepted shape, no
      radio button checked, or the consent box unchecked. */
  predicate Fails(v: FormValues, c: Control) {
    match c
    case FirstName => IsBlank(v.firstName)
    case LastName => IsBlank(v.lastName)
    case Email => IsBlank(v.email) || !EmailShape(v.email)
    case Message => IsBlank(v.message)
    case QueryType => !SomeRadioChecked(v.radios)
    case Consent => !v.consent
  }

  /** The handler's test for one control agrees with `Fails`. */
  lemma CheckIffFails(v: FormValues, c: Control)
    ensures Check(v, c).Some? <==> Fails(v, c)
  {
    if c == Email {
      IsValidEmailIffShape(v.email);
    }
  }

  /** The message that belongs to the failure of `c`: "required" for a
      blank text field, the format message only for a non-blank email. */
  function Expected(v: FormValues, c: Control): Msg {
    match c
    case Email => if IsBlank(v.email) then Required else BadEmail
    case QueryType => NoQueryType
    case Consent => NoConsent
    case _ => Required
  }

  /** The message of a failure is one that its control can show. */
  lemma ExpectedBelongs(v: FormValues, c: Control)
    ensures Expected(v, c) in MessagesOf(c)
  {
  }

  /** A failing control gets the message that belongs to its failure. */
  lemma CheckMessage(v: FormValues, c: Control)
    requires Check(v, c).Some?
    ensures Check(v, c).value == Expected(v, c)
  {
  }

  /** The pass reports a control iff it fails. */
  lemma ValidateErrors(v: FormValues, c: Control)
    ensures c in Validate(v).errors <==> Fails(v, c)
  {
    ValidateChecks(v, c);
    CheckIffFails(v, c);
  }

  /** Each reported control carries one message, the one that belongs to its
      failure: "required" for a blank field, the format message only for a
      non-blank email. */
  lemma ValidateMessage(v: FormValues, c: Control)
    requires Fails(v, c)
    ensures c in Validate(v).errors && Validate(v).errors[c] == Expected(v, c)
  {
    ValidateErrors(v, c);
    ValidateChecks(v, c);
    CheckMessage(v, c);
  }

  /** Every control the pass reports shows one of its own messages. */
  lemma ValidateMessagesBelong(v: FormValues)
    ensures forall c :: c in Validate(v).errors ==> Validate(v).errors[c] in MessagesOf(c)
  {
    forall c | c in Validate(v).errors
      ensures Validate(v).errors[c] in MessagesOf(c)
    {
      ValidateErrors(v, c);
      ValidateMessage(v, c);
      ExpectedBelongs(v, c);
    }
  }

  /** The focus target is the first failing control, in the handler's order,
      that has an element to focus; a later failure never replaces it. */
  lemma ValidateFocus(v: FormValues, c: Control)
    ensures Validate(v).focus == Some(c) <==>
      && Fails(v, c) && Focusable(v, c)
      && forall c' :: Rank(c') < Rank(c) && Focusable(v, c') ==> !Fails(v, c')
  {
    OrderRanks();
    var k := Rank(c);
    FirstTargetAt(v, Order, k);
    forall c' ensures IsTarget(v, c') <==> Focusable(v, c') && Fails(v, c') {
      CheckIffFails(v, c');
    }
    if forall j :: 0 <= j < k ==> !IsTarget(v, Order[j]) {
      forall c' | Rank(c') < k ensures !IsTarget(v, c') {
        assert Order[Rank(c')] == c';
      }
    }
  }

  /** No focus target is recorded iff no focusable control fails. */
  lemma ValidateNoFocus(v: FormValues)
    ensures Validate(v).focus == None <==> forall c :: Focusable(v, c) ==> !Fails(v, c)
  {
    forall c ensures IsTarget(v, c) <==> Focusable(v, c) && Fails(v, c) {
      CheckIffFails(v, c);
    }
  }

  /** A submit succeeds iff every field is non-blank, the email has the
      accepted shape, some radio button is checked and consent is given. */
  lemma ValidateSucceedsIff(v: FormValues)
    ensures Validate(v).errors == map[] <==>
      && !IsBlank(v.firstName) && !IsBlank(v.lastName)
      && !IsBlank(v.email) && EmailShape(v.email)
      && !IsBlank(v.message)
      && SomeRadioChecked(v.radios) && v.consent
  {
    var e := Validate(v).errors;
    ValidateErrors(v, FirstName);
    ValidateErrors(v, LastName);
    ValidateErrors(v, Email);
    ValidateErrors(v, Message);
    ValidateErrors(v, QueryType);
    ValidateErrors(v, Consent);
    if e != map[] {
      var c :| c in e;
      ValidateErrors(v, c);
    }
  }

  /** With at least one radio button, a failed pass always has a focus target
      and a successful one never has. */
  lemma FocusIffFailure(v: FormValues)
    requires |v.radios| > 0
    ensures Validate(v).focus == None <==> Validate(v).errors == map[]
  {
    ValidateNoFocus(v);
    forall c ensures c in Validate(v).errors <==> Fails(v, c) {
      ValidateErrors(v, c);
    }
    assert Validate(v).errors == map[] <==> forall c :: c !in Validate(v).errors;
  }

  /** A blank or whitespace-only text field gets "required". */
  lemma BlankFieldIsRequired(v: FormValues, c: Control)
    requires c in TextFields && IsBlank(TextOf(v, c))
    ensures c in Validate(v).errors && Validate(v).errors[c] == Required
  {
    assert Check(v, c) == Some(Required) by {
      match c
      case FirstName =>
      case LastName =>
      case Email =>
      case Message =>
    }
    ValidateChecks(v, c);
  }

  /** A blank email gets only "required", never the format message. */
  lemma BlankEmailIsRequired(v: FormValues)
    requires IsBlank(v.email)
    ensures Email in Validate(v).errors && Validate(v).errors[Email] == Required
  {
    BlankFieldIsRequired(v, Email);
  }

  /** The format is checked on the untrimmed value: a non-blank email with
      leading or trailing whitespace gets the format message, not
      "required". */
  lemma PaddedEmailIsMalformed(v: FormValues)
    requires !IsBlank(v.email)
    requires IsWs(v.email[0]) || IsWs(v.email[|v.email| - 1])
    ensures Email in Validate(v).errors && Validate(v).errors[Email] == BadEmail
  {
    if IsWs(v.email[0]) {
      WhitespaceNeverValid(v.email, 0);
    } else {
      WhitespaceNeverValid(v.email, |v.email| - 1);
    }
    IsValidEmailIffShape(v.email);
    ValidateErrors(v, Email);
    ValidateMessage(v, Email);
  }

  /** Clearing the message of a form that passes makes the message field
      the only failing control. */
  lemma ClearedMessageFailsAlone(v: FormValues, c: Control)
    requires Validate(v).errors == map[]
    ensures Fails(v.(message := ""), c) <==> c == Message
  {
    ValidateErrors(v, c);
  }

  /** After a success clears the message, submitting again fails on the
      message field alone, which then takes the focus. */
  lemma ResubmitAfterSuccess(v: FormValues)
    requires Validate(v).errors == map[]
    ensures Validate(v.(message := "")) == Validation(map[Message := Required], Some(Message))
  {
    var w := v.(message := "");
    ResubmitReportsMessageOnly(v);
    BlankFieldIsRequired(w, Message);
    ResubmitFocus(v);
    OnlyKey(Validate(w).errors, Message);
  }

  /** A map whose only key is `k` is the one-entry map at `k`. */
  lemma OnlyKey(m: map<Control, Msg>, k: Control)
    requires m.Keys == {k}
    ensures m == map[k := m[k]]
  {
  }

  /** After a success clears the message, submitting again reports the
      message field and nothing else. */
  lemma ResubmitReportsMessageOnly(v: FormValues)
    requires Validate(v).errors == map[]
    ensures Validate(v.(message := "")).errors.Keys == {Message}
  {
    var w := v.(message := "");
    forall c ensures c in Validate(w).errors <==> c == Message {
      ClearedMessageFailsAlone(v, c);
      ValidateErrors(w, c);
    }
  }

  /** After a success clears the message, submitting again focuses the
      message field. */
  lemma ResubmitFocus(v: FormValues)
    requires Validate(v).errors == map[]
    ensures Validate(v.(message := "")).focus == Some(Message)
  {
    var w := v.(message := "");
    ValidateFocus(w, Message);
    forall c | Rank(c) < Rank(Message) ensures !Fails(w, c) {
      ClearedMessageFailsAlone(v, c);
    }
    ClearedMessageFailsAlone(v, Message);
  }

  /** With an empty radio group the handler records `undefined` for the
      group's failure, so a consent failure after it takes the focus. */
  lemma EmptyGroupPassesFocusOn(v: FormValues)
    requires v.radios == [] && !v.consent
    ensures QueryType in Validate(v).errors
    ensures Validate(v).focus == Some(Consent) <==> forall c :: Rank(c) < 4 ==> !Fails(v, c)
  {
    ValidateErrors(v, QueryType);
    ValidateFocus(v, Consent);
    ValidateErrors(v, Consent);
    if forall c :: Rank(c) < 4 ==> !Fails(v, c) {
      forall c' | Rank(c') < 5 && Focusable(v, c') ensures !Fails(v, c') {
        assert Rank(c') < 4;
      }
    }
  }
}
