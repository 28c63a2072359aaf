/**
 * The contact form's server action `submitContactForm`: the four submitted
 * fields are checked against the schema (name at least 2 characters, a valid
 * email address, any subject, a message of 10 to 1000 characters) and the
 * action answers with a fresh form state, either an error state that lists
 * the messages of every failing field or a success state with a thank-you
 * message. The page shows the first message of each failing field under that
 * field, and a banner for the state's own message.
 *
 * Lengths are JavaScript string lengths, i.e. UTF-16 code units. The email
 * check is the schema library's address pattern, which is not modelled: the
 * action takes it as the parameter `isEmail`.
 */
module ContactForm {
  import opened Wrappers

  datatype Field = Name | Email | Subject | Message

  /** The four inputs the form submits. */
  datatype FormData = FormData(name: string, email: string, subject: string, message: string)

  /** The state's `type`: `"success"`, `"error"` or `null`. */
  datatype StateType = Success | Error | NoType

  /** `ContactFormState`: a message, a type, and the optional per-field error lists. */
  datatype ContactFormState = ContactFormState(message: string, stateType: StateType, errors: Option<map<Field, seq<string>>>)

  const NameTooShort: string := "Name must be at least 2 characters."
  const InvalidEmail: string := "Invalid email address."
  const MessageTooShort: string := "Message must be at least 10 characters."
  const MessageTooLong: string := "Message must be less than 1000 characters."
  const CorrectErrors: string := "Please correct the errors below."
  const ThankYou: string := "Thank you for your message! I'll get back to you soon."

  /** The state the page starts from: no message, no type, no errors. */
  const InitialFormState: ContactFormState := ContactFormState("", NoType, None)

  /** JavaScript's `length`: characters outside the Basic Multilingual Plane take two UTF-16 code units. */
  function Utf16Length(s: string): (n: nat)
    ensures |s| <= n <= 2 * |s|
    ensures (forall i :: 0 <= i < |s| ==> s[i] as int < 0x1_0000) ==> n == |s|
    ensures |s| == 1 ==> n == (if s[0] as int < 0x1_0000 then 1 else 2)
  {
    if s == [] then 0 else (if s[0] as int < 0x1_0000 then 1 else 2) + Utf16Length(s[1..])
  }

  /** The length of a concatenation is the sum of the lengths, so every character counts on its own. */
  lemma {:induction false} Utf16LengthAppend(a: string, b: string)
    ensures Utf16Length(a + b) == Utf16Length(a) + Utf16Length(b)
  {
    if a == [] {
      assert a + b == b;
    } else {
      assert (a + b)[0] == a[0];
      assert (a + b)[1..] == a[1..] + b;
      Utf16LengthAppend(a[1..], b);
    }
  }

  /** The schema's rule for each field, stated on its own. */
  predicate Accepts(form: FormData, isEmail: string -> bool, f: Field) {
    match f
    case Name => Utf16Length(form.name) >= 2
    case Email => isEmail(form.email)
    case Subject => true
    case Message => 10 <= Utf16Length(form.message) <= 1000
  }

  /**
   * The issues the schema reports for one field: every failing check of that
   * field, in order. A field fails its rule exactly when it has an issue, and
   * then it has exactly one (the message checks at 10 and 1000 cannot both fail).
   */
  function Issues(form: FormData, isEmail: string -> bool, f: Field): (issues: seq<string>)
    ensures issues == [] <==> Accepts(form, isEmail, f)
    ensures !Accepts(form, isEmail, f) ==> |issues| == 1
  {
    match f
    case Name => if Utf16Length(form.name) < 2 then [NameTooShort] else []
    case Email => if !isEmail(form.email) then [InvalidEmail] else []
    case Subject => []
    case Message =>
      var n := Utf16Length(form.message);
      (if n < 10 then [MessageTooShort] else []) + (if n > 1000 then [MessageTooLong] else [])
  }

  /** `error.flatten().fieldErrors`: an entry for each field with at least one issue. */
  function FieldErrors(form: FormData, isEmail: string -> bool): (m: map<Field, seq<string>>)
    ensures forall f :: f in m <==> Issues(form, isEmail, f) != []
    ensures forall f :: f in m ==> m[f] == Issues(form, isEmail, f)
  {
    var withName := if Issues(form, isEmail, Name) != [] then map[Name := Issues(form, isEmail, Name)] else map[];
    var withEmail := if Issues(form, isEmail, Email) != [] then withName[Email := Issues(form, isEmail, Email)] else withName;
    var withSubject := if Issues(form, isEmail, Subject) != [] then withEmail[Subject := Issues(form, isEmail, Subject)] else withEmail;
    if Issues(form, isEmail, Message) != [] then withSubject[Message := Issues(form, isEmail, Message)] else withSubject
  }

  /** The schema accepts the submission: every field passes its rule. */
  predicate IsValid(form: FormData, isEmail: string -> bool) {
    forall f: Field :: Accepts(form, isEmail, f)
  }

  /**
   * `submitContactForm(prevState, formData)`: an error state naming exactly the
   * failing fields, or the success state. The previous state is not consulted.
   */
  function SubmitContactForm(prevState: ContactFormState, form: FormData, isEmail: string -> bool): (r: ContactFormState)
    ensures r.stateType == Success <==> IsValid(form, isEmail)
    ensures r.stateType == Error <==> !IsValid(form, isEmail)
    ensures r.stateType == Success ==> r.message == ThankYou && r.errors == None
    ensures r.stateType == Error ==>
      r.message == CorrectErrors && r.errors.Some? &&
      (forall f :: f in r.errors.value <==> !Accepts(form, isEmail, f))
  {
    var fieldErrors := FieldErrors(form, isEmail);
    if fieldErrors != map[] then
      ContactFormState(CorrectErrors, Error, Some(fieldErrors))
    else
      assert forall f: Field :: f !in fieldErrors;
      ContactFormState(ThankYou, Success, None)
  }

  /** `state.errors?.<field>`: the messages the state holds for a field, empty when none. */
  function ErrorsFor(state: ContactFormState, f: Field): seq<string> {
    if state.errors.Some? && f in state.errors.value then state.errors.value[f] else []
  }

  /** Every failing field carries exactly one message, and a passing field none. */
  lemma OneMessagePerFailingField(prevState: ContactFormState, form: FormData, isEmail: string -> bool, f: Field)
    ensures var r := SubmitContactForm(prevState, form, isEmail);
      (|ErrorsFor(r, f)| == 1 <==> !Accepts(form, isEmail, f)) &&
      (ErrorsFor(r, f) == [] <==> Accepts(form, isEmail, f))
  {
  }

  /** A name is rejected exactly when it is shorter than 2, with the schema's message. */
  lemma NameRule(prevState: ContactFormState, form: FormData, isEmail: string -> bool)
    ensures var r := SubmitContactForm(prevState, form, isEmail);
      ErrorsFor(r, Name) == if Utf16Length(form.name) < 2 then [NameTooShort] else []
  {
  }

  /** An email is rejected exactly when it is not an address, with the schema's message. */
  lemma EmailRule(prevState: ContactFormState, form: FormData, isEmail: string -> bool)
    ensures var r := SubmitContactForm(prevState, form, isEmail);
      ErrorsFor(r, Email) == if isEmail(form.email) then [] else [InvalidEmail]
  {
  }

  /** No subject, the empty one included, ever produces an error. */
  lemma SubjectNeverRejected(prevState: ContactFormState, form: FormData, isEmail: string -> bool)
    ensures ErrorsFor(SubmitContactForm(prevState, form, isEmail), Subject) == []
  {
  }

  /**
   * A message is rejected when shorter than 10 or longer than 1000 code units
   * (1000 itself is accepted, whatever the message text says), with the one
   * message of the check it fails.
   */
  lemma MessageRule(prevState: ContactFormState, form: FormData, isEmail: string -> bool)
    ensures var r := SubmitContactForm(prevState, form, isEmail); var n := Utf16Length(form.message);
      ErrorsFor(r, Message) ==
        if n < 10 then [MessageTooShort] else if n > 1000 then [MessageTooLong] else []
  {
  }

  /** The result depends on the submitted fields only, never on the previous state. */
  lemma IgnoresPreviousState(p1: ContactFormState, p2: ContactFormState, form: FormData, isEmail: string -> bool)
    ensures SubmitContactForm(p1, form, isEmail) == SubmitContactForm(p2, form, isEmail)
  {
  }

  /** The page's red banner: an error state with a message but no field errors. */
  predicate ShowsErrorBanner(state: ContactFormState) {
    state.stateType == Error && state.message != "" && state.errors.None?
  }

  /** The page's green banner: a success state, showing its message. */
  predicate ShowsSuccessBanner(state: ContactFormState) {
    state.stateType == Success
  }

  /**
   * The paragraph the page shows under a field: it appears whenever the state
   * holds a list for the field (an array, even an empty one, is truthy) and
   * reads the first message of the list, or nothing when the list is empty.
   */
  function ShownFieldError(state: ContactFormState, f: Field): (r: Option<string>)
    ensures r.Some? <==> state.errors.Some? && f in state.errors.value
    ensures r.Some? && ErrorsFor(state, f) != [] ==> r.value == ErrorsFor(state, f)[0]
    ensures r.Some? && ErrorsFor(state, f) == [] ==> r.value == ""
  {
    if state.errors.Some? && f in state.errors.value then
      var messages := state.errors.value[f];
      Some(if messages != [] then messages[0] else "")
    else
      None
  }

  /** After a submission a field shows a paragraph exactly when it fails its rule, and the paragraph has that rule's message. */
  lemma ShownAfterSubmit(prevState: ContactFormState, form: FormData, isEmail: string -> bool, f: Field)
    ensures var shown := ShownFieldError(SubmitContactForm(prevState, form, isEmail), f);
      (shown.Some? <==> !Accepts(form, isEmail, f)) &&
      (shown.Some? ==> [shown.value] == Issues(form, isEmail, f))
  {
    OneMessagePerFailingField(prevState, form, isEmail, f);
  }

  /**
   * Validation failures never reach the red banner (every error state carries
   * field errors); they show under the failing fields instead. The green
   * banner shows exactly for valid submissions.
   */
  lemma BannersAfterSubmit(prevState: ContactFormState, form: FormData, isEmail: string -> bool)
    ensures !ShowsErrorBanner(SubmitContactForm(prevState, form, isEmail))
    ensures ShowsSuccessBanner(SubmitContactForm(prevState, form, isEmail)) <==> IsValid(form, isEmail)
    ensures !IsValid(form, isEmail) ==>
      exists f :: ShownFieldError(SubmitContactForm(prevState, form, isEmail), f).Some?
  {
    var r := SubmitContactForm(prevState, form, isEmail);
    if !IsValid(form, isEmail) {
      var f :| !Accepts(form, isEmail, f);
      OneMessagePerFailingField(prevState, form, isEmail, f);
      assert ShownFieldError(r, f).Some?;
    }
  }

  /** The page starts with neither banner and no field errors. */
  lemma InitialStateShowsNothing(f: Field)
    ensures !ShowsErrorBanner(InitialFormState) && !ShowsSuccessBanner(InitialFormState)
    ensures ShownFieldError(InitialFormState, f) == None
  {
  }

  /** A one-character name outside the Basic Multilingual Plane (an emoji, say) has length 2 and passes. */
  lemma AstralNameHasLengthTwo(c: char)
    requires c as int >= 0x1_0000
    ensures Utf16Length([c]) == 2
  {
  }
}
