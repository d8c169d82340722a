/** The base class of POST-handling forms: verify the nonce, validate the
    request input, record a failure in the session, and pick the redirect.

    WordPress's nonce check, the validator, and the optional `beforeSuccess`
    hook are decisions made outside this code; they enter as values (the
    nonce verdict, the hook's verdict) or as a function (the validator). */
module FormBase {

  /** The PHP values found in request input and in the session. */
  datatype PhpValue =
    | Null
    | Bool(b: bool)
    | Int(i: int)
    | Float(f: real)
    | Str(s: string)
    | Arr(entries: map<string, PhpValue>)
    | Object(className: string)

  /** The values PHP converts to `false`: null, `false`, `0`, `0.0`, `""`,
      `"0"` and the empty array. */
  const FalsyValues: set<PhpValue> :=
    {Null, Bool(false), Int(0), Float(0.0), Str(""), Str("0"), Arr(map[])}

  /** PHP's conversion to boolean, as used by `?:`. */
  function Truthy(v: PhpValue): (truthy: bool)
    ensures truthy <==> v !in FalsyValues
  {
    match v
    case Null => false
    case Bool(b) => b
    case Int(i) => i != 0
    case Float(f) => f != 0.0
    case Str(s) => s != "" && s != "0"
    case Arr(entries) => entries != map[]
    case Object(_) => true
  }

  /** A validator's error bag: Laravel's `MessageBag` (field ↦ messages), or
      the empty `ViewErrorBag` that `errors()` creates when none is stored. */
  datatype ErrorBag =
    | MessageBag(messages: map<string, seq<string>>)
    | EmptyViewErrorBag

  /** What a session slot can hold. */
  datatype SessionEntry = Bag(bag: ErrorBag) | Value(value: PhpValue)

  /** `$_SESSION`. */
  type SessionData = map<string, SessionEntry>

  const ErrorsKey: string := "errors"
  const OldKey: string := "old"

  /** PHP `isset($_SESSION[$key])`: present and not null. */
  function IsSet(session: SessionData, key: string): (isSet: bool)
    ensures isSet ==> key in session
    ensures key in session ==> (isSet <==> !(session[key].Value? && session[key].value.Null?))
  {
    key in session && session[key] != Value(Null)
  }

  /** The outcome of a submission: `success()` redirects to the site URL,
      `fail()` back to the referring page. */
  datatype Outcome = Success | Fail

  /** What `validation->make` receives: data, rules, messages, attributes. */
  datatype ValidationRequest = ValidationRequest(
    data: map<string, PhpValue>,
    rules: map<string, string>,
    messages: map<string, string>,
    attributes: map<string, string>)

  /** What the validator decides: whether it fails and its error bag. */
  datatype Verdict = Verdict(fails: bool, errors: ErrorBag)

  /** Whether the concrete form defines `beforeSuccess`, and what it answers. */
  datatype Hook = NoHook | BeforeSuccess(accepts: bool)

  /** The overridable parts of a form class. */
  datatype Form = Form(
    rules: map<string, string>,
    messages: map<string, string>,
    attributes: map<string, string>,
    hook: Hook)

  /** The base class: no rules, messages or attributes, no hook. */
  function BaseForm(): (f: Form)
    ensures f.rules == map[] && f.messages == map[] && f.attributes == map[]
    ensures f.hook == NoHook
  {
    Form(map[], map[], map[], NoHook)
  }

  datatype Submission = Submission(outcome: Outcome, session: SessionData)

  /** The validator's verdict on the request input under the form's rules. */
  function VerdictFor(form: Form, input: map<string, PhpValue>,
                      validator: ValidationRequest -> Verdict): Verdict
  {
    validator(ValidationRequest(input, form.rules, form.messages, form.attributes))
  }

  /** The decision `handle()` makes, as a function of its inputs and the
      session before the call. */
  function Submit(nonceValid: bool, form: Form, input: map<string, PhpValue>,
                  validator: ValidationRequest -> Verdict, session: SessionData): (r: Submission)
    ensures r.outcome == Success <==>
              nonceValid && !VerdictFor(form, input, validator).fails && form.hook != BeforeSuccess(false)
    ensures nonceValid && VerdictFor(form, input, validator).fails ==>
              && r.session.Keys == session.Keys + {ErrorsKey, OldKey}
              && r.session[ErrorsKey] == Bag(VerdictFor(form, input, validator).errors)
              && r.session[OldKey] == Value(Arr(input))
              && forall k :: k in session && k != ErrorsKey && k != OldKey ==> r.session[k] == session[k]
    ensures !(nonceValid && VerdictFor(form, input, validator).fails) ==> r.session == session
  {
    if !nonceValid then Submission(Fail, session)
    else
      var verdict := VerdictFor(form, input, validator);
      if verdict.fails then
        Submission(Fail, session[ErrorsKey := Bag(verdict.errors)][OldKey := Value(Arr(input))])
      else
        match form.hook
        case BeforeSuccess(accepts) => Submission(if accepts then Success else Fail, session)
        case NoHook => Submission(Success, session)
  }

  /** What `errors()` returns and the session it leaves behind. */
  datatype Popped = Popped(value: SessionEntry, session: SessionData)

  /** `errors()`: take the stored error bag out of the session. */
  function PopErrors(session: SessionData): (r: Popped)
    ensures !IsSet(r.session, ErrorsKey)
    ensures forall k :: k != ErrorsKey ==> (k in r.session <==> k in session)
    ensures forall k :: k in r.session && k != ErrorsKey ==> r.session[k] == session[k]
    ensures IsSet(session, ErrorsKey) ==> r.value == session[ErrorsKey] && ErrorsKey !in r.session
    ensures !IsSet(session, ErrorsKey) ==> r.value == Bag(EmptyViewErrorBag) && r.session == session
  {
    if IsSet(session, ErrorsKey) then Popped(session[ErrorsKey], session - {ErrorsKey})
    else Popped(Bag(EmptyViewErrorBag), session)
  }

  /** `$_SESSION['old'][$key]`: the stored input field, or null. */
  function StoredOld(session: SessionData, key: string): (stored: PhpValue)
    ensures (OldKey in session && session[OldKey].Value? && session[OldKey].value.Arr?
             && key in session[OldKey].value.entries) ==> stored == session[OldKey].value.entries[key]
    ensures (OldKey !in session || session[OldKey] == Value(Null)) ==> stored == Null
    ensures (OldKey in session && session[OldKey].Value? && session[OldKey].value.Arr?
             && key !in session[OldKey].value.entries) ==> stored == Null
  {
    if OldKey in session && session[OldKey].Value? && session[OldKey].value.Arr?
       && key in session[OldKey].value.entries
    then session[OldKey].value.entries[key]
    else Null
  }

  /** `old($key, $default)`: the stored input field when it is truthy,
      otherwise the default. */
  function Old(session: SessionData, key: string, default: PhpValue): (r: PhpValue)
    ensures Truthy(StoredOld(session, key)) ==> r == StoredOld(session, key)
    ensures !Truthy(StoredOld(session, key)) ==> r == default
    ensures Truthy(r) || r == default
  {
    var stored := StoredOld(session, key);
    if Truthy(stored) then stored else default
  }

  /** The default of `old($key, $default = '')`. */
  const OldDefault: PhpValue := Str("")

  /** `old($key)` with its default argument: the stored field when truthy,
      otherwise the empty string. */
  function OldOrEmpty(session: SessionData, key: string): (r: PhpValue)
    ensures Truthy(StoredOld(session, key)) ==> r == StoredOld(session, key)
    ensures !Truthy(StoredOld(session, key)) ==> r == Str("")
  {
    Old(session, key, OldDefault)
  }

  /** `$_SESSION`, the state `handle()` and `errors()` change in place. */
  class Session {
    var data: SessionData

    constructor(initial: SessionData)
      ensures data == initial
    {
      data := initial;
    }

    /** `errors()`: return the stored bag and unset it. */
    method Errors() returns (e: SessionEntry)
      modifies this
      ensures Popped(e, data) == PopErrors(old(data))
    {
      if IsSet(data, ErrorsKey) {
        e := data[ErrorsKey];
        data := data - {ErrorsKey};
      } else {
        e := Bag(EmptyViewErrorBag);
      }
    }
  }

  /** `handle()`: the submission procedure, writing to `session` in place. */
  method Handle(session: Session, nonceValid: bool, form: Form, input: map<string, PhpValue>,
                validator: ValidationRequest -> Verdict) returns (outcome: Outcome)
    modifies session
    ensures Submission(outcome, session.data) == Submit(nonceValid, form, input, validator, old(session.data))
  {
    if !nonceValid {
      return Fail;
    }
    var verdict := VerdictFor(form, input, validator);
    if verdict.fails {
      session.data := session.data[ErrorsKey := Bag(verdict.errors)];
      session.data := session.data[OldKey := Value(Arr(input))];
      return Fail;
    }
    match form.hook {
      case BeforeSuccess(accepts) =>
        outcome := if accepts then Success else Fail;
      case NoHook =>
        outcome := Success;
    }
  }

  /** With an invalid nonce the submission fails, whatever the validator
      would say, and the session is not touched. */
  lemma InvalidNonceFails(form: Form, input: map<string, PhpValue>,
                          v1: ValidationRequest -> Verdict, v2: ValidationRequest -> Verdict,
                          session: SessionData)
    ensures Submit(false, form, input, v1, session) == Submission(Fail, session)
    ensures Submit(false, form, input, v1, session) == Submit(false, form, input, v2, session)
  {
  }

  /** A failed validation stores its errors and the request input, then fails. */
  lemma ValidationFailureIsRecorded(form: Form, input: map<string, PhpValue>,
                                    validator: ValidationRequest -> Verdict, session: SessionData)
    requires VerdictFor(form, input, validator).fails
    ensures var r := Submit(true, form, input, validator, session);
            && r.outcome == Fail
            && r.session[ErrorsKey] == Bag(VerdictFor(form, input, validator).errors)
            && r.session[OldKey] == Value(Arr(input))
            && forall k :: k in session && k != ErrorsKey && k != OldKey ==> k in r.session && r.session[k] == session[k]
  {
  }

  /** Success exactly when the nonce is valid, validation passes, and either
      there is no hook or the hook accepts. */
  lemma SuccessIff(nonceValid: bool, form: Form, input: map<string, PhpValue>,
                   validator: ValidationRequest -> Verdict, session: SessionData)
    ensures Submit(nonceValid, form, input, validator, session).outcome == Success
        <==> && nonceValid
             && !VerdictFor(form, input, validator).fails
             && (form.hook == NoHook || form.hook == BeforeSuccess(true))
  {
  }

  /** The session changes only on the validation-failure path. */
  lemma SessionWrittenOnlyOnValidationFailure(nonceValid: bool, form: Form, input: map<string, PhpValue>,
                                              validator: ValidationRequest -> Verdict, session: SessionData)
    requires !nonceValid || !VerdictFor(form, input, validator).fails
    ensures Submit(nonceValid, form, input, validator, session).session == session
  {
  }

  /** After a failed validation, `old($key, $default)` gives back the submitted
      field when truthy and the default otherwise. */
  lemma OldAfterValidationFailure(form: Form, input: map<string, PhpValue>,
                                  validator: ValidationRequest -> Verdict, session: SessionData,
                                  key: string, default: PhpValue)
    requires VerdictFor(form, input, validator).fails
    ensures var after := Submit(true, form, input, validator, session).session;
            Old(after, key, default) == if key in input && Truthy(input[key]) then input[key] else default
  {
    var after := Submit(true, form, input, validator, session).session;
    assert after[OldKey] == Value(Arr(input));
  }

  /** After a failed validation, `errors()` hands out exactly the validator's
      errors, once: the next call sees an empty bag. */
  lemma ErrorsAfterValidationFailure(form: Form, input: map<string, PhpValue>,
                                     validator: ValidationRequest -> Verdict, session: SessionData)
    requires VerdictFor(form, input, validator).fails
    ensures var after := Submit(true, form, input, validator, session).session;
            && PopErrors(after).value == Bag(VerdictFor(form, input, validator).errors)
            && PopErrors(PopErrors(after).session).value == Bag(EmptyViewErrorBag)
  {
    var after := Submit(true, form, input, validator, session).session;
    assert IsSet(after, ErrorsKey);
  }

  /** `errors()` is a pop: a second call returns an empty bag and changes nothing. */
  lemma ErrorsTwice(session: SessionData)
    ensures var first := PopErrors(session);
            var second := PopErrors(first.session);
            second.value == Bag(EmptyViewErrorBag) && second.session == first.session
  {
  }

  /** `old` falls back to the default for the values PHP treats as false. */
  lemma OldFalsyFallsBack(session: SessionData, key: string, default: PhpValue)
    requires OldKey in session && session[OldKey] == Value(Arr(map[key := Str("0")]))
    ensures Old(session, key, default) == default
    ensures Old(session[OldKey := Value(Arr(map[key := Str("")]))], key, default) == default
    ensures Old(session - {OldKey}, key, default) == default
  {
  }
}
