/**
 * The contact form controller: five fields, each with a value, the `error`
 * and `success` classes of its control and the text of its error span, plus
 * the two display flags of the form and of the success panel.
 *
 * The classes are two independent flags, as in the page: `showFieldError`
 * adds `error` without removing `success`, so a field can carry both.
 */
module ContactForm {
  import opened Text
  import opened FieldRules

  /** One form control and the error span beside it. */
  datatype Field = Field(value: string, error: bool, success: bool, message: string)

  /** The order `validateForm` visits the fields in; field `k` of the form is `Order[k]`. */
  const Order: seq<FieldId> := [Name, Email, Phone, Subject, Message]

  function IndexOf(id: FieldId): (k: nat)
    ensures k < |Order| && Order[k] == id
  {
    match id
    case Name => 0
    case Email => 1
    case Phone => 2
    case Subject => 3
    case Message => 4
  }

  /** `clearFormErrors` on one field: a field with `error` loses both
      classes, any other keeps its classes; every error span is emptied. */
  function Cleared(f: Field): (g: Field)
    ensures g.value == f.value && !g.error && g.message == []
    ensures g.success <==> f.success && !f.error
  {
    if f.error then f.(error := false, success := false, message := []) else f.(message := [])
  }

  function ClearedAll(fs: seq<Field>): (gs: seq<Field>)
    ensures |gs| == |fs|
    ensures forall k | 0 <= k < |fs| :: gs[k] == Cleared(fs[k])
  {
    seq(|fs|, k requires 0 <= k < |fs| => Cleared(fs[k]))
  }

  /** `showFieldError`: add `error` and show the message; `success` is left alone. */
  function Flagged(f: Field, msg: string): Field {
    f.(error := true, message := msg)
  }

  /** The submit-time verdict of each field, in form order. */
  function Verdicts(fs: seq<Field>): (vs: seq<Option<string>>)
    requires |fs| == |Order|
    ensures |vs| == |Order|
  {
    [SubmitCheck(Name, fs[0].value), SubmitCheck(Email, fs[1].value), SubmitCheck(Phone, fs[2].value),
     SubmitCheck(Subject, fs[3].value), SubmitCheck(Message, fs[4].value)]
  }

  /** One rule block of `validateForm`: a failing verdict flags the field. */
  function WithVerdict(f: Field, verdict: Option<string>): Field {
    match verdict
    case None => f
    case Some(msg) => Flagged(f, msg)
  }

  /** The fields `fs` after each field has been given its verdict in `vs`. */
  function Judged(fs: seq<Field>, vs: seq<Option<string>>): (gs: seq<Field>)
    requires |fs| == |vs| == |Order|
    ensures |gs| == |Order|
  {
    seq(|Order|, k requires 0 <= k < |Order| => WithVerdict(fs[k], vs[k]))
  }

  /** No verdict in `vs` is a message. */
  predicate AllPass(vs: seq<Option<string>>) {
    forall k | 0 <= k < |vs| :: vs[k].None?
  }

  /** The fields after `validateForm`: all cleared, then every failing field flagged. */
  function AfterValidateForm(fs: seq<Field>): seq<Field>
    requires |fs| == |Order|
  {
    Judged(ClearedAll(fs), Verdicts(fs))
  }

  /** Every field passes its submit-time rules. */
  predicate FormPasses(fs: seq<Field>)
    requires |fs| == |Order|
  {
    AllPass(Verdicts(fs))
  }

  /** Clearing the classes and spans does not change any verdict. */
  lemma VerdictsOfCleared(fs: seq<Field>)
    requires |fs| == |Order|
    ensures Verdicts(ClearedAll(fs)) == Verdicts(fs)
  {
    var gs := ClearedAll(fs);
    assert gs[0].value == fs[0].value && gs[1].value == fs[1].value && gs[2].value == fs[2].value
      && gs[3].value == fs[3].value && gs[4].value == fs[4].value;
  }

  /** Field `k`'s verdict is the one for field `Order[k]`. */
  lemma VerdictOf(fs: seq<Field>, k: nat)
    requires |fs| == |Order| && k < |Order|
    ensures Verdicts(fs)[k] == SubmitCheck(Order[k], fs[k].value)
  {
  }

  /** The field after `validateField` with verdict `r`. */
  function AfterBlur(f: Field, r: Option<string>): Field {
    match r
    case None => f.(error := false, success := true, message := [])
    case Some(msg) => Flagged(f, msg)
  }

  /** The effect of `contactForm.reset()`: every value back to empty. */
  function Emptied(fs: seq<Field>): (gs: seq<Field>)
    ensures |gs| == |fs|
    ensures forall k | 0 <= k < |fs| :: gs[k] == fs[k].(value := [])
  {
    seq(|fs|, k requires 0 <= k < |fs| => fs[k].(value := []))
  }

  /** Clearing twice is clearing once. */
  lemma ClearedIdempotent(fs: seq<Field>)
    ensures ClearedAll(ClearedAll(fs)) == ClearedAll(fs)
  {
  }

  /** After `validateForm` a field carries `error` exactly when it failed a
      rule, and its span shows that field's first failing message, or
      nothing; its value is untouched. */
  lemma ValidateFormMarksFailures(fs: seq<Field>, k: nat)
    requires |fs| == |Order| && k < |Order|
    ensures AfterValidateForm(fs)[k].value == fs[k].value
    ensures AfterValidateForm(fs)[k].error <==> Verdicts(fs)[k].Some?
    ensures AfterValidateForm(fs)[k].message ==
      match Verdicts(fs)[k] case None => [] case Some(msg) => msg
    ensures AfterValidateForm(fs)[k].success <==> fs[k].success && !fs[k].error
  {
  }

  /** `validateForm` passes exactly when no field is left carrying `error`. */
  lemma ValidateFormPassesIffNoError(fs: seq<Field>)
    requires |fs| == |Order|
    ensures FormPasses(fs) <==> forall k | 0 <= k < |Order| :: !AfterValidateForm(fs)[k].error
  {
    forall k | 0 <= k < |Order|
      ensures AfterValidateForm(fs)[k].error <==> Verdicts(fs)[k].Some?
    {
      ValidateFormMarksFailures(fs, k);
    }
  }

  /** A name of `length` one (one non-space character below U+10000) that
      was shown as valid and then fails at submit ends up with both classes:
      the field state is not a single neutral/error/success value. */
  lemma ErrorAndSuccessCoexist(fs: seq<Field>)
    requires |fs| == |Order| && Utf16Length(fs[0].value) == 1 && !IsSpace(fs[0].value[0])
    requires fs[0].success && !fs[0].error
    ensures AfterValidateForm(fs)[0].error && AfterValidateForm(fs)[0].success
    ensures AfterValidateForm(fs)[0].message == NameTooShort
  {
    TrimOfUntrimmable(fs[0].value);
    ValidateFormMarksFailures(fs, 0);
  }

  /** After a passing submit and the reset, every field is empty, has no
      error and no message, but keeps `success` if it had it before the
      submit and no `error`: the reset does not return fields to neutral. */
  lemma ResetAfterValidSubmit(fs: seq<Field>, k: nat)
    requires |fs| == |Order| && k < |Order|
    requires FormPasses(fs)
    ensures ClearedAll(Emptied(AfterValidateForm(fs)))[k] ==
      Field([], false, fs[k].success && !fs[k].error, [])
  {
    ValidateFormMarksFailures(fs, k);
  }

  class Form {
    /** The five controls, `fields[k]` being field `Order[k]`. */
    var fields: array<Field>
    /** `contactForm.style.display` is not `none`. */
    var formShown: bool
    /** `formSuccess.style.display` is `block`. */
    var successShown: bool

    /** Exactly one of the form and the success panel is shown. */
    ghost predicate Valid()
      reads this
    {
      fields.Length == |Order| && (formShown <==> !successShown)
    }

    ghost predicate Editable()
      reads this
    {
      formShown && !successShown
    }

    ghost predicate ShowingSuccess()
      reads this
    {
      !formShown && successShown
    }

    /** A page freshly loaded with the given values: every field neutral,
        the form shown and the success panel hidden. */
    constructor (values: seq<string>)
      requires |values| == |Order|
      ensures Valid() && Editable() && fresh(fields)
      ensures fields[..] == seq(|Order|, k requires 0 <= k < |Order| => Field(values[k], false, false, []))
    {
      fields := new Field[|Order|](k requires 0 <= k < |Order| reads {} => Field(values[k], false, false, []));
      formShown, successShown := true, false;
    }

    /** `showFieldError`. */
    method ShowFieldError(id: FieldId, msg: string)
      requires Valid()
      modifies fields
      ensures fields[..] == old(fields[..])[IndexOf(id) := Flagged(old(fields[IndexOf(id)]), msg)]
    {
      var k := IndexOf(id);
      fields[k] := Flagged(fields[k], msg);
    }

    /** `clearFormErrors`: strip both classes from every field carrying
        `error`, then empty every error span. */
    method ClearFormErrors()
      requires Valid()
      modifies fields
      ensures fields[..] == ClearedAll(old(fields[..]))
    {
      var i := 0;
      while i < fields.Length
        invariant 0 <= i <= fields.Length
        invariant forall k | 0 <= k < i ::
          fields[k] == if old(fields[k]).error then old(fields[k]).(error := false, success := false) else old(fields[k])
        invariant forall k | i <= k < fields.Length :: fields[k] == old(fields[k])
      {
        if fields[i].error {
          fields[i] := fields[i].(error := false, success := false);
        }
        i := i + 1;
      }
      i := 0;
      while i < fields.Length
        invariant 0 <= i <= fields.Length
        invariant forall k | 0 <= k < i :: fields[k] == Cleared(old(fields[k]))
        invariant forall k | i <= k < fields.Length ::
          fields[k] == if old(fields[k]).error then old(fields[k]).(error := false, success := false) else old(fields[k])
      {
        fields[i] := fields[i].(message := []);
        i := i + 1;
      }
    }

    /** One rule block of `validateForm`: a field whose verdict is a
        message is flagged with it; the result says whether it passed. */
    method ApplyVerdict(id: FieldId, verdict: Option<string>) returns (passed: bool)
      requires Valid()
      modifies fields
      ensures passed <==> verdict.None?
      ensures fields[..] == old(fields[..])[IndexOf(id) := WithVerdict(old(fields[IndexOf(id)]), verdict)]
    {
      passed := verdict.None?;
      if !passed {
        ShowFieldError(id, verdict.value);
      }
    }

    /** The five rule blocks of `validateForm`, field by field, with no
        early exit: every field is given its verdict from `vs`. */
    method ApplyVerdicts(vs: seq<Option<string>>) returns (allPassed: bool)
      requires Valid() && |vs| == |Order|
      modifies fields
      ensures allPassed <==> AllPass(vs)
      ensures fields[..] == Judged(old(fields[..]), vs)
    {
      var ok0 := ApplyVerdict(Name, vs[0]);
      var ok1 := ApplyVerdict(Email, vs[1]);
      var ok2 := ApplyVerdict(Phone, vs[2]);
      var ok3 := ApplyVerdict(Subject, vs[3]);
      var ok4 := ApplyVerdict(Message, vs[4]);
      allPassed := ok0 && ok1 && ok2 && ok3 && ok4;
      assert allPassed ==> AllPass(vs);
    }

    /** `validateForm`: clear, then check the five fields in order; the
        result is true exactly when every field passed. */
    method ValidateForm() returns (isValid: bool)
      requires Valid()
      modifies fields
      ensures isValid <==> FormPasses(old(fields[..]))
      ensures fields[..] == AfterValidateForm(old(fields[..]))
    {
      ghost var before := fields[..];
      ClearFormErrors();
      VerdictsOfCleared(before);
      isValid := ApplyVerdicts(Verdicts(fields[..]));
    }

    /** `validateField`: judge the trimmed value; on a pass drop `error`,
        add `success` and empty the span, on a failure show the message. */
    method ValidateField(id: FieldId) returns (isValid: bool)
      requires Valid()
      modifies fields
      ensures isValid <==> BlurCheck(id, old(fields[IndexOf(id)]).value).None?
      ensures fields[..] ==
        old(fields[..])[IndexOf(id) := AfterBlur(old(fields[IndexOf(id)]), BlurCheck(id, old(fields[IndexOf(id)]).value))]
    {
      var k := IndexOf(id);
      var verdict := BlurCheck(id, fields[k].value);
      isValid := verdict.None?;
      if isValid {
        fields[k] := fields[k].(error := false, success := true, message := []);
      } else {
        ShowFieldError(id, verdict.value);
      }
    }

    /** The `input` listener: the user changes a field's value, and a field
        already marked `error` is judged again at once. */
    method OnInput(id: FieldId, value: string)
      requires Valid()
      modifies fields
      ensures var typed := old(fields[IndexOf(id)]).(value := value);
        fields[..] == old(fields[..])[IndexOf(id) :=
          if typed.error then AfterBlur(typed, BlurCheck(id, value)) else typed]
    {
      var k := IndexOf(id);
      fields[k] := fields[k].(value := value);
      if fields[k].error {
        var _ := ValidateField(id);
      }
    }

    /** The `submit` listener: a valid form is hidden and the success panel
        shown; an invalid one leaves both flags as they were. */
    method Submit() returns (submitted: bool)
      requires Valid()
      modifies this, fields
      ensures Valid() && fields == old(fields)
      ensures submitted <==> FormPasses(old(fields[..]))
      ensures fields[..] == AfterValidateForm(old(fields[..]))
      ensures submitted ==> ShowingSuccess()
      ensures !submitted ==> formShown == old(formShown) && successShown == old(successShown)
    {
      submitted := ValidateForm();
      if submitted {
        formShown := false;
        successShown := true;
      }
    }

    /** The reset that follows a successful submission: empty every value,
        show the form, hide the success panel, clear the errors. */
    method ResetElapsed()
      requires Valid()
      modifies this, fields
      ensures Valid() && Editable() && fields == old(fields)
      ensures fields[..] == ClearedAll(Emptied(old(fields[..])))
    {
      forall k | 0 <= k < fields.Length {
        fields[k] := fields[k].(value := []);
      }
      formShown := true;
      successShown := false;
      ClearFormErrors();
    }
  }
}
