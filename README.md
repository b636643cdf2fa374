# Department website script: form validation, faculty filter, active navigation

This project models the three parts of the department website's `script.js`
that carry rules and state:

- **Contact form.** It has five fields: name, email, phone, subject and message.
  - `validateForm` runs on submit. It first clears the error state: a field
    carrying `error` loses both `error` and `success`, a field with only
    `success` keeps it, and every error text is emptied. It then checks the five
    fields in order with no early exit.
  - `validateField` runs on blur, and on input for a field already marked `error`.
    It judges one trimmed value.
  - `showFieldError` and `clearFormErrors` are the helpers that change the classes
    and the error spans.
  - The submit handler hides the form and shows the success panel when the form is
    valid. Its delayed callback clears the form and shows it again.
- **Faculty filter.** `filterFaculty` displays a faculty card when the lower-cased
  search term occurs in the card's lower-cased name, specialization or position,
  and the drop-down is `all` or equals the card's `data-specialization`. It counts
  the displayed cards and shows the "no results" notice exactly when the count is
  zero.
- **Active navigation.** The current page is the last `/`-separated segment of the
  path, or `index.html` when that segment is empty. A navigation link is marked
  `active` when its `href` equals that page.

The project has five modules, one per file:

- `Text` (`text.dfy`): JavaScript's `trim`, `toLowerCase`, `includes` and `length`. The
  whitespace class shared by `trim` and `\s` is the ECMAScript WhiteSpace and
  LineTerminator code points.
- `FieldRules` (`field_rules.dfy`): the validation rules.
  - The e-mail pattern `^[^\s@]+@[^\s@]+\.[^\s@]+$` and the phone pattern
    `^[\+]?[1-9][\d]{0,15}$` are written as predicates.
  - The phone clean-up `replace(/[\s\-\(\)]/g, '')` is written as a function.
  - There are two verdict functions, one per call site: `SubmitCheck` for
    `validateForm` and `BlurCheck` for `validateField`.
- `ContactForm` (`contact_form.dfy`): a class whose field array is updated in place
  by the handlers, as in the page. Pure functions over `seq<Field>` state what each
  handler leaves behind.
- `FacultyFilter` (`faculty_filter.dfy`): a class with one display flag per card and
  the notice flag. `FilterFaculty` is the loop over the cards.
- `ActiveNav` (`active_nav.dfy`): `split('/')`, `pop()` and the link test, with a
  class holding one `active` flag per link.

Behaviour of the script worth knowing:

- **A field can carry both `error` and `success`.** `showFieldError` adds `error`
  without removing `success`. So a field shown as valid on blur, then failing at
  submit, carries both classes. `ErrorAndSuccessCoexist` shows this. A field's display
  state is therefore two independent classes, not one of three values.
- **The reset does not return fields to neutral.** `clearFormErrors` removes
  `success` only from fields that carry `error`. After a valid submission no field
  has `error`, so the reset leaves `success` wherever it was.
  `ResetAfterValidSubmit` shows this.
- **At submit, the e-mail pattern is tested on the raw value.** Presence is judged
  on the trimmed value, but the pattern sees the raw one. An address typed after a
  space fails at submit and passes on blur. `EmailLeadingSpaceDiffers` shows this.
- **At submit, the subject is not trimmed.** A whitespace-only subject passes at
  submit and fails on blur. `SubjectBlankDiffers` shows this.
- **The search runs on every keystroke.** `filterFaculty` runs on every `input`
  and `change` event.
- **Lengths are UTF-16 code units.** `length` counts a character beyond U+FFFF
  (an emoji, say) as two, so a one-emoji name passes the two-character minimum.
  `AstralNamePasses` shows this.

## Model

| member | source | states |
|---|---|---|
| Text.TrimIsInnerSlice | script.js:231 | the trim is the slice after the leading whitespace, followed only by whitespace, and with no whitespace at either end |
| Text.TrimEmptyIffAllSpace | script.js:237 | a value trims to empty exactly when it is all whitespace, which is when `!value` holds |
| Text.TrimIdempotent | script.js:231 | trimming an already trimmed value changes nothing |
| Text.TrimLeadingSpace | script.js:146 | a whitespace character in front of a value does not change its trim |
| Text.Lower | script.js:79 | `toLowerCase` keeps the length, turns each capital A-Z into its small letter, leaves every other character as it is, and leaves no capital A-Z behind |
| Text.Utf16Length | script.js:149 | `length` counts at least one and at most two code units per character |
| Text.Utf16LengthOfBmp | script.js:149 | `length` equals the number of characters exactly when every character is below U+10000 |
| Text.LowerFixedIffNoCapital | script.js:79 | lower-casing leaves a text unchanged exactly when it holds no capital A-Z |
| Text.LowerIdempotent | script.js:79 | lower-casing twice is lower-casing once |
| Text.IncludesEmpty | script.js:89-91 | the empty term occurs in every text |
| Text.IncludesTransitive | script.js:89-91 | a term occurring inside a term that occurs in a text occurs in that text |
| FieldRules.EmailPatternCharacterized | script.js:156 | the e-mail pattern accepts exactly the values with no whitespace, exactly one `@` with something before it, and after it a dot that is neither first nor last |
| FieldRules.StripPhone | script.js:169 | the clean-up leaves no whitespace, `-`, `(` or `)`, never lengthens the value, and leaves a value without them unchanged |
| FieldRules.StripPhoneAppend | script.js:169 | the clean-up works character by character: cleaning a concatenation is concatenating the cleaned parts |
| FieldRules.StripPhoneOfTrim | script.js:258 | cleaning the trimmed value gives the same digits as cleaning the raw value, so the blur check and the submit check see the same cleaned number |
| FieldRules.StripWrittenNumber | script.js:169 | a number written as `(AAA) EEE-LLLL` cleans to its digits |
| FieldRules.PhonePatternShape | script.js:168 | a value matching the phone pattern has 1 to 17 characters, digits after the first, and starts with `+` or a digit 1-9 |
| FieldRules.PhonePatternIsStripped | script.js:168-169 | a value matching the pattern has nothing for the clean-up to remove |
| FieldRules.RequiredTextMeaning | script.js:144-152 | for the name (and likewise the message at 182-190, 10 characters), submit and blur agree; the field passes exactly when the `length` of its trimmed value, in UTF-16 code units, reaches the minimum; it gets "required" exactly when blank and "too short" exactly when not blank and short |
| FieldRules.SubmitEmailMeaning | script.js:154-163 | at submit an address passes exactly when the raw value is well formed, and gets "Email is required" exactly when it is blank |
| FieldRules.BlurEmailMeaning | script.js:245-254 | on blur an address passes exactly when the trimmed value is well formed, and gets "Email is required" exactly when blank |
| FieldRules.EmailSubmitPassImpliesBlurPass | script.js:160 | an address accepted at submit is accepted on blur |
| FieldRules.EmailLeadingSpaceDiffers | script.js:157-160 | a well-formed address typed after a whitespace character passes on blur and fails at submit with the format message |
| FieldRules.PhoneMeaning | script.js:165-173 | submit and blur agree on the phone; it passes exactly when blank or when its cleaned form matches the pattern |
| FieldRules.WrittenNumberPasses | script.js:168-169 | `(AAA) EEE-LLLL` with digits, a non-zero first digit and at most 16 digits in all passes |
| FieldRules.PhoneWithPlusPasses | script.js:168 | "+14155552671" passes |
| FieldRules.PhoneLeadingZeroFails | script.js:168-172 | a run of digits starting with 0 is rejected with the phone message |
| FieldRules.PhoneLettersFail | script.js:168-172 | "abc" is rejected with the phone message |
| FieldRules.AstralNamePasses | script.js:149 | a name of one character beyond U+FFFF has `length` two and passes at submit and on blur |
| FieldRules.SubjectMeaning | script.js:175-180 | at submit a subject passes exactly when something is selected, on blur exactly when the selection is not blank, and a blur pass implies a submit pass |
| FieldRules.SubjectBlankDiffers | script.js:177 | a one-space subject passes at submit and fails on blur |
| FieldRules.VerdictsUseOwnMessages | script.js:144-190 | every failing verdict, at either call site, is one of that field's own messages |
| FieldRules.EmailExamples | script.js:156-163 | "a@b.co" passes, "a@b" gets the format message, "" gets "Email is required" |
| ContactForm.Cleared | script.js:203-214 | clearing one field keeps its value, removes `error`, empties its span, and keeps `success` exactly when it had it without `error` |
| ContactForm.ClearedIdempotent | script.js:203-214 | clearing twice is clearing once |
| ContactForm.VerdictsOfCleared | script.js:142 | clearing the classes and spans changes no field's verdict |
| ContactForm.VerdictOf | script.js:144-190 | the k-th verdict of the form is the submit verdict of the k-th field in the order name, email, phone, subject, message |
| ContactForm.ValidateFormMarksFailures | script.js:140-193 | after `validateForm` a field keeps its value, carries `error` exactly when its verdict is a message, shows that message or nothing, and carries `success` exactly when it had it without `error` |
| ContactForm.ValidateFormPassesIffNoError | script.js:192 | `validateForm` returns true exactly when it leaves no field carrying `error` |
| ContactForm.ErrorAndSuccessCoexist | script.js:149-150 | a name of `length` one (one non-space character below U+10000) that had `success` ends with both `error` and `success` and the "too short" message |
| ContactForm.ResetAfterValidSubmit | script.js:131-136 | after a valid submission and the reset, each field is empty with no error and no message, and keeps `success` exactly when it had it without `error` before the submission |
| ContactForm.Form.ShowFieldError | script.js:195-201 | adds `error` to the one field and shows the message; no other field and no other class changes |
| ContactForm.Form.ClearFormErrors | script.js:203-214 | leaves every field as `Cleared` describes |
| ContactForm.Form.ApplyVerdict | script.js:146-152 | one rule block: the field is flagged with the message exactly when the verdict is one, and the result says whether it passed |
| ContactForm.Form.ApplyVerdicts | script.js:144-190 | the five blocks run with no early exit: every field gets its verdict and the result is true exactly when all passed |
| ContactForm.Form.ValidateForm | script.js:140-193 | returns true exactly when every field passes its submit rules, and leaves the fields cleared and then flagged by their verdicts |
| ContactForm.Form.ValidateField | script.js:230-293 | judges the trimmed value; on a pass removes `error`, adds `success` and empties the span, on a failure flags the field; no other field changes |
| ContactForm.Form.OnInput | script.js:223-227 | the new value is stored and a field carrying `error` is judged again at once; a field without `error` is left unjudged |
| ContactForm.Form.Submit | script.js:122-129 | a valid form is hidden and the success panel shown; an invalid one leaves both as they were; either way the fields are left as `validateForm` leaves them |
| ContactForm.Form.ResetElapsed | script.js:131-136 | every value is emptied, the form shown, the panel hidden and the errors cleared |
| FacultyFilter.CountIsNumberShown | script.js:95-98 | the count is the number of displayed cards |
| FacultyFilter.CountZeroIffNoneShown | script.js:103-108 | the count is zero exactly when no card is displayed |
| FacultyFilter.EmptySearchMatchesAll | script.js:89-93 | with an empty search box only the drop-down decides |
| FacultyFilter.SearchIgnoresCase | script.js:79 | typing a term in upper or lower case shows the same cards |
| FacultyFilter.NarrowerTermShowsFewer | script.js:89-91 | a card displayed for a term is displayed for every term occurring inside it |
| FacultyFilter.FacultyGrid.FilterFaculty | script.js:78-109 | displays exactly the matching cards, returns their number, and shows the notice exactly when no card is displayed |
| ActiveNav.Split | script.js:334 | `split('/')` always yields at least one piece |
| ActiveNav.JoinSplit | script.js:334 | joining the pieces with `/` gives back the path |
| ActiveNav.SplitHasNoSlash | script.js:334 | no piece holds a `/` |
| ActiveNav.LastSegmentIsTail | script.js:334 | `pop()` returns the part of the path after its last `/`, which holds no `/` |
| ActiveNav.CurrentPage | script.js:334 | the current page is never empty |
| ActiveNav.CurrentPageMeaning | script.js:334 | the page is the last segment, or `index.html` exactly when the path is empty or ends with `/` |
| ActiveNav.EmptyPageBranchIsDead | script.js:339 | the `currentPage === ''` alternative never applies: a link is active exactly when its `href` is the page |
| ActiveNav.CurrentPageOfFile | script.js:334 | "/faculty.html" gives "faculty.html" |
| ActiveNav.CurrentPageOfDirectory | script.js:334 | "/" and "/staff/" give "index.html" |
| ActiveNav.NavBar.HighlightCurrentPage | script.js:337-344 | marks exactly the links whose `href` equals the current page and unmarks all others |

## Left out

- Menu toggle, dark mode, statistics counter, scroll animations and smooth scrolling: these are presentation behaviour outside the modelled rules.
- DOM plumbing is not modelled. This covers element lookup, the early returns when an element is missing, and listener registration.
- The `if (errorSpan)` guards: every field is modelled with an error span.
- Strings are sequences of Unicode scalar values, so a lone surrogate code unit cannot be represented. `length` is modelled by `Utf16Length`, which counts a character beyond U+FFFF as a surrogate pair.
- `toLowerCase` is modelled for ASCII letters only. Lower-casing outside A-Z is not modelled.
- Timers are not modelled. The 5-second delay before the reset is the explicit call `ResetElapsed`.
- `contactForm.reset()` returns each control to its default value, and every default is taken to be empty.
- Other form controls reach the `switch` default in `validateField`. Only the five named fields are modelled.
- `Form.constructor`, `FacultyGrid.constructor`, `NavBar.constructor`: these initial states are not taken from the script. They describe a freshly loaded page: every field neutral, every card displayed, no link active.
