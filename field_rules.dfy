/**
 * The contact form's per-field rules: which message, if any, a field's value
 * earns. Two entry points mirror the script's two call sites: `SubmitCheck`
 * is the rule block of `validateForm`, run on the field's raw value, and
 * `BlurCheck` is the `switch` of `validateField`, run on the trimmed value.
 * Within one field the rules are tried in order and the first failing
 * rule's message is the result.
 */
module FieldRules {
  import opened Text

  datatype Option<T> = None | Some(value: T)

  /** The five logical fields of the form, in the order `validateForm` checks them. */
  datatype FieldId = Name | Email | Phone | Subject | Message

  const NameRequired := "Name is required"
  const NameTooShort := "Name must be at least 2 characters"
  const EmailRequired := "Email is required"
  const EmailInvalid := "Please enter a valid email address"
  const PhoneInvalid := "Please enter a valid phone number"
  const SubjectMissing := "Please select a subject"
  const MessageRequired := "Message is required"
  const MessageTooShort := "Message must be at least 10 characters"

  /** Every message a field can be given. */
  function Messages(id: FieldId): set<string> {
    match id
    case Name => {NameRequired, NameTooShort}
    case Email => {EmailRequired, EmailInvalid}
    case Phone => {PhoneInvalid}
    case Subject => {SubjectMissing}
    case Message => {MessageRequired, MessageTooShort}
  }

  // ---------------------------------------------------------------------
  // The e-mail pattern  ^[^\s@]+@[^\s@]+\.[^\s@]+$
  // ---------------------------------------------------------------------

  /** A character of the class `[^\s@]`. */
  predicate Plain(c: char) {
    !IsSpace(c) && c != '@'
  }

  predicate AllPlain(s: string) {
    forall k | 0 <= k < |s| :: Plain(s[k])
  }

  /** `s` splits as `[^\s@]+` `@` `[^\s@]+` `\.` `[^\s@]+` with the `@` at
      index `i` and the literal dot at index `j`. */
  predicate EmailSplitAt(s: string, i: int, j: int) {
    && 0 < i && i + 1 < j && j + 1 < |s|
    && s[i] == '@' && s[j] == '.'
    && AllPlain(s[..i]) && AllPlain(s[i + 1..j]) && AllPlain(s[j + 1..])
  }

  /** The e-mail pattern: some split of `s` matches it. */
  predicate EmailPattern(s: string) {
    exists i, j | 0 < i < |s| && 0 < j < |s| :: EmailSplitAt(s, i, j)
  }

  /** `s[i]` is an `@` and no other character of `s` is. */
  predicate OnlyAtSign(s: string, i: int) {
    0 <= i < |s| && s[i] == '@' && forall k | 0 <= k < |s| && k != i :: s[k] != '@'
  }

  /** `d` holds a `.` that is neither its first nor its last character. */
  predicate DotInside(d: string) {
    exists m | 0 < m < |d| - 1 :: d[m] == '.'
  }

  /** An address in plain words: no whitespace, exactly one `@`, something
      before it, and after it a domain with an inner dot. */
  predicate WellFormedEmail(s: string) {
    NoSpace(s) && exists i | 0 < i < |s| :: OnlyAtSign(s, i) && DotInside(s[i + 1..])
  }

  /** The pattern accepts exactly the well-formed addresses. */
  lemma EmailPatternCharacterized(s: string)
    ensures EmailPattern(s) <==> WellFormedEmail(s)
  {
    if EmailPattern(s) {
      var i, j :| 0 < i < |s| && 0 < j < |s| && EmailSplitAt(s, i, j);
      forall k | 0 <= k < |s|
        ensures !IsSpace(s[k]) && (k != i ==> s[k] != '@')
      {
        if k < i {
          assert s[k] == s[..i][k];
        } else if i < k < j {
          assert s[k] == s[i + 1..j][k - i - 1];
        } else if j < k {
          assert s[k] == s[j + 1..][k - j - 1];
        }
      }
      assert s[i + 1..][j - i - 1] == '.';
      assert OnlyAtSign(s, i) && DotInside(s[i + 1..]);
    }
    if WellFormedEmail(s) {
      var i :| 0 < i < |s| && OnlyAtSign(s, i) && DotInside(s[i + 1..]);
      var m :| 0 < m < |s[i + 1..]| - 1 && s[i + 1..][m] == '.';
      var j := i + 1 + m;
      assert s[j] == '.';
      assert forall k | 0 <= k < |s| && k != i :: Plain(s[k]);
      assert EmailSplitAt(s, i, j);
    }
  }

  // ---------------------------------------------------------------------
  // The phone pattern  ^[\+]?[1-9][\d]{0,15}$  after removing [\s\-\(\)]
  // ---------------------------------------------------------------------

  /** The characters `replace(/[\s\-\(\)]/g, '')` deletes. */
  predicate Strippable(c: char) {
    IsSpace(c) || c == '-' || c == '(' || c == ')'
  }

  predicate NoStrippable(s: string) {
    forall k | 0 <= k < |s| :: !Strippable(s[k])
  }

  /** `s` with every whitespace, hyphen and parenthesis removed; the other
      characters keep their order. */
  function StripPhone(s: string): (r: string)
    ensures |r| <= |s|
    ensures NoStrippable(r)
    ensures NoStrippable(s) ==> r == s
  {
    if s == [] then []
    else if Strippable(s[0]) then StripPhone(s[1..])
    else [s[0]] + StripPhone(s[1..])
  }

  /** Stripping works piecewise. */
  lemma {:induction false} StripPhoneAppend(a: string, b: string)
    ensures StripPhone(a + b) == StripPhone(a) + StripPhone(b)
  {
    if a == [] {
      assert a + b == b;
    } else {
      assert (a + b)[0] == a[0] && (a + b)[1..] == a[1..] + b;
      StripPhoneAppend(a[1..], b);
    }
  }

  /** A run of whitespace strips to nothing. */
  lemma {:induction false} StripPhoneAllSpace(a: string)
    requires AllSpace(a)
    ensures StripPhone(a) == []
  {
    if a != [] {
      StripPhoneAllSpace(a[1..]);
    }
  }

  /** Trimming before stripping changes nothing: the whitespace trim removes
      is whitespace the strip removes anyway. */
  lemma StripPhoneOfTrim(s: string)
    ensures StripPhone(Trim(s)) == StripPhone(s)
  {
    var lead := LeadingSpaces(s);
    var t := Trim(s);
    var end := lead + |t|;
    LeadingSpacesSpec(s);
    TrimIsInnerSlice(s);
    TrimEmptyIffAllSpace(s);
    var front, back := s[..lead], s[end..];
    assert t == s[lead..end];
    assert s == front + t + back;
    StripPhoneAppend(front + t, back);
    StripPhoneAppend(front, t);
    StripPhoneAllSpace(front);
    StripPhoneAllSpace(back);
    assert StripPhone(front + t) == StripPhone(t);
  }

  /** `\d`: an ASCII digit. */
  predicate IsDigit(c: char) {
    '0' <= c <= '9'
  }

  predicate AllDigits(s: string) {
    forall k | 0 <= k < |s| :: IsDigit(s[k])
  }

  lemma DigitsUnstripped(s: string)
    requires AllDigits(s)
    ensures StripPhone(s) == s
  {
    assert NoStrippable(s);
  }

  /** A number written as `(AAA) EEE-LLLL` strips to its digits. */
  lemma StripWrittenNumber(area: string, exchange: string, line: string)
    requires AllDigits(area) && AllDigits(exchange) && AllDigits(line)
    ensures StripPhone("(" + area + ") " + exchange + "-" + line) == area + exchange + line
  {
    DigitsUnstripped(area);
    DigitsUnstripped(exchange);
    DigitsUnstripped(line);
    var a1 := "(" + area;
    StripPhoneAppend("(", area);
    assert StripPhone("(") == [];
    assert StripPhone(a1) == area;
    var a2 := a1 + ") ";
    StripPhoneAppend(a1, ") ");
    assert StripPhone(") ") == [];
    assert StripPhone(a2) == area;
    var a3 := a2 + exchange;
    StripPhoneAppend(a2, exchange);
    var a4 := a3 + "-";
    StripPhoneAppend(a3, "-");
    assert StripPhone("-") == [];
    assert StripPhone(a4) == area + exchange;
    StripPhoneAppend(a4, line);
  }

  /** `[1-9][\d]{0,15}`: a non-zero leading digit and at most fifteen more digits. */
  predicate PhoneDigits(t: string) {
    1 <= |t| <= 16 && '1' <= t[0] <= '9' && forall k | 1 <= k < |t| :: IsDigit(t[k])
  }

  /** The whole phone pattern, with its optional leading `+`. */
  predicate PhonePattern(s: string) {
    PhoneDigits(s) || (|s| > 0 && s[0] == '+' && PhoneDigits(s[1..]))
  }

  /** A matching number has between one and sixteen digits and at most one
      `+`, at the front. */
  lemma PhonePatternShape(s: string)
    requires PhonePattern(s)
    ensures 1 <= |s| <= 17
    ensures forall k | 1 <= k < |s| :: IsDigit(s[k])
    ensures s[0] == '+' || '1' <= s[0] <= '9'
  {
    if !PhoneDigits(s) {
      forall k | 1 <= k < |s| ensures IsDigit(s[k]) {
        assert s[k] == s[1..][k - 1];
      }
    }
  }

  // ---------------------------------------------------------------------
  // Rules, in the order the script applies them
  // ---------------------------------------------------------------------

  /** A required free-text field: first present, then at least `min` long,
      the length counted in UTF-16 code units as `String.prototype.length`
      counts it. */
  function RequiredMinLength(value: string, min: nat, required: string, tooShort: string): Option<string> {
    if value == [] then Some(required)
    else if Utf16Length(value) < min then Some(tooShort)
    else None
  }

  /** Presence is judged on `present`, the pattern on `tested`. */
  function EmailRule(present: string, tested: string): Option<string> {
    if present == [] then Some(EmailRequired)
    else if !EmailPattern(tested) then Some(EmailInvalid)
    else None
  }

  /** Optional: only a present value is held to the pattern. */
  function PhoneRule(present: string, tested: string): Option<string> {
    if present != [] && !PhonePattern(StripPhone(tested)) then Some(PhoneInvalid) else None
  }

  function SubjectRule(value: string): Option<string> {
    if value == [] then Some(SubjectMissing) else None
  }

  /** The verdict `validateForm` gives a field whose raw value is `raw`:
      `None` when it passes, otherwise the first failing rule's message. */
  function SubmitCheck(id: FieldId, raw: string): (r: Option<string>)
  {
    match id
    case Name => RequiredMinLength(Trim(raw), 2, NameRequired, NameTooShort)
    case Email => EmailRule(Trim(raw), raw)
    case Phone => PhoneRule(Trim(raw), raw)
    case Subject => SubjectRule(raw)
    case Message => RequiredMinLength(Trim(raw), 10, MessageRequired, MessageTooShort)
  }

  /** A name needs a trimmed `length` of at least two and a message at
      least ten (UTF-16 code units); a blank one gets the "required"
      message, a short one the "too short" message. Both call sites agree. */
  lemma RequiredTextMeaning(id: FieldId, raw: string)
    requires id == Name || id == Message
    ensures var min := if id == Name then 2 else 10;
      var required := if id == Name then NameRequired else MessageRequired;
      var tooShort := if id == Name then NameTooShort else MessageTooShort;
      && SubmitCheck(id, raw) == BlurCheck(id, raw)
      && (SubmitCheck(id, raw).None? <==> Utf16Length(Trim(raw)) >= min)
      && (SubmitCheck(id, raw) == Some(required) <==> AllSpace(raw))
      && (SubmitCheck(id, raw) == Some(tooShort) <==> !AllSpace(raw) && Utf16Length(Trim(raw)) < min)
  {
    TrimIsInnerSlice(raw);
    TrimEmptyIffAllSpace(raw);
  }

  /** At submit an address passes exactly when the raw value is well
      formed; a blank one gets "Email is required", never the format
      message. */
  lemma SubmitEmailMeaning(raw: string)
    ensures SubmitCheck(Email, raw).None? <==> WellFormedEmail(raw)
    ensures SubmitCheck(Email, raw) == Some(EmailRequired) <==> AllSpace(raw)
  {
    TrimIsInnerSlice(raw);
    TrimEmptyIffAllSpace(raw);
    EmailPatternCharacterized(raw);
    if WellFormedEmail(raw) {
      var i :| 0 < i < |raw| && OnlyAtSign(raw, i) && DotInside(raw[i + 1..]);
      assert !IsSpace(raw[i]);
    }
  }

  /** A phone number passes exactly when it is blank or its stripped form
      matches the pattern, at both call sites. */
  lemma PhoneMeaning(raw: string)
    ensures SubmitCheck(Phone, raw) == BlurCheck(Phone, raw)
    ensures SubmitCheck(Phone, raw) ==
      if AllSpace(raw) || PhonePattern(StripPhone(raw)) then None else Some(PhoneInvalid)
  {
    TrimIsInnerSlice(raw);
    TrimEmptyIffAllSpace(raw);
    StripPhoneOfTrim(raw);
  }

  /** The verdict `validateField` gives a field whose raw value is `raw`:
      every rule looks at the trimmed value. */
  function BlurCheck(id: FieldId, raw: string): (r: Option<string>)
  {
    var value := Trim(raw);
    match id
    case Name => RequiredMinLength(value, 2, NameRequired, NameTooShort)
    case Email => EmailRule(value, value)
    case Phone => PhoneRule(value, value)
    case Subject => SubjectRule(value)
    case Message => RequiredMinLength(value, 10, MessageRequired, MessageTooShort)
  }

  /** A failing field is always given one of its own messages, at either
      call site. */
  lemma VerdictsUseOwnMessages(id: FieldId, raw: string)
    ensures SubmitCheck(id, raw).Some? ==> SubmitCheck(id, raw).value in Messages(id)
    ensures BlurCheck(id, raw).Some? ==> BlurCheck(id, raw).value in Messages(id)
  {
  }

  /** On blur an address passes exactly when its trimmed form is well
      formed, and a subject exactly when it is not blank. */
  lemma BlurEmailMeaning(raw: string)
    ensures BlurCheck(Email, raw).None? <==> WellFormedEmail(Trim(raw))
    ensures BlurCheck(Email, raw) == Some(EmailRequired) <==> AllSpace(raw)
  {
    TrimIsInnerSlice(raw);
    TrimEmptyIffAllSpace(raw);
    EmailPatternCharacterized(Trim(raw));
  }

  /** An e-mail accepted at submit is accepted on blur ... */
  lemma EmailSubmitPassImpliesBlurPass(raw: string)
    requires SubmitCheck(Email, raw).None?
    ensures BlurCheck(Email, raw).None?
  {
    SubmitEmailMeaning(raw);
    TrimOfNoSpace(raw);
  }

  /** ... but not conversely: a well-formed address typed after a
      whitespace character, such as " a@b.co", passes on blur, where the
      pattern sees the trimmed value, and fails at submit with the format
      message, where it sees the raw value. */
  lemma EmailLeadingSpaceDiffers(c: char, address: string)
    requires IsSpace(c) && WellFormedEmail(address)
    ensures BlurCheck(Email, [c] + address) == None
    ensures SubmitCheck(Email, [c] + address) == Some(EmailInvalid)
  {
    var raw := [c] + address;
    TrimLeadingSpace(c, address);
    TrimOfNoSpace(address);
    BlurEmailMeaning(raw);
    SubmitEmailMeaning(raw);
    assert !NoSpace(raw) by { assert IsSpace(raw[0]); }
    assert !AllSpace(raw) by { assert raw[1] == address[0]; }
  }

  /** A subject passes at submit when anything at all is selected, but on
      blur only when the selection is not blank; so a blur pass implies a
      submit pass ... */
  lemma SubjectMeaning(raw: string)
    ensures SubmitCheck(Subject, raw).None? <==> raw != []
    ensures BlurCheck(Subject, raw).None? <==> !AllSpace(raw)
    ensures BlurCheck(Subject, raw).None? ==> SubmitCheck(Subject, raw).None?
  {
    TrimIsInnerSlice(raw);
    TrimEmptyIffAllSpace(raw);
  }

  /** ... but a blank subject passes at submit and fails on blur. */
  lemma SubjectBlankDiffers()
    ensures SubmitCheck(Subject, " ") == None
    ensures BlurCheck(Subject, " ") == Some(SubjectMissing)
  {
    assert AllSpace(" ") by { assert IsSpace(" "[0]); }
  }

  /** A number that already matches has nothing to strip. */
  lemma PhonePatternIsStripped(s: string)
    requires PhonePattern(s)
    ensures StripPhone(s) == s
  {
    PhonePatternShape(s);
  }

  /** A number written with punctuation as `(AAA) EEE-LLLL`, such as
      "(415) 555-2671", is accepted whenever its digits form a valid number. */
  lemma WrittenNumberPasses(area: string, exchange: string, line: string)
    requires AllDigits(area) && AllDigits(exchange) && AllDigits(line)
    requires |area| > 0 && area[0] != '0' && |area| + |exchange| + |line| <= 16
    ensures SubmitCheck(Phone, "(" + area + ") " + exchange + "-" + line) == None
  {
    var raw := "(" + area + ") " + exchange + "-" + line;
    var digits := area + exchange + line;
    StripWrittenNumber(area, exchange, line);
    assert digits[0] == area[0];
    assert AllDigits(digits) by {
      forall k | 0 <= k < |digits| ensures IsDigit(digits[k]) {
        if k < |area| {
          assert digits[k] == area[k];
        } else if k < |area| + |exchange| {
          assert digits[k] == exchange[k - |area|];
        } else {
          assert digits[k] == line[k - |area| - |exchange|];
        }
      }
    }
    assert PhoneDigits(digits);
    assert !AllSpace(raw) by { assert raw[0] == '('; }
    PhoneMeaning(raw);
  }

  /** An international number with a leading `+` is accepted. */
  lemma PhoneWithPlusPasses()
    ensures SubmitCheck(Phone, "+14155552671") == None
  {
    var raw := "+14155552671";
    assert raw[1..] == "14155552671";
    assert PhoneDigits(raw[1..]);
    PhonePatternIsStripped(raw);
    PhoneMeaning(raw);
  }

  /** A run of digits starting with zero, such as "0123456", is rejected. */
  lemma PhoneLeadingZeroFails(raw: string)
    requires |raw| > 0 && AllDigits(raw) && raw[0] == '0'
    ensures SubmitCheck(Phone, raw) == Some(PhoneInvalid)
  {
    DigitsUnstripped(raw);
    assert !AllSpace(raw) by { assert !IsSpace(raw[0]); }
    PhoneMeaning(raw);
  }

  /** Letters are rejected. */
  lemma PhoneLettersFail()
    ensures SubmitCheck(Phone, "abc") == Some(PhoneInvalid)
  {
    assert NoStrippable("abc");
    assert !AllSpace("abc") by { assert !IsSpace("abc"[0]); }
    PhoneMeaning("abc");
  }

  /** A name made of one character beyond U+10000 (an emoji, say) already
      has `length` two, so it passes. */
  lemma AstralNamePasses(c: char)
    requires c >= '\U{10000}'
    ensures SubmitCheck(Name, [c]) == None
    ensures BlurCheck(Name, [c]) == None
  {
    TrimOfNoSpace([c]);
    assert [c][..0] == [];
  }

  /** Sample addresses. */
  lemma EmailExamples()
    ensures SubmitCheck(Email, "a@b.co") == None
    ensures SubmitCheck(Email, "a@b") == Some(EmailInvalid)
    ensures SubmitCheck(Email, "") == Some(EmailRequired)
  {
    assert EmailSplitAt("a@b.co", 1, 3) by {
      assert "a@b.co"[..1] == "a" && "a@b.co"[2..3] == "b" && "a@b.co"[4..] == "co";
    }
    assert !AllSpace("a@b") by { assert !IsSpace("a@b"[0]); }
    assert !EmailPattern("a@b");
  }
}
