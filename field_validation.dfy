/** The decision logic of `validateField` (script.js:157-201): the required
    check, then the email or phone format check chosen by the field's name.
    The two regular expressions are modelled twice: once by the ways the
    pattern can match (its parses), and once as the hand-written check the
    validator runs; lemmas prove the two agree on every string. */
module FieldValidation {
  import opened Text

  const REQUIRED_MESSAGE := "This field is required."
  const EMAIL_MESSAGE := "Please enter a valid email address."
  const PHONE_MESSAGE := "Please enter a valid phone number."

  // ---------------------------------------------------------------- email

  /** The class `[^\s@]`. */
  predicate IsEmailChar(c: char) {
    !IsSpace(c) && c != '@'
  }

  predicate AllEmailChars(s: string) {
    forall k :: 0 <= k < |s| ==> IsEmailChar(s[k])
  }

  /** `/^[^\s@]+@[^\s@]+\.[^\s@]+$/` matches `s`: there is a parse with the
      `@` at index `at` and the `\.` at index `dot`, each of the three runs
      around them non-empty, and every other character in `[^\s@]` (the
      matched `.` is itself in that class). */
  ghost predicate MatchesEmailPattern(s: string) {
    exists at, dot ::
      0 < at && at + 1 < dot && dot + 1 < |s| && s[at] == '@' && s[dot] == '.'
      && forall k :: 0 <= k < |s| && k != at ==> IsEmailChar(s[k])
  }

  /** Index of the first `c` in `s`, or `|s|` when there is none. */
  function IndexOf(s: string, c: char): (i: nat)
    ensures i <= |s|
    ensures i < |s| ==> s[i] == c
    ensures forall k :: 0 <= k < i ==> s[k] != c
  {
    if s == [] then 0 else if s[0] == c then 0 else 1 + IndexOf(s[1..], c)
  }

  /** `d` has a `.` that is neither its first nor its last character. */
  predicate HasInnerDot(d: string) {
    exists k :: 0 < k < |d| - 1 && d[k] == '.'
  }

  /** The email check as a reader states it: `s` is L `@` D where L is a
      non-empty run without white space or `@`, D has no white space or `@`,
      and D has a `.` strictly inside it. */
  predicate IsEmailFormat(s: string) {
    var at := IndexOf(s, '@');
    0 < at < |s| && AllEmailChars(s[..at]) && AllEmailChars(s[at + 1..])
    && HasInnerDot(s[at + 1..])
  }

  /** The hand-written email check accepts exactly the strings the regular
      expression matches. */
  lemma EmailFormatCorrect(s: string)
    ensures IsEmailFormat(s) <==> MatchesEmailPattern(s)
  {
    if IsEmailFormat(s) {
      var at := IndexOf(s, '@');
      var d := s[at + 1..];
      var k :| 0 < k < |d| - 1 && d[k] == '.';
      var dot := at + 1 + k;
      assert s[dot] == d[k];
      forall j | 0 <= j < |s| && j != at ensures IsEmailChar(s[j]) {
        if j < at {
          assert s[j] == s[..at][j];
        } else {
          assert s[j] == d[j - at - 1];
        }
      }
      assert MatchesEmailPattern(s);
    }
    if MatchesEmailPattern(s) {
      var at, dot :| 0 < at && at + 1 < dot && dot + 1 < |s| && s[at] == '@'
        && s[dot] == '.' && forall k :: 0 <= k < |s| && k != at ==> IsEmailChar(s[k]);
      assert IndexOf(s, '@') == at;
      var d := s[at + 1..];
      assert d[dot - at - 1] == '.';
      assert HasInnerDot(d);
    }
  }

  // ---------------------------------------------------------------- phone

  /** The class `[\s\-\(\)]`. */
  predicate IsPhoneSeparator(c: char) {
    IsSpace(c) || c == '-' || c == '(' || c == ')'
  }

  /** The class `[\d\s\-\(\)]`. */
  predicate IsPhoneChar(c: char) {
    IsDigit(c) || IsPhoneSeparator(c)
  }

  /** One parse of `/^[\+]?[\s\-\(\)]?[\d\s\-\(\)]{10,}$/`: `[\+]?` takes the
      first `plus` characters, `[\s\-\(\)]?` the next `sep - plus`, and the
      repeated class all the rest. */
  predicate PhoneParse(s: string, plus: nat, sep: nat)
    requires plus <= 1 && plus <= sep <= plus + 1
  {
    sep + 10 <= |s|
    && (plus == 1 ==> s[0] == '+')
    && (sep == plus + 1 ==> IsPhoneSeparator(s[plus]))
    && forall k :: sep <= k < |s| ==> IsPhoneChar(s[k])
  }

  /** The phone regular expression matches `s`: one of its four parses does. */
  predicate MatchesPhonePattern(s: string) {
    PhoneParse(s, 0, 0) || PhoneParse(s, 0, 1) || PhoneParse(s, 1, 1) || PhoneParse(s, 1, 2)
  }

  /** The phone check as a reader states it: an optional leading `+`, then at
      least ten characters, each a digit, white space, `-`, `(` or `)`. */
  predicate IsPhoneFormat(s: string) {
    var body := if |s| > 0 && s[0] == '+' then s[1..] else s;
    |body| >= 10 && AllPhoneChars(body)
  }

  predicate AllPhoneChars(s: string) {
    forall k :: 0 <= k < |s| ==> IsPhoneChar(s[k])
  }

  /** The collapsed phone check accepts exactly the strings the regular
      expression matches: the optional separator adds nothing, because the
      repeated class already contains it. */
  lemma PhoneFormatCorrect(s: string)
    ensures IsPhoneFormat(s) <==> MatchesPhonePattern(s)
  {
    var plus := if |s| > 0 && s[0] == '+' then 1 else 0;
    var body := s[plus..];
    assert body == if |s| > 0 && s[0] == '+' then s[1..] else s;
    if IsPhoneFormat(s) {
      forall k | plus <= k < |s| ensures IsPhoneChar(s[k]) {
        assert s[k] == body[k - plus];
      }
      assert PhoneParse(s, plus, plus);
    }
    if MatchesPhonePattern(s) {
      forall k | 0 <= k < |body| ensures IsPhoneChar(body[k]) {
        assert body[k] == s[k + plus];
      }
    }
  }

  /** The check counts characters, not digits: ten separators alone make an
      acceptable number, while seven digits with a hyphen are too short. */
  lemma PhoneCountsCharactersNotDigits()
    ensures MatchesPhonePattern("----------")
    ensures !MatchesPhonePattern("469-7945")
  {
    var s := "----------";
    assert forall k :: 0 <= k < |s| ==> s[k] == '-';
    assert PhoneParse(s, 0, 0);
  }

  /** A local number written with parentheses, a space and a hyphen passes. */
  lemma PhoneLocalFormatAccepted()
    ensures MatchesPhonePattern("(469) 794-5717")
  {
    var s := "(469) 794-5717";
    forall k | 0 <= k < |s| ensures IsPhoneChar(s[k]) {
      assert s[k] in {'(', '4', '6', '9', ')', ' ', '7', '-', '5', '1'};
    }
    assert PhoneParse(s, 0, 0);
  }

  /** An international number with a leading `+` and spaces passes. */
  lemma PhoneInternationalAccepted()
    ensures MatchesPhonePattern("+1 469 794 5717")
  {
    var s := "+1 469 794 5717";
    forall k | 1 <= k < |s| ensures IsPhoneChar(s[k]) {
      assert s[k] in {'1', ' ', '4', '6', '9', '7', '5'};
    }
    assert PhoneParse(s, 1, 1);
  }

  lemma EmailAccepted()
    ensures MatchesEmailPattern("a@b.co")
  {
    var s := "a@b.co";
    assert 0 < 1 && 1 + 1 < 3 && 3 + 1 < |s| && s[1] == '@' && s[3] == '.';
    assert forall k :: 0 <= k < |s| && k != 1 ==> IsEmailChar(s[k]);
  }

  lemma EmailWithoutDotRejected()
    ensures !MatchesEmailPattern("a@b")
  {
  }

  lemma EmailWithEmptyLabelRejected()
    ensures !MatchesEmailPattern("a@.co")
  {
    EmailFormatCorrect("a@.co");
    assert IndexOf("a@.co", '@') == 1;
  }

  // ---------------------------------------------------------------- the field check

  /** What `validateField` decides: whether the value passes and the message
      it shows; the message is `''` when the value passes. */
  datatype Verdict = Verdict(valid: bool, message: string)

  /** `validateField` on a field named `name` holding `raw`, marked required
      or not: trim the value; a required blank value fails with the required
      message and no format check runs; a non-blank value named `email` or
      `phone` is checked against its pattern. */
  function CheckField(name: string, raw: string, required: bool): Verdict {
    var value := Trim(raw);
    if required && value == [] then Verdict(false, REQUIRED_MESSAGE)
    else if value != [] && name == "email" && !IsEmailFormat(value) then Verdict(false, EMAIL_MESSAGE)
    else if value != [] && name == "phone" && !IsPhoneFormat(value) then Verdict(false, PHONE_MESSAGE)
    else Verdict(true, "")
  }

  /** What the field check decides, stated against the regular expressions:
      the message is empty exactly when the value passes; a blank value fails
      only when required, with the required message; a non-blank `email` or
      `phone` value passes exactly when its pattern matches the trimmed
      value; any other non-blank value passes. */
  lemma CheckFieldCorrect(name: string, raw: string, required: bool)
    ensures CheckField(name, raw, required).valid <==> CheckField(name, raw, required).message == ""
    ensures AllSpace(raw) ==>
      CheckField(name, raw, required) == if required then Verdict(false, REQUIRED_MESSAGE) else Verdict(true, "")
    ensures !AllSpace(raw) && name == "email" ==>
      CheckField(name, raw, required)
        == if MatchesEmailPattern(Trim(raw)) then Verdict(true, "") else Verdict(false, EMAIL_MESSAGE)
    ensures !AllSpace(raw) && name == "phone" ==>
      CheckField(name, raw, required)
        == if MatchesPhonePattern(Trim(raw)) then Verdict(true, "") else Verdict(false, PHONE_MESSAGE)
    ensures !AllSpace(raw) && name != "email" && name != "phone" ==> CheckField(name, raw, required).valid
  {
    TrimEmptyIff(raw);
    EmailFormatCorrect(Trim(raw));
    PhoneFormatCorrect(Trim(raw));
  }

  /** Surrounding white space never changes the verdict: the check sees only
      the trimmed value. */
  lemma CheckFieldIgnoresPadding(name: string, raw: string, required: bool)
    ensures CheckField(name, Trim(raw), required) == CheckField(name, raw, required)
  {
    TrimIdempotent(raw);
    TrimEmptyIff(raw);
    TrimEmptyIff(Trim(raw));
  }
}
