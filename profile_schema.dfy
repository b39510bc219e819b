/** The field validators of ProfileBase (schemas/profile.py): strip-and-truncate
    for the free-text fields and the phone-number check. */
module ProfileSchema {
  import opened Common

  // Column widths of the profiles table, which the validators keep values within.
  const NameMax: nat := 255
  const PhoneMax: nat := 50
  const BioMax: nat := 1000
  const OtherMax: nat := 255

  /** The fields that are stripped and truncated. */
  datatype TextField = Name | Bio | Hobby | Occupation | Location

  function MaxLength(field: TextField): nat
  {
    match field
    case Bio => BioMax
    case Name => NameMax
    case _ => OtherMax
  }

  /** str.isspace: the characters Python's str.strip() removes. */
  predicate IsSpace(c: char)
  {
    c == ' ' || '\t' <= c <= '\r' || '\U{1c}' <= c <= '\U{1f}' || c == '\U{85}' || c == '\U{a0}'
    || c == '\U{1680}' || '\U{2000}' <= c <= '\U{200a}' || c == '\U{2028}' || c == '\U{2029}'
    || c == '\U{202f}' || c == '\U{205f}' || c == '\U{3000}'
  }

  /** Drops the leading whitespace. */
  function TrimStart(s: string): (r: string)
    ensures |r| <= |s| && r == s[|s| - |r|..]
    ensures r == [] || !IsSpace(r[0])
    ensures forall i :: 0 <= i < |s| - |r| ==> IsSpace(s[i])
    decreases |s|
  {
    if s != [] && IsSpace(s[0]) then TrimStart(s[1..]) else s
  }

  /** Drops the trailing whitespace. */
  function TrimEnd(s: string): (r: string)
    ensures r <= s
    ensures r == [] || !IsSpace(r[|r| - 1])
    ensures forall i :: |r| <= i < |s| ==> IsSpace(s[i])
    decreases |s|
  {
    if s != [] && IsSpace(s[|s| - 1]) then TrimEnd(s[..|s| - 1]) else s
  }

  /** str.strip(): the input without its leading and trailing whitespace. */
  function Strip(s: string): (r: string)
    ensures r == [] || (!IsSpace(r[0]) && !IsSpace(r[|r| - 1]))
    ensures |r| <= |s|
    ensures r == [] <==> AllSpace(s)
  {
    TrimEnd(TrimStart(s))
  }

  /** s[:n]: the first n characters, or all of them. */
  function Truncate(s: string, n: nat): (r: string)
    ensures |r| == Min(|s|, n) && r <= s
  {
    if |s| > n then s[..n] else s
  }

  predicate AllSpace(s: string)
  {
    forall i :: 0 <= i < |s| ==> IsSpace(s[i])
  }

  lemma {:induction false} TrimStartPadded(pad: string, s: string)
    requires AllSpace(pad) && (s == [] || !IsSpace(s[0]))
    ensures TrimStart(pad + s) == s
    decreases |pad|
  {
    if pad != [] {
      assert (pad + s)[1..] == pad[1..] + s;
      TrimStartPadded(pad[1..], s);
    } else {
      assert pad + s == s;
    }
  }

  lemma {:induction false} TrimEndPadded(s: string, pad: string)
    requires AllSpace(pad) && (s == [] || !IsSpace(s[|s| - 1]))
    ensures TrimEnd(s + pad) == s
    decreases |pad|
  {
    if pad != [] {
      assert (s + pad)[..|s + pad| - 1] == s + pad[..|pad| - 1];
      TrimEndPadded(s, pad[..|pad| - 1]);
    } else {
      assert s + pad == s;
    }
  }

  /** Stripping removes exactly the whitespace padding around a value that
      neither starts nor ends with whitespace. */
  lemma StripPadded(before: string, s: string, after: string)
    requires AllSpace(before) && AllSpace(after)
    requires s == [] || (!IsSpace(s[0]) && !IsSpace(s[|s| - 1]))
    ensures Strip(before + s + after) == s
  {
    if s == [] {
      assert before + s + after == before + after;
      TrimStartPadded(before + after, "");
      assert before + after + "" == before + after;
    } else {
      assert before + s + after == before + (s + after);
      TrimStartPadded(before, s + after);
      TrimEndPadded(s, after);
    }
  }

  /** A value that neither starts nor ends with whitespace is its own strip. */
  lemma StripUnpadded(s: string)
    requires s == [] || (!IsSpace(s[0]) && !IsSpace(s[|s| - 1]))
    ensures Strip(s) == s
  {
    assert TrimStart(s) == s;
  }

  /** Stripping twice is stripping once. */
  lemma StripIdempotent(s: string)
    ensures Strip(Strip(s)) == Strip(s)
  {
    var t := Strip(s);
    StripUnpadded(t);
  }

  /** _strip_and_truncate: None stays None; a value is stripped and cut to the
      field's maximum length. The result is the start of the stripped value,
      as long as the column allows, and never starts with whitespace. */
  function StripAndTruncate(v: Option<string>, field: TextField): (r: Option<string>)
    ensures r.None? <==> v.None?
    ensures r.Some? ==> r.value <= Strip(v.value) && |r.value| == Min(|Strip(v.value)|, MaxLength(field))
    ensures r.Some? ==> r.value == [] || !IsSpace(r.value[0])
    ensures FitsColumn(r, MaxLength(field))
  {
    if v.None? then None else Some(Truncate(Strip(v.value), MaxLength(field)))
  }

  /** A value that fits its column is left as it is by a second pass. */
  lemma StripAndTruncateStableWhenShort(v: string, field: TextField)
    requires |Strip(v)| <= MaxLength(field)
    ensures StripAndTruncate(StripAndTruncate(Some(v), field), field) == StripAndTruncate(Some(v), field)
  {
    StripIdempotent(v);
  }

  /** But the validator is not idempotent: a value one character longer than
      the column, whose cut falls just after a blank ("a…a b"), keeps that
      blank after one pass and loses it on the second. */
  lemma StripAndTruncateNotIdempotent(a: string, c: char, field: TextField)
    requires |a| + 1 == MaxLength(field) && a != [] && !IsSpace(a[0]) && !IsSpace(a[|a| - 1]) && !IsSpace(c)
    ensures StripAndTruncate(Some(a + [' ', c]), field) == Some(a + [' '])
    ensures StripAndTruncate(Some(a + [' ']), field) == Some(a)
  {
    FirstPassKeepsBlank(a, c, field);
    SecondPassDropsBlank(a, field);
  }

  lemma FirstPassKeepsBlank(a: string, c: char, field: TextField)
    requires |a| + 1 == MaxLength(field) && a != [] && !IsSpace(a[0]) && !IsSpace(c)
    ensures StripAndTruncate(Some(a + [' ', c]), field) == Some(a + [' '])
  {
    StripBlankInside(a, c);
    TruncateDropsLast(a, c, MaxLength(field));
  }

  lemma SecondPassDropsBlank(a: string, field: TextField)
    requires |a| + 1 == MaxLength(field) && a != [] && !IsSpace(a[0]) && !IsSpace(a[|a| - 1])
    ensures StripAndTruncate(Some(a + [' ']), field) == Some(a)
  {
    StripBlankEnd(a);
  }

  lemma StripBlankInside(a: string, c: char)
    requires a != [] && !IsSpace(a[0]) && !IsSpace(c)
    ensures Strip(a + [' ', c]) == a + [' ', c]
  {
    var v := a + [' ', c];
    assert TrimStart(v) == v by { assert v[0] == a[0]; }
    assert TrimEnd(v) == v by { assert v[|v| - 1] == c; }
  }

  lemma TruncateDropsLast(a: string, c: char, n: nat)
    requires |a| + 1 == n
    ensures Truncate(a + [' ', c], n) == a + [' ']
  {
    var v := a + [' ', c];
    assert v[..n] == a + [' '];
  }

  lemma StripBlankEnd(a: string)
    requires a != [] && !IsSpace(a[0]) && !IsSpace(a[|a| - 1])
    ensures Strip(a + [' ']) == a
  {
    var pad := [' '];
    assert AllSpace(pad);
    var s := a + pad;
    assert s[0] == a[0];
    assert TrimStart(s) == s;
    TrimEndPadded(a, pad);
  }

  /** A name padded with whitespace comes back without the padding, cut to
      255 characters (a 300-character name gives its first 255). */
  lemma PaddedValueTrimmedAndCut(before: string, s: string, after: string, field: TextField)
    requires AllSpace(before) && AllSpace(after)
    requires s == [] || (!IsSpace(s[0]) && !IsSpace(s[|s| - 1]))
    ensures StripAndTruncate(Some(before + s + after), field) == Some(Truncate(s, MaxLength(field)))
  {
    StripPadded(before, s, after);
  }

  /** "+" followed by one or more digits. */
  predicate IsPhoneNumber(s: string)
  {
    |s| >= 2 && s[0] == '+' && forall i :: 1 <= i < |s| ==> IsDigit(s[i])
  }

  /** re.match(r"^\+\d+$", s) as Python evaluates it: without MULTILINE, `$`
      matches at the end and also just before a newline that ends the string. */
  predicate PhonePatternMatches(s: string)
  {
    IsPhoneNumber(s) || (|s| >= 3 && s[|s| - 1] == '\n' && IsPhoneNumber(s[..|s| - 1]))
  }

  datatype PhoneError = InvalidPhoneFormat

  /** The value the phone check looks at: stripped, then cut to 50. */
  function PhoneCandidate(v: string): (r: string)
    ensures |r| == Min(|Strip(v)|, PhoneMax) && r <= Strip(v)
  {
    Truncate(Strip(v), PhoneMax)
  }

  /** _validate_phone as written, with Python's `$`. */
  function ValidatePhoneAsWritten(v: Option<string>): (r: Result<Option<string>, PhoneError>)
    ensures r == Ok(None) <==> v.None? || PhoneCandidate(v.value) == ""
    ensures r.Err? <==> v.Some? && PhoneCandidate(v.value) != "" && !PhonePatternMatches(PhoneCandidate(v.value))
    ensures r.Ok? && r.value.Some? ==> v.Some? && PhonePatternMatches(r.value.value) && r.value.value == PhoneCandidate(v.value)
  {
    if v.None? then Ok(None)
    else
      var s := PhoneCandidate(v.value);
      if s == "" then Ok(None)
      else if !PhonePatternMatches(s) then Err(InvalidPhoneFormat)
      else Ok(Some(s))
  }

  /** _validate_phone as intended: None and blank input give None; any other
      value must be, after stripping and cutting to 50, "+" and digits only,
      and that is what is kept. */
  function ValidatePhone(v: Option<string>): (r: Result<Option<string>, PhoneError>)
    ensures r == Ok(None) <==> v.None? || PhoneCandidate(v.value) == ""
    ensures r.Err? <==> v.Some? && PhoneCandidate(v.value) != "" && !IsPhoneNumber(PhoneCandidate(v.value))
    ensures r.Ok? && r.value.Some? ==> IsPhoneNumber(r.value.value) && 2 <= |r.value.value| <= PhoneMax
    ensures r.Ok? && r.value.Some? ==> r.value.value == PhoneCandidate(v.value)
  {
    if v.None? then Ok(None)
    else
      var s := PhoneCandidate(v.value);
      if s == "" then Ok(None)
      else if !IsPhoneNumber(s) then Err(InvalidPhoneFormat)
      else Ok(Some(s))
  }

  /** An accepted phone number passes the check again unchanged. */
  lemma ValidatePhoneStable(p: string)
    requires IsPhoneNumber(p) && |p| <= PhoneMax
    ensures ValidatePhone(Some(p)) == Ok(Some(p))
  {
    assert !IsSpace(p[0]) && !IsSpace(p[|p| - 1]);
    CandidateOfUnpadded(p);
  }

  /** The phone check looks at the first 50 characters of a value without
      surrounding whitespace. */
  lemma CandidateOfUnpadded(v: string)
    requires v == [] || (!IsSpace(v[0]) && !IsSpace(v[|v| - 1]))
    ensures PhoneCandidate(v) == Truncate(v, PhoneMax)
  {
    StripUnpadded(v);
  }

  /** The two phone checks differ only on a value whose cut exposes a newline:
      the as-written check then accepts "+digits\n". Without the cut, the
      stripped value never ends in a newline and the two agree. */
  lemma PhoneChecksDifferOnlyAfterCut(v: Option<string>)
    requires ValidatePhoneAsWritten(v) != ValidatePhone(v)
    ensures v.Some? && |Strip(v.value)| > PhoneMax
    ensures ValidatePhoneAsWritten(v) == Ok(Some(PhoneCandidate(v.value)))
    ensures ValidatePhone(v) == Err(InvalidPhoneFormat)
    ensures PhoneCandidate(v.value)[|PhoneCandidate(v.value)| - 1] == '\n'
  {
    var s := PhoneCandidate(v.value);
    assert !IsPhoneNumber(s) && PhonePatternMatches(s);
    assert s[|s| - 1] == '\n' && IsSpace('\n');
    CandidateEndsInSpaceOnlyAfterCut(v.value);
  }

  /** Only the cut can leave whitespace at the end of the candidate. */
  lemma CandidateEndsInSpaceOnlyAfterCut(v: string)
    requires PhoneCandidate(v) != [] && IsSpace(PhoneCandidate(v)[|PhoneCandidate(v)| - 1])
    ensures |Strip(v)| > PhoneMax
  {
  }

  /** The counterexample: "+", 48 ones, a newline and a digit. The as-written
      check keeps "+<48 ones>\n"; the intended check refuses it. */
  lemma TrailingNewlineAccepted()
    ensures var v := "+" + seq(48, _ => '1') + "\n2";
            ValidatePhoneAsWritten(Some(v)) == Ok(Some("+" + seq(48, _ => '1') + "\n"))
            && ValidatePhone(Some(v)) == Err(InvalidPhoneFormat)
  {
    var ones := seq(48, _ => '1');
    var v := "+" + ones + "\n2";
    assert v[0] == '+' && v[|v| - 1] == '2';
    CandidateOfUnpadded(v);
    var s := PhoneCandidate(v);
    assert s == "+" + ones + "\n";
    assert s[..|s| - 1] == "+" + ones;
    assert IsPhoneNumber(s[..|s| - 1]);
    assert !IsPhoneNumber(s) by {
      assert s[|s| - 1] == '\n';
    }
  }

  predicate AllDigits(s: string)
  {
    forall i :: 0 <= i < |s| ==> IsDigit(s[i])
  }

  /** A padded "+<digits>" ("  +1234567890 ") is accepted without its padding. */
  lemma PaddedPhoneAccepted(before: string, digits: string, after: string)
    requires AllSpace(before) && AllSpace(after)
    requires |digits| >= 1 && AllDigits(digits) && |digits| < PhoneMax
    ensures ValidatePhone(Some(before + ("+" + digits) + after)) == Ok(Some("+" + digits))
  {
    var p := "+" + digits;
    PlusDigitsIsPhoneNumber(digits);
    StripPadded(before, p, after);
    AcceptedWhenStripsToNumber(before + p + after, p);
  }

  lemma AcceptedWhenStripsToNumber(v: string, p: string)
    requires Strip(v) == p && IsPhoneNumber(p) && |p| <= PhoneMax
    ensures ValidatePhone(Some(v)) == Ok(Some(p))
  {
    assert PhoneCandidate(v) == p;
  }

  lemma PlusDigitsIsPhoneNumber(digits: string)
    requires |digits| >= 1 && AllDigits(digits)
    ensures var p := "+" + digits; IsPhoneNumber(p) && !IsSpace(p[0]) && !IsSpace(p[|p| - 1])
  {
    var p := "+" + digits;
    assert forall i :: 1 <= i < |p| ==> p[i] == digits[i - 1];
  }

  /** Digits without the leading "+" ("12345") are refused. */
  lemma PhoneWithoutPlusRejected(digits: string)
    requires |digits| >= 1 && AllDigits(digits)
    ensures ValidatePhone(Some(digits)) == Err(InvalidPhoneFormat)
  {
    assert IsDigit(digits[0]) && IsDigit(digits[|digits| - 1]);
    CandidateOfUnpadded(digits);
    assert PhoneCandidate(digits)[0] == digits[0];
  }

  /** "+", digits, one character that is not a digit ("+12 345", "+12a34"),
      digits: refused, as long as that character lies within the first 50
      (beyond them it is cut off before the check). */
  lemma PhoneWithNonDigitRejected(a: string, x: char, b: string)
    requires |a| >= 1 && |b| >= 1 && AllDigits(a) && AllDigits(b) && !IsDigit(x)
    requires |a| + 1 < PhoneMax
    ensures ValidatePhone(Some("+" + a + [x] + b)) == Err(InvalidPhoneFormat)
  {
    var v := "+" + a + [x] + b;
    assert v[0] == '+' && v[|v| - 1] == b[|b| - 1] && IsDigit(b[|b| - 1]);
    CandidateOfUnpadded(v);
    var s := Truncate(v, PhoneMax);
    assert |s| > |a| + 1 by {
      assert |v| >= |a| + 3;
    }
    assert s[|a| + 1] == x;
  }

  /** The inputs a profile schema is built from. */
  datatype ProfileFields = ProfileFields(
    name: Option<string>, phone: Option<string>, bio: Option<string>,
    hobby: Option<string>, occupation: Option<string>, location: Option<string>)

  predicate FitsColumn(v: Option<string>, width: nat)
  {
    v.Some? ==> |v.value| <= width
  }

  /** The text fields of a profile, each stripped and cut to its column, with
      the given phone value. */
  function WithPhone(p: ProfileFields, phone: Option<string>): (r: ProfileFields)
    ensures r.phone == phone
    ensures r.name == StripAndTruncate(p.name, Name) && r.bio == StripAndTruncate(p.bio, Bio)
            && r.hobby == StripAndTruncate(p.hobby, Hobby) && r.occupation == StripAndTruncate(p.occupation, Occupation)
            && r.location == StripAndTruncate(p.location, Location)
    ensures FitsColumn(r.name, NameMax) && FitsColumn(r.bio, BioMax) && FitsColumn(r.hobby, OtherMax)
            && FitsColumn(r.occupation, OtherMax) && FitsColumn(r.location, OtherMax)
  {
    ProfileFields(
      StripAndTruncate(p.name, Name), phone, StripAndTruncate(p.bio, Bio),
      StripAndTruncate(p.hobby, Hobby), StripAndTruncate(p.occupation, Occupation),
      StripAndTruncate(p.location, Location))
  }

  /** Building a ProfileBase runs every field's validator; only the phone can
      refuse, and it refuses exactly as _validate_phone as written does. Every
      value kept fits its column of the profiles table. */
  function ValidateProfile(p: ProfileFields): (r: Result<ProfileFields, PhoneError>)
    ensures r.Err? <==> ValidatePhoneAsWritten(p.phone).Err?
    ensures r.Ok? ==> r.value == WithPhone(p, ValidatePhoneAsWritten(p.phone).value)
    ensures r.Ok? && r.value.phone.Some? ==> PhonePatternMatches(r.value.phone.value)
    ensures r.Ok? ==> FitsColumn(r.value.name, NameMax) && FitsColumn(r.value.phone, PhoneMax)
                      && FitsColumn(r.value.bio, BioMax) && FitsColumn(r.value.hobby, OtherMax)
                      && FitsColumn(r.value.occupation, OtherMax) && FitsColumn(r.value.location, OtherMax)
  {
    match ValidatePhoneAsWritten(p.phone)
    case Err(e) => Err(e)
    case Ok(phone) => Ok(WithPhone(p, phone))
  }

  /** ProfileBase with the intended phone check: a kept phone number is "+"
      and digits only. */
  function ValidateProfileIntended(p: ProfileFields): (r: Result<ProfileFields, PhoneError>)
    ensures r.Err? <==> ValidatePhone(p.phone).Err?
    ensures r.Ok? ==> r.value == WithPhone(p, ValidatePhone(p.phone).value)
    ensures r.Ok? && r.value.phone.Some? ==> IsPhoneNumber(r.value.phone.value)
    ensures r.Ok? ==> FitsColumn(r.value.name, NameMax) && FitsColumn(r.value.phone, PhoneMax)
                      && FitsColumn(r.value.bio, BioMax) && FitsColumn(r.value.hobby, OtherMax)
                      && FitsColumn(r.value.occupation, OtherMax) && FitsColumn(r.value.location, OtherMax)
  {
    match ValidatePhone(p.phone)
    case Err(e) => Err(e)
    case Ok(phone) => Ok(WithPhone(p, phone))
  }

  /** The two profile checks agree except on a phone whose cut to 50 ends in a
      newline: that profile is built as written and refused as intended. */
  lemma ProfilesDifferOnlyOnPhoneNewline(p: ProfileFields)
    requires ValidateProfile(p) != ValidateProfileIntended(p)
    ensures p.phone.Some? && |Strip(p.phone.value)| > PhoneMax
    ensures ValidateProfile(p).Ok? && ValidateProfileIntended(p).Err?
    ensures ValidateProfile(p).value.phone == Some(PhoneCandidate(p.phone.value))
    ensures PhoneCandidate(p.phone.value)[|PhoneCandidate(p.phone.value)| - 1] == '\n'
  {
    if ValidatePhoneAsWritten(p.phone) == ValidatePhone(p.phone) {
      assert false;
    }
    PhoneChecksDifferOnlyAfterCut(p.phone);
  }

  /** The counterexample as a whole profile: a phone of "+", 48 ones, a newline
      and a digit, with no other field, is built as written with the phone
      "+<48 ones>\n", and refused as intended. */
  lemma TrailingNewlineProfileBuilt()
    ensures var v := "+" + seq(48, _ => '1') + "\n2";
            var p := ProfileFields(None, Some(v), None, None, None, None);
            ValidateProfile(p) == Ok(ProfileFields(None, Some("+" + seq(48, _ => '1') + "\n"), None, None, None, None))
            && ValidateProfileIntended(p) == Err(InvalidPhoneFormat)
  {
    TrailingNewlineAccepted();
  }
  /** A "+digits" value without padding is kept as it is by the phone check as
      written. */
  lemma PlainPhoneKept(v: string)
    requires IsPhoneNumber(v) && |v| <= PhoneMax
    ensures ValidatePhoneAsWritten(Some(v)) == Ok(Some(v))
  {
    assert !IsSpace(v[0]) && !IsSpace(v[|v| - 1]);
    CandidateOfUnpadded(v);
  }

  /** A profile with a padded 300-character name, a padded bio and hobby and
      the phone "+1234567890": the name is cut to 255, the others are trimmed,
      and the phone is kept. */
  lemma ProfileTrimsAndTruncates()
    ensures var p := ProfileFields(Some("  " + seq(300, _ => 'A') + "  "), Some("+1234567890"),
                                   Some("  Some bio "), Some(" hobby "), None, None);
            ValidateProfile(p) == Ok(ProfileFields(Some(seq(255, _ => 'A')), Some("+1234567890"),
                                                   Some("Some bio"), Some("hobby"), None, None))
  {
    LongNameCut();
    ShortBioTrimmed();
    HobbyTrimmed();
    SamplePhoneKept();
  }

  lemma LongNameCut()
    ensures StripAndTruncate(Some("  " + seq(300, _ => 'A') + "  "), Name) == Some(seq(255, _ => 'A'))
  {
    var longName := seq(300, _ => 'A');
    PaddedValueTrimmedAndCut("  ", longName, "  ", Name);
    assert Truncate(longName, NameMax) == seq(255, _ => 'A');
  }

  lemma ShortBioTrimmed()
    ensures StripAndTruncate(Some("  Some bio "), Bio) == Some("Some bio")
  {
    assert "  " + "Some bio" + " " == "  Some bio ";
    PaddedWordTrimmed("  ", "Some bio", " ", Bio);
  }

  lemma HobbyTrimmed()
    ensures StripAndTruncate(Some(" hobby "), Hobby) == Some("hobby")
  {
    assert " " + "hobby" + " " == " hobby ";
    PaddedWordTrimmed(" ", "hobby", " ", Hobby);
  }

  lemma JohnDoeTrimmed()
    ensures StripAndTruncate(Some("  John Doe  "), Name) == Some("John Doe")
  {
    assert "  " + "John Doe" + "  " == "  John Doe  ";
    PaddedWordTrimmed("  ", "John Doe", "  ", Name);
  }

  lemma SamplePhoneKept()
    ensures ValidatePhoneAsWritten(Some("+1234567890")) == Ok(Some("+1234567890"))
  {
    PlainPhoneKept("+1234567890");
  }

  lemma PaddedWordTrimmed(before: string, s: string, after: string, field: TextField)
    requires AllSpace(before) && AllSpace(after) && s != [] && |s| <= MaxLength(field)
    requires !IsSpace(s[0]) && !IsSpace(s[|s| - 1])
    ensures StripAndTruncate(Some(before + s + after), field) == Some(s)
  {
    PaddedValueTrimmedAndCut(before, s, after, field);
  }

  /** A padded name is trimmed, and a bio of 1200 characters is cut to the
      1000 of its column. */
  lemma ProfileBioCutToColumn()
    ensures var p := ProfileFields(Some("  John Doe  "), None, Some("  " + seq(1200, _ => 'b') + "  "),
                                   None, None, None);
            && ValidateProfile(p).Ok?
            && ValidateProfile(p).value.name == Some("John Doe")
            && ValidateProfile(p).value.bio.Some? && |ValidateProfile(p).value.bio.value| == 1000
  {
    JohnDoeTrimmed();
    LongBioCut();
  }

  lemma LongBioCut()
    ensures var r := StripAndTruncate(Some("  " + seq(1200, _ => 'b') + "  "), Bio);
            r.Some? && |r.value| == 1000
  {
    PaddedValueTrimmedAndCut("  ", seq(1200, _ => 'b'), "  ", Bio);
  }
}
