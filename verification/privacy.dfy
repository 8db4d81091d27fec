/** The diary privacy enum (`PrivacyOptions`) and the request field that
    reads and writes it (`PrivacyStringField`). */
module Privacy {
  import opened Wrappers
  import opened Fields

  datatype PrivacyOption = PRIVATE | PUBLIC

  /** The privacy a diary gets when none is given. */
  const DefaultPrivacy: PrivacyOption := PRIVATE

  /** The enum member's value, which is also its name. */
  function Name(p: PrivacyOption): string {
    match p
    case PRIVATE => "PRIVATE"
    case PUBLIC => "PUBLIC"
  }

  /** Enum lookup by value, `PrivacyOptions(s)`; `None` where Python raises `ValueError`. */
  function FromValue(s: string): (r: Option<PrivacyOption>)
    ensures r.Some? <==> s == "PRIVATE" || s == "PUBLIC"
    ensures r.Some? ==> Name(r.value) == s
  {
    if s == "PRIVATE" then Some(PRIVATE)
    else if s == "PUBLIC" then Some(PUBLIC)
    else None
  }

  /** The enum has exactly two members, told apart by their values. */
  lemma FromValueInvertsName(p: PrivacyOption, s: string)
    ensures FromValue(Name(p)) == Some(p)
    ensures FromValue(s) == Some(p) <==> s == Name(p)
  {
  }

  /** Python's `str.upper` on one character, for the characters whose upper
      case is a single ASCII letter: a-z, dotless i (U+0131) and long s (U+017F).
      Every other character is kept. */
  function UpperChar(c: char): char {
    if 'a' <= c <= 'z' then (c as int - 32) as char
    else if c as int == 0x131 then 'I'
    else if c as int == 0x17F then 'S'
    else c
  }

  /** `str.upper` over the characters `UpperChar` covers: the length is
      kept, no ASCII lower-case letter is left, an upper-case letter, a
      digit or a space is never changed, and a changed character becomes an
      ASCII upper-case letter. */
  function Upper(s: string): (r: string)
    ensures |r| == |s|
    ensures forall k :: 0 <= k < |r| ==> !('a' <= r[k] <= 'z')
    ensures forall k :: 0 <= k < |s| && ('A' <= s[k] <= 'Z' || '0' <= s[k] <= '9' || s[k] == ' ') ==> r[k] == s[k]
    ensures forall k :: 0 <= k < |s| && r[k] != s[k] ==> 'A' <= r[k] <= 'Z'
  {
    seq(|s|, k requires 0 <= k < |s| => UpperChar(s[k]))
  }

  /** Upper-casing twice is upper-casing once. */
  lemma UpperIdempotent(s: string)
    ensures Upper(Upper(s)) == Upper(s)
  {
    var u := Upper(s);
    assert forall k :: 0 <= k < |u| ==> Upper(u)[k] == u[k];
  }

  const InvalidPrivacyMessage := "Invalid enum value, must be one of [PUBLIC, PRIVATE]"

  /** `PrivacyStringField._serialize`: nothing stays nothing, a member becomes its value. */
  function Serialize(p: Option<PrivacyOption>): (r: Option<string>)
    ensures r.None? <==> p.None?
    ensures r.Some? ==> FromValue(r.value) == p
  {
    match p
    case None => None
    case Some(q) => Some(Name(q))
  }

  /** `PrivacyStringField._deserialize`: null stays null; anything else is
      upper-cased and looked up, and a failed lookup is a validation error.
      `str()` of a number, boolean, list or object never spells a member, so
      only strings can succeed. */
  function Deserialize(v: Value): (r: Result<Option<PrivacyOption>, FieldError>)
    ensures r == Success(None) <==> v == VNull
    ensures r.Failure? ==> r.error == InvalidChoice(InvalidPrivacyMessage)
    ensures v.VStr? ==> (r.Success? <==> Upper(v.s) == "PUBLIC" || Upper(v.s) == "PRIVATE")
    ensures r.Success? && r.value.Some? ==> v.VStr? && Upper(v.s) == Name(r.value.value)
    ensures !v.VStr? && v != VNull ==> r.Failure?
  {
    match v
    case VNull => Success(None)
    case VStr(s) =>
      (match FromValue(Upper(s))
       case Some(p) => Success(Some(p))
       case None => Failure(InvalidChoice(InvalidPrivacyMessage)))
    case _ => Failure(InvalidChoice(InvalidPrivacyMessage))
  }

  /** Reading back what was written gives the same privacy. */
  lemma DeserializeSerialize(p: Option<PrivacyOption>)
    ensures p.Some? ==> Deserialize(VStr(Serialize(p).value)) == Success(p)
  {
    if p.Some? {
      var s := Name(p.value);
      assert Upper(s) == s;
    }
  }

  /** `s` is `word` written in any mix of upper and lower case. */
  ghost predicate AnyCasing(s: string, word: string) {
    && |s| == |word|
    && forall k :: 0 <= k < |s| ==>
         s[k] == word[k] || ('A' <= word[k] <= 'Z' && s[k] as int == word[k] as int + 32)
  }

  /** Reading is case-insensitive: every casing of a member's value reads as that member. */
  lemma DeserializeIgnoresCase(s: string, p: PrivacyOption)
    requires AnyCasing(s, Name(p))
    ensures Deserialize(VStr(s)) == Success(Some(p))
  {
    assert Upper(s) == Name(p);
  }

  /** The error for an unknown value names both allowed values. */
  lemma InvalidMessageNamesChoices(p: PrivacyOption)
    ensures exists i, j :: 0 <= i <= j <= |InvalidPrivacyMessage| && InvalidPrivacyMessage[i..j] == Name(p)
  {
    if p == PUBLIC {
      assert InvalidPrivacyMessage[36..42] == "PUBLIC";
    } else {
      assert InvalidPrivacyMessage[44..51] == "PRIVATE";
    }
  }
}
