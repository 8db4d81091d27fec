/** Request-field sanitising: the `TrimmedString` field that strips a string
    before the ordinary string field validates it, and the required/non-empty
    rule the schemas put on titles, contents and tag names. */
module Fields {
  import opened Wrappers

  /** A JSON value as it arrives in a request body. Booleans, floats, lists
      and objects behave alike here and are collapsed into `VOther`. */
  datatype Value = VStr(s: string) | VInt(i: int) | VNull | VOther

  /** Why a field failed to load. */
  datatype FieldError =
    | Missing                   // a required key is absent
    | Null                      // null where the field does not allow it
    | NotAString                // a string field got another JSON type
    | TooShort(message: string) // the `Length(min=1)` validator failed
    | InvalidChoice(message: string)

  /** Python's `str.isspace`: the characters `str.strip()` removes. */
  predicate IsSpace(c: char) {
    var n := c as int;
    || 0x09 <= n <= 0x0D || 0x1C <= n <= 0x20 || n == 0x85 || n == 0xA0
    || n == 0x1680 || 0x2000 <= n <= 0x200A || n == 0x2028 || n == 0x2029
    || n == 0x202F || n == 0x205F || n == 0x3000
  }

  ghost predicate AllSpace(s: string) {
    forall k :: 0 <= k < |s| ==> IsSpace(s[k])
  }

  /** Neither the first nor the last character is whitespace. */
  ghost predicate NoEdgeSpace(s: string) {
    s == [] || (!IsSpace(s[0]) && !IsSpace(s[|s| - 1]))
  }

  /** Where the whitespace run starting at index `n` of `s` ends. */
  function SkipSpace(s: string, n: nat): (m: nat)
    requires n <= |s|
    ensures n <= m <= |s|
    ensures forall k :: n <= k < m ==> IsSpace(s[k])
    ensures m == |s| || !IsSpace(s[m])
    decreases |s| - n
  {
    if n < |s| && IsSpace(s[n]) then SkipSpace(s, n + 1) else n
  }

  /** Where the whitespace run ending just before index `n` of `s` starts. */
  function SkipSpaceBack(s: string, n: nat): (m: nat)
    requires n <= |s|
    ensures m <= n
    ensures forall k :: m <= k < n ==> IsSpace(s[k])
    ensures m == 0 || !IsSpace(s[m - 1])
    decreases n
  {
    if n > 0 && IsSpace(s[n - 1]) then SkipSpaceBack(s, n - 1) else n
  }

  /** `s` without its leading whitespace: the longest suffix not starting with whitespace. */
  function TrimStart(s: string): (r: string)
    ensures |r| <= |s| && r == s[|s| - |r|..]
    ensures AllSpace(s[..|s| - |r|])
    ensures r == [] || !IsSpace(r[0])
  {
    s[SkipSpace(s, 0)..]
  }

  /** `s` without its trailing whitespace: the longest prefix not ending in whitespace. */
  function TrimEnd(s: string): (r: string)
    ensures |r| <= |s| && r == s[..|r|]
    ensures AllSpace(s[|r|..])
    ensures r == [] || !IsSpace(r[|r| - 1])
  {
    s[..SkipSpaceBack(s, |s|)]
  }

  /** Python's `str.strip()` with no argument. */
  function Strip(s: string): (r: string)
    ensures NoEdgeSpace(r)
    ensures |r| <= |s|
  {
    TrimEnd(TrimStart(s))
  }

  /** What `Strip` leaves is the infix of `s` that starts after the leading
      whitespace, with only whitespace before it and after it. */
  lemma StripCutsWhitespaceEnds(s: string)
    ensures var i := |s| - |TrimStart(s)|;
      && i + |Strip(s)| <= |s|
      && Strip(s) == s[i..i + |Strip(s)|]
      && AllSpace(s[..i]) && AllSpace(s[i + |Strip(s)|..])
  {
    StripIsInfix(s);
    StripLeavesTrailingSpace(s);
  }

  lemma StripIsInfix(s: string)
    ensures var i := |s| - |TrimStart(s)|;
      && i + |Strip(s)| <= |s|
      && Strip(s) == s[i..i + |Strip(s)|]
  {
    var i := SkipSpace(s, 0);
    var a := s[i..];
    var m := SkipSpaceBack(a, |a|);
    assert TrimStart(s) == a && Strip(s) == a[..m];
    SliceOfSuffix(s, i, m);
  }

  lemma SliceOfSuffix(s: string, i: nat, m: nat)
    requires i + m <= |s|
    ensures s[i..][..m] == s[i..i + m]
  {
  }

  lemma StripLeavesTrailingSpace(s: string)
    ensures var i := |s| - |TrimStart(s)|;
      i + |Strip(s)| <= |s| && AllSpace(s[i + |Strip(s)|..])
  {
    var i := |s| - |TrimStart(s)|;
    PrefixOfSuffix(s, TrimStart(s), Strip(s), i);
  }

  /** A prefix `r` of the suffix `a` of `s` starting at `i` is an infix of
      `s`, and what follows it in `a` is what follows it in `s`. */
  lemma PrefixOfSuffix(s: string, a: string, r: string, i: nat)
    requires i + |a| == |s| && a == s[i..]
    requires |r| <= |a| && r == a[..|r|]
    ensures i + |r| <= |s|
    ensures r == s[i..i + |r|]
    ensures a[|r|..] == s[i + |r|..]
  {
  }

  /** Stripping is idempotent: a stripped string has nothing left to strip. */
  lemma StripIdempotent(s: string)
    ensures Strip(Strip(s)) == Strip(s)
  {
    var r := Strip(s);
    assert TrimStart(r) == r;
    assert TrimEnd(r) == r;
  }

  /** A string strips to "" exactly when it consists of whitespace only. */
  lemma StripEmptyIffAllSpace(s: string)
    ensures Strip(s) == [] <==> AllSpace(s)
  {
    var a := TrimStart(s);
    assert a[0..] == a;
    assert s[..|s|] == s;
  }

  /** The strip step of `TrimmedString._deserialize`: a string is replaced by
      its stripped form, any other value passes through unchanged. */
  function StripValue(v: Value): (r: Value)
    ensures r.VStr? <==> v.VStr?
    ensures !v.VStr? ==> r == v
    ensures v.VStr? ==> NoEdgeSpace(r.s) && |r.s| <= |v.s| && r.s == Strip(v.s)
  {
    match v
    case VStr(s) => VStr(Strip(s))
    case _ => v
  }

  /** A required `TrimmedString` field with the `Length(min=1)` validator:
      missing and null are refused first, then a non-string value, then a
      value that is empty once stripped. */
  function LoadText(field: Option<Value>, emptyMessage: string): (r: Result<string, FieldError>)
    ensures r.Success? <==> field.Some? && field.value.VStr? && Strip(field.value.s) != []
    ensures r.Success? ==> r.value == Strip(field.value.s) && r.value != [] && NoEdgeSpace(r.value)
    ensures field.None? ==> r == Failure(Missing)
    ensures field == Some(VNull) ==> r == Failure(Null)
    ensures field.Some? && field.value != VNull && !field.value.VStr? ==> r == Failure(NotAString)
    ensures field.Some? && field.value.VStr? && AllSpace(field.value.s) ==> r == Failure(TooShort(emptyMessage))
  {
    if field.None? then Failure(Missing)
    else if field.value == VNull then Failure(Null)
    else
      var stripped := StripValue(field.value);
      if stripped.VStr? then
        StripEmptyIffAllSpace(field.value.s);
        if |stripped.s| >= 1 then Success(stripped.s) else Failure(TooShort(emptyMessage))
      else Failure(NotAString)
  }
}
