/** Loading request bodies with the marshmallow schemas of the entry, diary,
    comment and like resources. Only the fields the handlers read are
    modelled; integer fields arrive already as integers. */
module Schemas {
  import opened Wrappers
  import opened Fields
  import opened Privacy

  const EntryEmptyMessage := "Entry content cannot be empty"
  const DiaryTitleEmptyMessage := "Diary Title cannot be empty"
  const CommentEmptyMessage := "Comment cannot be empty"
  const TagNameEmptyMessage := "Tag name cannot be empty"

  /** A required integer field: only its presence is checked here. */
  function LoadId(field: Option<int>): (r: Result<int, FieldError>)
    ensures r.Success? <==> field.Some?
    ensures r.Success? ==> r.value == field.value
  {
    match field
    case None => Failure(Missing)
    case Some(i) => Success(i)
  }

  datatype EntryBody = EntryBody(content: Option<Value>, diaryId: Option<int>)
  datatype EntryData = EntryData(content: string, diaryId: int)

  /** `EntrySchema.load`: `content` is a required trimmed string of length at
      least one, `diary_id` a required integer. */
  function LoadEntry(b: EntryBody): (r: Result<EntryData, FieldError>)
    ensures r.Success? <==> b.content.Some? && b.content.value.VStr?
                            && Strip(b.content.value.s) != [] && b.diaryId.Some?
    ensures r.Success? ==> r.value.content == Strip(b.content.value.s)
                           && r.value.diaryId == b.diaryId.value
  {
    match LoadText(b.content, EntryEmptyMessage)
    case Failure(e) => Failure(e)
    case Success(content) =>
      match LoadId(b.diaryId)
      case Failure(e) => Failure(e)
      case Success(d) => Success(EntryData(content, d))
  }

  datatype CommentBody = CommentBody(content: Option<Value>, entryId: Option<int>)
  datatype CommentData = CommentData(content: string, entryId: int)

  /** `CommentSchema.load`: `content` is a required trimmed string of length
      at least one, `entry_id` a required integer. */
  function LoadComment(b: CommentBody): (r: Result<CommentData, FieldError>)
    ensures r.Success? <==> b.content.Some? && b.content.value.VStr?
                            && Strip(b.content.value.s) != [] && b.entryId.Some?
    ensures r.Success? ==> r.value.content == Strip(b.content.value.s)
                           && r.value.entryId == b.entryId.value
  {
    match LoadText(b.content, CommentEmptyMessage)
    case Failure(e) => Failure(e)
    case Success(content) =>
      match LoadId(b.entryId)
      case Failure(e) => Failure(e)
      case Success(i) => Success(CommentData(content, i))
  }

  datatype LikeBody = LikeBody(entryId: Option<int>)

  /** `LikeSchema.load`: `entry_id` is a required integer. */
  function LoadLike(b: LikeBody): (r: Result<int, FieldError>)
    ensures r.Success? <==> b.entryId.Some?
    ensures r.Success? ==> r.value == b.entryId.value
  {
    LoadId(b.entryId)
  }

  datatype DiaryBody = DiaryBody(title: Option<Value>, privacy: Option<Value>)
  datatype DiaryData = DiaryData(title: string, privacy: Option<PrivacyOption>)

  /** The optional `privacy` field: absent stays absent, null is refused
      before the field's own reader runs, anything else goes through
      `PrivacyStringField._deserialize`. */
  function LoadPrivacy(field: Option<Value>): (r: Result<Option<PrivacyOption>, FieldError>)
    ensures field.None? ==> r == Success(None)
    ensures field == Some(VNull) ==> r == Failure(Null)
    ensures field.Some? && field.value != VNull ==> r == Deserialize(field.value) && r != Success(None)
  {
    match field
    case None => Success(None)
    case Some(VNull) => Failure(Null)
    case Some(v) => Deserialize(v)
  }

  /** `DiarySchema.load`: `title` is a required trimmed string of length at
      least one; `privacy` is optional and read case-insensitively. */
  function LoadDiary(b: DiaryBody): (r: Result<DiaryData, FieldError>)
    ensures r.Success? <==> b.title.Some? && b.title.value.VStr? && Strip(b.title.value.s) != []
                            && LoadPrivacy(b.privacy).Success?
    ensures r.Success? ==> r.value.title == Strip(b.title.value.s)
                           && r.value.privacy == LoadPrivacy(b.privacy).value
    ensures r.Success? && r.value.privacy.Some? ==>
              b.privacy.Some? && b.privacy.value.VStr? && Upper(b.privacy.value.s) == Name(r.value.privacy.value)
  {
    match LoadText(b.title, DiaryTitleEmptyMessage)
    case Failure(e) => Failure(e)
    case Success(title) =>
      match LoadPrivacy(b.privacy)
      case Failure(e) => Failure(e)
      case Success(p) => Success(DiaryData(title, p))
  }

  /** `TagSchema.load`: `name` is a required trimmed string of length at least one. */
  function LoadTagName(name: Option<Value>): (r: Result<string, FieldError>)
    ensures r.Success? <==> name.Some? && name.value.VStr? && Strip(name.value.s) != []
    ensures r.Success? ==> r.value == Strip(name.value.s)
  {
    LoadText(name, TagNameEmptyMessage)
  }

  /** A title, content or tag name made of whitespace only strips to "" and
      is refused by the length rule with that field's own message; no other
      string is refused by it. */
  lemma BlankTextRejected(s: string, entryId: Option<int>)
    requires AllSpace(s)
    ensures LoadDiary(DiaryBody(Some(VStr(s)), None)) == Failure(TooShort(DiaryTitleEmptyMessage))
    ensures LoadEntry(EntryBody(Some(VStr(s)), entryId)) == Failure(TooShort(EntryEmptyMessage))
    ensures LoadComment(CommentBody(Some(VStr(s)), entryId)) == Failure(TooShort(CommentEmptyMessage))
    ensures LoadTagName(Some(VStr(s))) == Failure(TooShort(TagNameEmptyMessage))
  {
  }

  /** Conversely, a string with a non-whitespace character passes the length
      rule, and what is stored is the string stripped. */
  lemma NonBlankTextAccepted(s: string)
    requires !AllSpace(s)
    ensures LoadTagName(Some(VStr(s))) == Success(Strip(s))
    ensures LoadDiary(DiaryBody(Some(VStr(s)), None)) == Success(DiaryData(Strip(s), None))
  {
    StripEmptyIffAllSpace(s);
  }
}
