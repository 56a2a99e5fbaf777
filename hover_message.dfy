/** The hover message shown on the student page (src/services/hoverMessageService.js): a single
    row, id 1, holding a message and an image URL, read with defaults standing in for blank
    fields and written by an upsert on the id. */
module HoverMessage {
  import opened Wrappers
  import opened Text

  const RecordId := 1
  const DefaultMessage := "창건샘 말씀하시길, 나는 못하지만 친구는 할 수 있다!"
  const DefaultImageUrl := "/characters/nini-rogin.png"
  const LoadError := "말풍선 메시지를 불러올 수 없습니다."

  datatype HoverContent = HoverContent(message: string, imageUrl: string)

  const DefaultContent := HoverContent(DefaultMessage, DefaultImageUrl)

  /** A row of `hover_messages`; either column may be null. */
  datatype HoverRow = HoverRow(message: Option<string>, imageUrl: Option<string>, updatedAt: int)

  /** The text has a character that is not white space. */
  predicate HasContent(s: string) {
    Trim(s) != ""
  }

  /** parseString: a string with non-blank content is kept as it is; anything else gives the
      fallback. */
  function ParseString(value: Option<string>, fallback: string): (r: string)
    ensures value.Some? && HasContent(value.value) ==> r == value.value
    ensures !(value.Some? && HasContent(value.value)) ==> r == fallback
    ensures HasContent(fallback) ==> HasContent(r)
  {
    if value.Some? && HasContent(value.value) then value.value else fallback
  }

  class HoverMessagesTable {
    var rows: map<int, HoverRow>

    constructor ()
      ensures rows == map[]
    {
      rows := map[];
    }
  }

  lemma NonBlankHasContent(s: string, i: int)
    requires 0 <= i < |s| && !IsSpace(s[i])
    ensures HasContent(s)
  {
    TrimEmptyIffBlank(s);
  }

  lemma DefaultsHaveContent()
    ensures HasContent(DefaultMessage) && HasContent(DefaultImageUrl)
  {
    NonBlankHasContent(DefaultMessage, 0);
    NonBlankHasContent(DefaultImageUrl, 0);
  }

  /** getHoverMessage: a failed query is an error; a missing row makes `.single()` report an
      error, which gives the defaults only when its text contains 'Row not found'
      (`notFoundText`) and is thrown otherwise; a present row has each field read through
      parseString. */
  function GetHoverMessage(rows: map<int, HoverRow>, queryOk: bool, notFoundText: bool): (r: Result<HoverContent, string>)
    ensures r.Ok? <==> queryOk && (RecordId in rows || notFoundText)
    ensures r.Ok? ==> HasContent(r.value.message) && HasContent(r.value.imageUrl)
    ensures r.Ok? && RecordId !in rows ==> r.value == DefaultContent
    ensures r.Ok? && RecordId in rows ==>
      && (rows[RecordId].message.Some? && HasContent(rows[RecordId].message.value) ==> r.value.message == rows[RecordId].message.value)
      && (rows[RecordId].imageUrl.Some? && HasContent(rows[RecordId].imageUrl.value) ==> r.value.imageUrl == rows[RecordId].imageUrl.value)
      && (!(rows[RecordId].message.Some? && HasContent(rows[RecordId].message.value)) ==> r.value.message == DefaultMessage)
      && (!(rows[RecordId].imageUrl.Some? && HasContent(rows[RecordId].imageUrl.value)) ==> r.value.imageUrl == DefaultImageUrl)
  {
    DefaultsHaveContent();
    if !queryOk then Err(LoadError)
    else if RecordId !in rows then (if notFoundText then Ok(DefaultContent) else Err(LoadError))
    else
      var row := rows[RecordId];
      Ok(HoverContent(ParseString(row.message, DefaultMessage), ParseString(row.imageUrl, DefaultImageUrl)))
  }

  /** `message?.trim() || DEFAULT_CONTENT.message`. */
  function StoredMessage(message: Option<string>): (r: string)
    ensures message.Some? && HasContent(message.value) ==> r == Trim(message.value)
    ensures !(message.Some? && HasContent(message.value)) ==> r == DefaultMessage
  {
    if message.Some? && Trim(message.value) != "" then Trim(message.value) else DefaultMessage
  }

  /** `imageUrl || DEFAULT_CONTENT.imageUrl` as the source writes it: only a missing or empty URL
      is replaced, so a URL of spaces is stored as it is. */
  function StoredImageUrlAsWritten(imageUrl: Option<string>): (r: string)
    ensures imageUrl.Some? && imageUrl.value != "" ==> r == imageUrl.value
    ensures imageUrl.None? || imageUrl.value == "" ==> r == DefaultImageUrl
  {
    if imageUrl.Some? && imageUrl.value != "" then imageUrl.value else DefaultImageUrl
  }

  /** What updateHoverMessage as written leaves in the table and returns: row 1 holds exactly
      the returned content, no other row changes, and a non-empty URL is kept even when it is
      only white space. */
  function UpdatedAsWritten(rows: map<int, HoverRow>, message: Option<string>, imageUrl: Option<string>, now: int)
    : (r: (map<int, HoverRow>, HoverContent))
    ensures r.0.Keys == rows.Keys + {RecordId}
    ensures forall k :: k in rows && k != RecordId ==> r.0[k] == rows[k]
    ensures r.0[RecordId] == HoverRow(Some(r.1.message), Some(r.1.imageUrl), now)
    ensures r.1.message == StoredMessage(message)
    ensures imageUrl.Some? && imageUrl.value != "" ==> r.1.imageUrl == imageUrl.value
    ensures imageUrl.None? || imageUrl.value == "" ==> r.1.imageUrl == DefaultImageUrl
  {
    (rows[RecordId := HoverRow(Some(StoredMessage(message)), Some(StoredImageUrlAsWritten(imageUrl)), now)],
     HoverContent(StoredMessage(message), StoredImageUrlAsWritten(imageUrl)))
  }

  /** As written, an update with the URL " " returns " " as the stored URL, but the next read
      turns the stored " " into the default URL: the read does not give back what the update
      returned. */
  lemma AsWrittenRoundTripFails(rows: map<int, HoverRow>, message: Option<string>, now: int, notFoundText: bool)
    ensures var (after, returned) := UpdatedAsWritten(rows, message, Some(" "), now);
      returned.imageUrl == " " && GetHoverMessage(after, true, notFoundText).value.imageUrl == DefaultImageUrl
  {
    var (after, returned) := UpdatedAsWritten(rows, message, Some(" "), now);
    assert after[RecordId].imageUrl == Some(" ");
    assert !HasContent(" ") by {
      TrimEmptyIffBlank(" ");
      assert IsSpace(' ');
    }
  }

  /** The stored URL with a blank URL replaced too, as the read treats it. */
  function StoredImageUrl(imageUrl: Option<string>): (r: string)
    ensures imageUrl.Some? && HasContent(imageUrl.value) ==> r == imageUrl.value
    ensures !(imageUrl.Some? && HasContent(imageUrl.value)) ==> r == DefaultImageUrl
  {
    if imageUrl.Some? && HasContent(imageUrl.value) then imageUrl.value else DefaultImageUrl
  }

  /** updateHoverMessage: upserts row 1 with the trimmed message (the default if blank) and the
      image URL (the default if blank), and returns the stored content; a failed upsert changes
      nothing. */
  method UpdateHoverMessage(t: HoverMessagesTable, message: Option<string>, imageUrl: Option<string>, now: int, upsertOk: bool)
    returns (r: Result<HoverContent, string>)
    modifies t
    ensures r.Ok? <==> upsertOk
    ensures r.Ok? ==> r.value == HoverContent(StoredMessage(message), StoredImageUrl(imageUrl))
                      && t.rows == old(t.rows)[RecordId := HoverRow(Some(r.value.message), Some(r.value.imageUrl), now)]
    ensures r.Err? ==> t.rows == old(t.rows)
  {
    if !upsertOk {
      return Err(LoadError);
    }
    var content := HoverContent(StoredMessage(message), StoredImageUrl(imageUrl));
    t.rows := t.rows[RecordId := HoverRow(Some(content.message), Some(content.imageUrl), now)];
    r := Ok(content);
  }

  /** What an update stores has content. */
  lemma StoredHasContent(message: Option<string>, imageUrl: Option<string>)
    ensures HasContent(StoredMessage(message)) && HasContent(StoredImageUrl(imageUrl))
  {
    DefaultsHaveContent();
    if message.Some? && HasContent(message.value) {
      var t := Trim(message.value);
      TrimIdempotent(message.value);
      assert Trim(t) == t && t != "";
      assert StoredMessage(message) == t;
    } else {
      assert StoredMessage(message) == DefaultMessage;
    }
    if imageUrl.Some? && HasContent(imageUrl.value) {
      assert StoredImageUrl(imageUrl) == imageUrl.value;
    } else {
      assert StoredImageUrl(imageUrl) == DefaultImageUrl;
    }
  }

  /** A read after an update gives back exactly what the update returned, whatever the table
      held before. */
  lemma UpdateThenGet(rows: map<int, HoverRow>, message: Option<string>, imageUrl: Option<string>, now: int, notFoundText: bool)
    ensures var content := HoverContent(StoredMessage(message), StoredImageUrl(imageUrl));
      GetHoverMessage(rows[RecordId := HoverRow(Some(content.message), Some(content.imageUrl), now)], true, notFoundText) == Ok(content)
  {
    var content := HoverContent(StoredMessage(message), StoredImageUrl(imageUrl));
    StoredHasContent(message, imageUrl);
    var after := rows[RecordId := HoverRow(Some(content.message), Some(content.imageUrl), now)];
    assert ParseString(after[RecordId].message, DefaultMessage) == content.message;
    assert ParseString(after[RecordId].imageUrl, DefaultImageUrl) == content.imageUrl;
  }
}
