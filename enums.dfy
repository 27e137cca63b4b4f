// The string conversions of the user-data enums (ReadingStatus, ListType,
// FriendRequestStatus, ReadingMethod). Each `fromString` rejects a null or
// empty value, upper-cases the rest (the status and list enums also turn
// '-' into '_', so "currently-reading" is accepted) and looks the result up
// among the constant names; an unknown value is rejected with its own text.
module Enums {
  import opened Wrappers
  import Text

  datatype Parse<T> = Parsed(value: T) | Invalid(message: string)

  /** The lookup key of the kebab-tolerant parsers: upper-case, '-' as '_'. */
  function KebabKey(v: string): string
  {
    Text.ReplaceChar(Text.Upper(v), '-', '_')
  }

  /** Characters of a Java constant name. */
  predicate IsConstantChar(c: char) { 'A' <= c <= 'Z' || c == '_' }

  predicate IsConstantName(s: string)
  {
    forall i :: 0 <= i < |s| ==> IsConstantChar(s[i])
  }

  /** The kebab-case spelling clients send: lower-case, '_' as '-'. */
  function Kebab(name: string): string
  {
    Text.Lower(Text.ReplaceChar(name, '_', '-'))
  }

  lemma ConstantNameIsItsOwnKey(name: string)
    requires IsConstantName(name)
    ensures Text.Upper(name) == name && KebabKey(name) == name
  {
    assert Text.Upper(name) == name;
  }

  lemma KebabSpellingKeysBack(name: string)
    requires IsConstantName(name)
    ensures KebabKey(Kebab(name)) == name
  {
    var k := Kebab(name);
    assert forall i :: 0 <= i < |name| ==> Text.UpperChar(k[i]) == Text.ReplaceChar(name, '_', '-')[i];
    assert Text.Upper(k) == Text.ReplaceChar(name, '_', '-');
  }

  // ---------------------------------------------------------------- ReadingStatus

  datatype ReadingStatus = WantToRead | CurrentlyReading | Read | DidNotFinish

  function ReadingStatusName(s: ReadingStatus): string
  {
    match s
    case WantToRead => "WANT_TO_READ"
    case CurrentlyReading => "CURRENTLY_READING"
    case Read => "READ"
    case DidNotFinish => "DID_NOT_FINISH"
  }

  /** ReadingStatus.fromString; a Java null is `None`. */
  function ParseReadingStatus(value: Option<string>): (r: Parse<ReadingStatus>)
    ensures (value == None || value == Some("")) ==> r == Invalid("Reading status cannot be null or empty")
    ensures r.Parsed? ==> value.Some? && ReadingStatusName(r.value) == KebabKey(value.value)
    ensures forall v :: value.Some? && ReadingStatusName(v) == KebabKey(value.value) ==> r == Parsed(v)
    ensures value.Some? && value.value != "" && (forall s :: ReadingStatusName(s) != KebabKey(value.value)) ==>
              r == Invalid("Unknown reading status: " + value.value)
  {
    if value.None? || value.value == "" then Invalid("Reading status cannot be null or empty")
    else
      var key := KebabKey(value.value);
      if key == "WANT_TO_READ" then Parsed(WantToRead)
      else if key == "CURRENTLY_READING" then Parsed(CurrentlyReading)
      else if key == "READ" then Parsed(Read)
      else if key == "DID_NOT_FINISH" then Parsed(DidNotFinish)
      else Invalid("Unknown reading status: " + value.value)
  }

  /** Both spellings of every status parse back to it. */
  lemma ReadingStatusRoundTrip(s: ReadingStatus)
    ensures ParseReadingStatus(Some(ReadingStatusName(s))) == Parsed(s)
    ensures ParseReadingStatus(Some(Kebab(ReadingStatusName(s)))) == Parsed(s)
  {
    ConstantNameIsItsOwnKey(ReadingStatusName(s));
    KebabSpellingKeysBack(ReadingStatusName(s));
  }

  // ---------------------------------------------------------------- ListType

  datatype ListType = Custom | CurrentlyReadingList | ToBeRead

  function ListTypeName(t: ListType): string
  {
    match t
    case Custom => "CUSTOM"
    case CurrentlyReadingList => "CURRENTLY_READING"
    case ToBeRead => "TO_BE_READ"
  }

  /** ListType.fromString. */
  function ParseListType(value: Option<string>): (r: Parse<ListType>)
    ensures (value == None || value == Some("")) ==> r == Invalid("List type cannot be null or empty")
    ensures r.Parsed? ==> value.Some? && ListTypeName(r.value) == KebabKey(value.value)
    ensures forall v :: value.Some? && ListTypeName(v) == KebabKey(value.value) ==> r == Parsed(v)
    ensures value.Some? && value.value != "" && (forall t :: ListTypeName(t) != KebabKey(value.value)) ==>
              r == Invalid("Unknown list type: " + value.value)
  {
    if value.None? || value.value == "" then Invalid("List type cannot be null or empty")
    else
      var key := KebabKey(value.value);
      if key == "CUSTOM" then Parsed(Custom)
      else if key == "CURRENTLY_READING" then Parsed(CurrentlyReadingList)
      else if key == "TO_BE_READ" then Parsed(ToBeRead)
      else Invalid("Unknown list type: " + value.value)
  }

  lemma ListTypeRoundTrip(t: ListType)
    ensures ParseListType(Some(ListTypeName(t))) == Parsed(t)
    ensures ParseListType(Some(Kebab(ListTypeName(t)))) == Parsed(t)
  {
    ConstantNameIsItsOwnKey(ListTypeName(t));
    KebabSpellingKeysBack(ListTypeName(t));
  }

  // ---------------------------------------------------------------- FriendRequestStatus

  datatype FriendRequestStatus = Pending | Rejected

  function FriendRequestStatusName(s: FriendRequestStatus): string
  {
    match s
    case Pending => "PENDING"
    case Rejected => "REJECTED"
  }

  /** FriendRequestStatus.fromString. */
  function ParseFriendRequestStatus(value: Option<string>): (r: Parse<FriendRequestStatus>)
    ensures (value == None || value == Some("")) ==> r == Invalid("Friend request status cannot be null or empty")
    ensures r.Parsed? ==> value.Some? && FriendRequestStatusName(r.value) == KebabKey(value.value)
    ensures forall v :: value.Some? && FriendRequestStatusName(v) == KebabKey(value.value) ==> r == Parsed(v)
    ensures value.Some? && value.value != "" && (forall s :: FriendRequestStatusName(s) != KebabKey(value.value)) ==>
              r == Invalid("Unknown friend request status: " + value.value)
  {
    if value.None? || value.value == "" then Invalid("Friend request status cannot be null or empty")
    else
      var key := KebabKey(value.value);
      if key == "PENDING" then Parsed(Pending)
      else if key == "REJECTED" then Parsed(Rejected)
      else Invalid("Unknown friend request status: " + value.value)
  }

  lemma FriendRequestStatusRoundTrip(s: FriendRequestStatus)
    ensures ParseFriendRequestStatus(Some(FriendRequestStatusName(s))) == Parsed(s)
    ensures ParseFriendRequestStatus(Some(Kebab(FriendRequestStatusName(s)))) == Parsed(s)
  {
    ConstantNameIsItsOwnKey(FriendRequestStatusName(s));
    KebabSpellingKeysBack(FriendRequestStatusName(s));
  }

  // ---------------------------------------------------------------- ReadingMethod

  datatype ReadingMethod = Physical | Ebook | Audiobook

  function ReadingMethodName(m: ReadingMethod): string
  {
    match m
    case Physical => "PHYSICAL"
    case Ebook => "EBOOK"
    case Audiobook => "AUDIOBOOK"
  }

  /** ReadingMethod.fromString: upper-cases only; there is no '-' mapping. */
  function ParseReadingMethod(value: Option<string>): (r: Parse<ReadingMethod>)
    ensures (value == None || value == Some("")) ==> r == Invalid("Reading method cannot be null or empty")
    ensures r.Parsed? ==> value.Some? && ReadingMethodName(r.value) == Text.Upper(value.value)
    ensures forall m :: value.Some? && ReadingMethodName(m) == Text.Upper(value.value) ==> r == Parsed(m)
    ensures value.Some? && value.value != "" && (forall m :: ReadingMethodName(m) != Text.Upper(value.value)) ==>
              r == Invalid("Unknown reading method: " + value.value)
  {
    if value.None? || value.value == "" then Invalid("Reading method cannot be null or empty")
    else
      var key := Text.Upper(value.value);
      if key == "PHYSICAL" then Parsed(Physical)
      else if key == "EBOOK" then Parsed(Ebook)
      else if key == "AUDIOBOOK" then Parsed(Audiobook)
      else Invalid("Unknown reading method: " + value.value)
  }

  lemma ReadingMethodRoundTrip(m: ReadingMethod)
    ensures ParseReadingMethod(Some(ReadingMethodName(m))) == Parsed(m)
    ensures ParseReadingMethod(Some(Text.Lower(ReadingMethodName(m)))) == Parsed(m)
  {
    var n := ReadingMethodName(m);
    ConstantNameIsItsOwnKey(n);
    var k := Text.Lower(n);
    assert forall i :: 0 <= i < |n| ==> Text.UpperChar(k[i]) == n[i];
    assert Text.Upper(k) == n;
  }
}
