/** Request validation at the boundary: the `BookCreate` field validators,
    the six-digit card checks, and the tagged `borrow` / `return` status
    update, decoded from a payload whose fields are all strings. */
module Schemas {
  import opened Wrappers
  import opened Text

  const SixDigitsMessage := "must be exactly six digits"
  const EmptyMessage := "must not be empty"
  const ExtraFieldMessage := "extra inputs are not permitted"
  const MissingFieldMessage := "field required"
  const MissingTagMessage := "unable to extract tag using discriminator 'action'"
  const UnknownTagMessage := "input tag does not match any of the expected tags"

  /** A create request after validation. */
  datatype BookCreate = BookCreate(serialNumber: string, title: string, author: string)

  /** The body of a status update: a borrow names the card, a return names nothing. */
  datatype StatusUpdate = BorrowAction(borrowerCard: string) | ReturnAction

  /** A JSON object whose values are strings, by field name. */
  type Payload = map<string, string>

  /** `SIX_DIGIT_RE.fullmatch(v)` or raise: the check shared by the serial
      number of a create request and the card of a borrow action. A value
      that passes is returned as given, so leading zeros are kept. */
  function ValidateSixDigits(v: string): (r: Result<string>)
    ensures r.Valid? <==> IsSixDigits(v)
    ensures r.Valid? ==> r.value == v
    ensures r.Invalid? ==> r.message == SixDigitsMessage
  {
    if IsSixDigits(v) then Valid(v) else Invalid(SixDigitsMessage)
  }

  /** The `title` / `author` validator: the value stripped of surrounding
      whitespace, refused when nothing but whitespace was given. */
  function StripAndRequireNonEmpty(v: string): (r: Result<string>)
    ensures r.Invalid? <==> AllWhitespace(v)
    ensures r.Invalid? ==> r.message == EmptyMessage
    ensures r.Valid? ==> r.value == Strip(v) && r.value != []
    ensures r.Valid? ==> !IsWhitespace(r.value[0]) && !IsWhitespace(r.value[|r.value| - 1])
  {
    StripEmptyIffAllWhitespace(v);
    var s := Strip(v);
    if s == [] then Invalid(EmptyMessage) else Valid(s)
  }

  /** A value the title validator accepted passes it again unchanged. */
  lemma StripAndRequireNonEmptyIdempotent(v: string)
    requires StripAndRequireNonEmpty(v).Valid?
    ensures StripAndRequireNonEmpty(StripAndRequireNonEmpty(v).value) == StripAndRequireNonEmpty(v)
  {
    StripIdempotent(v);
  }

  /** Validation of a whole create request: the serial as given, title and
      author stripped; the request is refused when any field fails, with the
      message of the first failing field in declaration order. */
  function ValidateBookCreate(serial: string, title: string, author: string): (r: Result<BookCreate>)
    ensures r.Valid? <==> IsSixDigits(serial) && !AllWhitespace(title) && !AllWhitespace(author)
    ensures r.Valid? ==> r.value == BookCreate(serial, Strip(title), Strip(author))
    ensures r.Valid? ==> r.value.title != [] && r.value.author != []
  {
    match (ValidateSixDigits(serial), StripAndRequireNonEmpty(title), StripAndRequireNonEmpty(author))
    case (Valid(s), Valid(t), Valid(a)) => Valid(BookCreate(s, t, a))
    case (Invalid(m), _, _) => Invalid(m)
    case (_, Invalid(m), _) => Invalid(m)
    case (_, _, Invalid(m)) => Invalid(m)
  }

  /** `BookRead`'s card validator: an absent card passes, a present one must
      be six digits, and passes unchanged. */
  function ValidateCardFormat(v: Option<string>): (r: Result<Option<string>>)
    ensures r.Valid? <==> v.None? || IsSixDigits(v.value)
    ensures r.Valid? ==> r.value == v
  {
    match v
    case None => Valid(None)
    case Some(c) => if IsSixDigits(c) then Valid(v) else Invalid(SixDigitsMessage)
  }

  /** Decoding of the discriminated union on field `action`. Both variants
      forbid extra fields; a borrow requires a six-digit `borrower_card`. */
  function DecodeStatusUpdate(p: Payload): (r: Result<StatusUpdate>)
    ensures (r.Valid? && r.value.BorrowAction?) <==>
      && "action" in p && p["action"] == "borrow"
      && "borrower_card" in p && IsSixDigits(p["borrower_card"])
      && p.Keys <= {"action", "borrower_card"}
    ensures r.Valid? && r.value.BorrowAction? ==> r.value.borrowerCard == p["borrower_card"]
    ensures (r.Valid? && r.value.ReturnAction?) <==> p == map["action" := "return"]
  {
    if "action" !in p then
      Invalid(MissingTagMessage)
    else if p["action"] == "borrow" then
      if !(p.Keys <= {"action", "borrower_card"}) then Invalid(ExtraFieldMessage)
      else if "borrower_card" !in p then Invalid(MissingFieldMessage)
      else match ValidateSixDigits(p["borrower_card"])
        case Valid(card) => Valid(BorrowAction(card))
        case Invalid(m) => Invalid(m)
    else if p["action"] == "return" then
      if p.Keys <= {"action"} then
        assert p == map["action" := "return"];
        Valid(ReturnAction)
      else
        Invalid(ExtraFieldMessage)
    else
      Invalid(UnknownTagMessage)
  }

  /** The wire form of a status update, `{"action": "borrow", "borrower_card": …}`
      or `{"action": "return"}`. */
  function EncodeStatusUpdate(u: StatusUpdate): Payload {
    match u
    case BorrowAction(card) => map["action" := "borrow", "borrower_card" := card]
    case ReturnAction => map["action" := "return"]
  }

  /** Decoding inverts encoding on every well-formed update, and every
      payload that decodes is the encoding of what it decodes to. */
  lemma DecodeEncodeRoundTrip(u: StatusUpdate, p: Payload)
    ensures (u.ReturnAction? || IsSixDigits(u.borrowerCard)) ==>
      DecodeStatusUpdate(EncodeStatusUpdate(u)) == Valid(u)
    ensures DecodeStatusUpdate(p) == Valid(u) ==> EncodeStatusUpdate(u) == p
  {
    if DecodeStatusUpdate(p) == Valid(u) && u.BorrowAction? {
      assert p.Keys == {"action", "borrower_card"};
      assert p == map["action" := "borrow", "borrower_card" := u.borrowerCard];
    }
  }

  /** Whatever blanks surround a non-blank value, the validator returns
      exactly that value. */
  lemma StripAndRequireNonEmptyKeepsCore(pre: string, core: string, post: string)
    requires AllWhitespace(pre) && AllWhitespace(post)
    requires core != [] && !IsWhitespace(core[0]) && !IsWhitespace(core[|core| - 1])
    ensures StripAndRequireNonEmpty(pre + core + post) == Valid(core)
  {
    StripSurrounded(pre, core, post);
  }

  /** The serials the `BookCreate` tests name: the malformed ones are
      refused, and a serial with leading zeros is kept as given. */
  lemma SerialExamples()
    ensures ValidateSixDigits("000001") == Valid("000001")
    ensures ValidateSixDigits("12345").Invalid? && ValidateSixDigits("1234567").Invalid?
    ensures ValidateSixDigits("12 3456").Invalid? && ValidateSixDigits("ABC123").Invalid?
    ensures ValidateSixDigits("").Invalid?
  {
    assert !IsAsciiDigit("12 3456"[2]);
    assert !IsAsciiDigit("ABC123"[0]);
  }

  /** The status payloads the `BookStatusUpdate` tests name. */
  lemma StatusPayloadExamples()
    ensures DecodeStatusUpdate(map["action" := "borrow", "borrower_card" := "654321"])
      == Valid(BorrowAction("654321"))
    ensures DecodeStatusUpdate(map["action" := "borrow"]).Invalid?
    ensures DecodeStatusUpdate(map["action" := "borrow", "borrower_card" := ""]).Invalid?
    ensures DecodeStatusUpdate(map["action" := "borrow", "borrower_card" := "65432"]).Invalid?
    ensures DecodeStatusUpdate(map["action" := "borrow", "borrower_card" := "6543210"]).Invalid?
    ensures DecodeStatusUpdate(map["action" := "borrow", "borrower_card" := "65 4321"]).Invalid?
    ensures DecodeStatusUpdate(map["action" := "borrow", "borrower_card" := "ABCDEF"]).Invalid?
    ensures DecodeStatusUpdate(map["action" := "return"]) == Valid(ReturnAction)
    ensures DecodeStatusUpdate(map["action" := "return", "borrower_card" := "123456"]).Invalid?
  {
    assert IsSixDigits("654321");
    assert !IsAsciiDigit("65 4321"[2]);
    assert !IsAsciiDigit("ABCDEF"[0]);
    assert "borrower_card" in map["action" := "return", "borrower_card" := "123456"];
  }

  /** The cards the `BookRead` test names: a six-digit card is kept, a card
      with letters is refused. */
  lemma ReadCardExamples()
    ensures ValidateCardFormat(Some("654321")) == Valid(Some("654321"))
    ensures ValidateCardFormat(Some("abc123")).Invalid?
  {
    assert IsSixDigits("654321");
    assert !IsAsciiDigit("abc123"[0]);
  }
}
