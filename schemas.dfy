/**
 * The request models of the three generation endpoints, their field bounds and their validators.
 * A request either parses into a `Request` with every field normalised, or is refused with the
 * list of fields that failed, in field order.
 */
module Schemas {
  import opened Wrappers
  import opened Text
  import Prompts

  const MIN_TEXT_LENGTH: nat := 1
  const MAX_TEXT_LENGTH: nat := 10000

  const DEFAULT_PERSONA: string := "human"
  const DEFAULT_STYLE: string := "conversational"

  const ALLOWED_PERSONAS: seq<string> := ["human", "hardcore", "curator"]
  const ALLOWED_STYLES: seq<string> := ["conversational", "professional", "casual", "witty"]

  /** One failing field. */
  datatype FieldError = TextTooShort | TextTooLong | TextEmpty | BadPersona | BadStyle

  /**
   * The messages the validators raise; the wording of the length-bound errors belongs to the
   * validation library and is not modelled.
   */
  function Message(e: FieldError): Option<string> {
    match e
    case TextTooShort => None
    case TextTooLong => None
    case TextEmpty => Some("Text cannot be empty")
    case BadPersona => Some("Persona must be one of: " + Join(ALLOWED_PERSONAS, ", "))
    case BadStyle => Some("Style must be one of: " + Join(ALLOWED_STYLES, ", "))
  }

  /**
   * The `text` field: the length bounds apply to the text as sent, then the validator refuses a
   * text that strips to nothing and keeps the stripped text.
   */
  function ValidateText(v: string): (r: Result<string, FieldError>)
    ensures r.Ok? <==> MIN_TEXT_LENGTH <= |v| <= MAX_TEXT_LENGTH && !AllSpace(v)
    ensures r == Err(TextTooShort) <==> |v| < MIN_TEXT_LENGTH
    ensures r == Err(TextTooLong) <==> |v| > MAX_TEXT_LENGTH
    ensures r == Err(TextEmpty) <==> MIN_TEXT_LENGTH <= |v| <= MAX_TEXT_LENGTH && AllSpace(v)
    ensures r.Ok? ==> r.value == Strip(v) && r.value != [] && NoSpaceEdges(r.value) && |r.value| <= |v|
  {
    if |v| < MIN_TEXT_LENGTH then Err(TextTooShort)
    else if |v| > MAX_TEXT_LENGTH then Err(TextTooLong)
    else if Strip(v) == [] then Err(TextEmpty)
    else Ok(Strip(v))
  }

  /** A validated text validates again to itself: the validator is idempotent. */
  lemma ValidateTextIdempotent(v: string)
    requires ValidateText(v).Ok?
    ensures ValidateText(ValidateText(v).value) == ValidateText(v)
  {
    var t := ValidateText(v).value;
    assert t[0] == t[0] && !IsSpace(t[0]);
    assert !AllSpace(t);
  }

  /** The `persona` field: `human` when omitted, otherwise one of the three keys. */
  function ValidatePersona(v: Option<string>): (r: Result<string, FieldError>)
    ensures v.None? ==> r == Ok(DEFAULT_PERSONA)
    ensures v.Some? ==> (r.Ok? <==> v.value in ALLOWED_PERSONAS)
    ensures v.Some? && r.Ok? ==> r.value == v.value
    ensures r.Err? ==> r.error == BadPersona
  {
    match v
    case None => Ok(DEFAULT_PERSONA)
    case Some(p) => if p in ALLOWED_PERSONAS then Ok(p) else Err(BadPersona)
  }

  /** The request validator accepts exactly the personas the prompt builder knows. */
  lemma PersonaValidatorsAgree(p: string)
    ensures ValidatePersona(Some(p)).Ok? <==> Prompts.ValidatePersona(p)
  {
    Prompts.ValidatePersonaExactly(p);
  }

  /** The `style` field of a replies request: `conversational` when omitted, otherwise one of four. */
  function ValidateStyle(v: Option<string>): (r: Result<string, FieldError>)
    ensures v.None? ==> r == Ok(DEFAULT_STYLE)
    ensures v.Some? ==> (r.Ok? <==> v.value in ALLOWED_STYLES)
    ensures v.Some? && r.Ok? ==> r.value == v.value
    ensures r.Err? ==> r.error == BadStyle
  {
    match v
    case None => Ok(DEFAULT_STYLE)
    case Some(s) => if s in ALLOWED_STYLES then Ok(s) else Err(BadStyle)
  }

  /** A request body as sent: a field left out is `None`. */
  datatype RawRequest = RawRequest(text: string, url: Option<string>, author: Option<string>,
                                   persona: Option<string>, style: Option<string>)

  /** A parsed request (`style` is the default for the endpoints without one). */
  datatype Request = Request(text: string, url: Option<string>, author: Option<string>,
                             persona: string, style: string)

  /** The errors of one validator, as a list. */
  function Errors(r: Result<string, FieldError>): (es: seq<FieldError>)
    ensures r.Ok? <==> es == []
    ensures r.Err? ==> es == [r.error]
  {
    if r.Ok? then [] else [r.error]
  }

  /**
   * Parsing a request body: every field is validated, and the request is refused with the
   * failures of all fields, in field order. `withStyle` is set for the replies request.
   */
  function ParseRequest(raw: RawRequest, withStyle: bool): (r: Result<Request, seq<FieldError>>)
    ensures r.Ok? <==> ValidateText(raw.text).Ok? && ValidatePersona(raw.persona).Ok?
                       && (withStyle ==> ValidateStyle(raw.style).Ok?)
    ensures r.Ok? ==> r.value.text == Strip(raw.text) && r.value.url == raw.url && r.value.author == raw.author
    ensures r.Ok? ==> r.value.persona == ValidatePersona(raw.persona).value
    ensures r.Ok? ==> r.value.style == if withStyle then ValidateStyle(raw.style).value else DEFAULT_STYLE
    ensures r.Err? ==> r.error == Errors(ValidateText(raw.text)) + Errors(ValidatePersona(raw.persona))
                                  + (if withStyle then Errors(ValidateStyle(raw.style)) else [])
  {
    var t := ValidateText(raw.text);
    var p := ValidatePersona(raw.persona);
    var s := if withStyle then ValidateStyle(raw.style) else Ok(DEFAULT_STYLE);
    if t.Ok? && p.Ok? && s.Ok? then Ok(Request(t.value, raw.url, raw.author, p.value, s.value))
    else Err(Errors(t) + Errors(p) + (if withStyle then Errors(s) else []))
  }

  /** What every parsed request guarantees to the handlers. */
  predicate WellFormed(q: Request) {
    && q.text != [] && |q.text| <= MAX_TEXT_LENGTH && NoSpaceEdges(q.text)
    && q.persona in ALLOWED_PERSONAS && q.style in ALLOWED_STYLES
  }

  lemma ParsedRequestWellFormed(raw: RawRequest, withStyle: bool)
    requires ParseRequest(raw, withStyle).Ok?
    ensures WellFormed(ParseRequest(raw, withStyle).value)
  {
  }

  predicate IsTextError(e: FieldError) {
    e == TextTooShort || e == TextTooLong || e == TextEmpty
  }

  /** A refused request names at least one field, and names each field exactly when it is bad. */
  lemma RefusalNamesFields(raw: RawRequest, withStyle: bool)
    requires ParseRequest(raw, withStyle).Err?
    ensures var es := ParseRequest(raw, withStyle).error;
      && es != []
      && (ValidateText(raw.text).Err? <==> IsTextError(es[0]))
      && (BadPersona in es <==> ValidatePersona(raw.persona).Err?)
      && (BadStyle in es <==> withStyle && ValidateStyle(raw.style).Err?)
  {
    var tr := ValidateText(raw.text);
    var t := Errors(tr);
    var p := Errors(ValidatePersona(raw.persona));
    var s := if withStyle then Errors(ValidateStyle(raw.style)) else [];
    assert tr.Err? ==> IsTextError(tr.error);
    ErrorOrder(t, p, s);
  }

  /** The text's errors, then the persona's, then the style's: which field failed shows in the list. */
  lemma ErrorOrder(t: seq<FieldError>, p: seq<FieldError>, s: seq<FieldError>)
    requires forall e :: e in t ==> IsTextError(e)
    requires forall e :: e in p ==> e == BadPersona
    requires forall e :: e in s ==> e == BadStyle
    ensures var es := t + p + s;
      && (es == [] <==> t == [] && p == [] && s == [])
      && (es != [] ==> (t != [] <==> IsTextError(es[0])))
      && (BadPersona in es <==> p != [])
      && (BadStyle in es <==> s != [])
  {
    var es := t + p + s;
    if t != [] {
      assert es[0] == t[0] && t[0] in t;
    } else if p != [] {
      assert es[0] == p[0] && p[0] in p;
    } else if s != [] {
      assert es[0] == s[0] && s[0] in s;
    }
    assert BadPersona in es <==> BadPersona in t || BadPersona in p || BadPersona in s;
    assert BadStyle in es <==> BadStyle in t || BadStyle in p || BadStyle in s;
    if p != [] {
      assert p[0] in p;
    }
    if s != [] {
      assert s[0] in s;
    }
  }
}
