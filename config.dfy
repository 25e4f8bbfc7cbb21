/**
 * The application settings: their defaults, the parsing of the allowed-origins setting and
 * the validator of the hosted model's API key.
 */
module Config {
  import opened Wrappers
  import opened Text
  import LlmClient

  /** The settings the modelled core reads. */
  datatype Settings = Settings(
    apiKeyRequired: bool,
    allowedOrigins: string,
    fireworksApiKey: Option<string>,
    cacheTtl: int,
    rateLimitRequests: int,
    rateLimitWindow: int)

  /** The values used when the environment sets nothing. */
  const DEFAULTS: Settings := Settings(false, "*", None, 86400, 60, 300)

  const ORIGIN_SEPARATOR: string := ","

  /** The stripped pieces, with the ones that strip to nothing dropped, in order. */
  function StrippedNonEmpty(pieces: seq<string>): (r: seq<string>)
    ensures |r| <= |pieces|
    ensures forall i :: 0 <= i < |r| ==> r[i] != [] && NoSpaceEdges(r[i])
  {
    if pieces == [] then []
    else
      var rest := StrippedNonEmpty(pieces[1..]);
      var p := Strip(pieces[0]);
      if p != [] then [p] + rest else rest
  }

  /** The strip of every piece, in order. */
  function Strips(pieces: seq<string>): (r: seq<string>)
    ensures |r| == |pieces|
    ensures forall i :: 0 <= i < |r| ==> r[i] == Strip(pieces[i])
  {
    if pieces == [] then []
    else
      var rest := Strips(pieces[1..]);
      assert forall i :: 1 <= i < |pieces| ==> pieces[i] == pieces[1..][i - 1];
      [Strip(pieces[0])] + rest
  }

  /** The kept entries are exactly the non-empty strips of the pieces. */
  lemma {:induction false} StrippedNonEmptyMembers(pieces: seq<string>, x: string)
    ensures x in StrippedNonEmpty(pieces) <==> x != [] && x in Strips(pieces)
    decreases |pieces|
  {
    if pieces != [] {
      StrippedNonEmptyMembers(pieces[1..], x);
      assert Strips(pieces) == [Strip(pieces[0])] + Strips(pieces[1..]);
    }
  }

  /** The filter keeps the order of the pieces: it distributes over concatenation. */
  lemma {:induction false} StrippedNonEmptyAppend(a: seq<string>, b: seq<string>)
    ensures StrippedNonEmpty(a + b) == StrippedNonEmpty(a) + StrippedNonEmpty(b)
    decreases |a|
  {
    if a == [] {
      assert a + b == b;
    } else {
      assert (a + b)[0] == a[0];
      assert (a + b)[1..] == a[1..] + b;
      StrippedNonEmptyAppend(a[1..], b);
    }
  }

  /** `get_allowed_origins`: the comma-separated entries, trimmed, empty entries dropped. */
  function GetAllowedOrigins(allowed: string): (origins: seq<string>)
    ensures forall i :: 0 <= i < |origins| ==> origins[i] != [] && NoSpaceEdges(origins[i])
    ensures forall i :: 0 <= i < |origins| ==> !Contains(origins[i], ORIGIN_SEPARATOR)
  {
    var pieces := Split(allowed, ORIGIN_SEPARATOR);
    SplitPiecesFree(allowed, ORIGIN_SEPARATOR);
    var r := StrippedNonEmpty(pieces);
    forall i | 0 <= i < |r| ensures !Contains(r[i], ORIGIN_SEPARATOR) {
      StrippedNonEmptyMembers(pieces, r[i]);
      var j :| 0 <= j < |pieces| && Strips(pieces)[j] == r[i];
      StripKeepsAbsentChar(pieces[j], ',');
    }
    r
  }

  /** A character missing from `s` is missing from its strip, so a separator cannot appear there. */
  lemma StripKeepsAbsentChar(s: string, c: char)
    requires !Contains(s, [c])
    ensures !Contains(Strip(s), [c])
  {
    ContainsChar(s, c);
    ContainsChar(Strip(s), c);
  }

  /** The default setting `*` allows every origin: the list is exactly `["*"]`. */
  lemma DefaultOrigins()
    ensures GetAllowedOrigins(DEFAULTS.allowedOrigins) == ["*"]
  {
    assert !StartsAt("*", ",", 0) by {
      assert "*"[0..1][0] == '*';
    }
    assert FindFrom("*", ",", 0) == -1;
    assert Split("*", ",") == ["*"];
    assert NoSpaceEdges("*");
    assert StrippedNonEmpty(["*"][1..]) == [];
  }

  /** A setting without commas is one origin, trimmed, unless it is blank. */
  lemma SingleOrigin(allowed: string)
    requires !Contains(allowed, ORIGIN_SEPARATOR)
    ensures GetAllowedOrigins(allowed) == if Strip(allowed) == [] then [] else [Strip(allowed)]
  {
    assert Split(allowed, ORIGIN_SEPARATOR) == [allowed];
    assert [allowed][1..] == [];
  }

  /** Two settings joined by a comma give the two lists one after the other. */
  lemma OriginsOfJoin(a: string, b: string)
    requires !Contains(a, ORIGIN_SEPARATOR)
    ensures GetAllowedOrigins(a + ORIGIN_SEPARATOR + b) == GetAllowedOrigins(a) + GetAllowedOrigins(b)
  {
    SplitAtFirst(a, ',', b);
    StrippedNonEmptyAppend([a], Split(b, ORIGIN_SEPARATOR));
    SingleOrigin(a);
    assert Split(a, ORIGIN_SEPARATOR) == [a];
  }

  const INVALID_KEY_MESSAGE: string := "Fireworks API key appears to be invalid"

  /** `validate_fireworks_key`: a non-empty key shorter than 10 characters is refused. */
  function ValidateFireworksKey(v: Option<string>): (r: Result<Option<string>, string>)
    ensures r.Err? <==> Truthy(v) && |v.value| < 10
    ensures r.Err? ==> r.error == INVALID_KEY_MESSAGE
    ensures r.Ok? ==> r.value == v
  {
    if Truthy(v) && |v.value| < 10 then Err(INVALID_KEY_MESSAGE) else Ok(v)
  }

  /**
   * The validator and the hosted client disagree at exactly ten characters: such a key is
   * accepted as a setting, yet the client is not available and the factory picks the mock.
   */
  lemma TenCharacterKeyGap(key: string)
    requires |key| == 10
    ensures ValidateFireworksKey(Some(key)).Ok?
    ensures !LlmClient.IsAvailable(Some(key))
    ensures LlmClient.CreateClient(Some(key)) == LlmClient.Mock
  {
  }

  /** Every key the client accepts also passes the validator. */
  lemma AvailableKeysValidate(key: Option<string>)
    requires LlmClient.IsAvailable(key)
    ensures ValidateFireworksKey(key) == Ok(key)
  {
  }
}
