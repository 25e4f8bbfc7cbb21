/**
 * The prompt builder: the persona table, the safety guardrails and the three prompt
 * templates (summary, context, replies), each followed by an optional source URL and author.
 */
module Prompts {
  import opened Wrappers
  import opened Text

  datatype PersonaConfig = PersonaConfig(name: string, description: string, style: string,
                                         tone: string, personality: string)

  /** One `list_personas` entry. */
  datatype PersonaEntry = PersonaEntry(key: string, name: string, description: string)

  const HUMAN: PersonaConfig := PersonaConfig(
    "Human", "Friendly, conversational, relatable responses", "conversational",
    "warm and friendly", "approachable, empathetic, genuine")
  const HARDCORE: PersonaConfig := PersonaConfig(
    "Hardcore", "Direct, no-nonsense, straight to the point", "direct",
    "blunt and straightforward", "confident, direct, no fluff")
  const CURATOR: PersonaConfig := PersonaConfig(
    "Curator", "Thoughtful, insightful, expert perspective", "analytical",
    "intelligent and thoughtful", "wise, insightful, well-informed")

  /** The persona table in its insertion order. */
  const PERSONAS: seq<(string, PersonaConfig)> := [("human", HUMAN), ("hardcore", HARDCORE), ("curator", CURATOR)]

  /** The stored guardrails, in order. */
  const GUARDRAILS: seq<string> := [
    "Do not provide financial advice",
    "Do not provide medical advice",
    "Do not provide legal advice",
    "Do not echo or repeat personal information",
    "Do not generate harmful, offensive, or inappropriate content",
    "Do not impersonate specific individuals",
    "Be respectful and professional in all responses"
  ]

  /** `persona in self.personas`. */
  predicate ValidatePersona(persona: string) {
    exists i :: 0 <= i < |PERSONAS| && PERSONAS[i].0 == persona
  }

  /** `validate_persona` accepts exactly the three keys. */
  lemma ValidatePersonaExactly(persona: string)
    ensures ValidatePersona(persona) <==> persona == "human" || persona == "hardcore" || persona == "curator"
  {
    if persona == "human" { assert PERSONAS[0].0 == persona; }
    if persona == "hardcore" { assert PERSONAS[1].0 == persona; }
    if persona == "curator" { assert PERSONAS[2].0 == persona; }
  }

  /** `self.personas.get(persona, self.personas["human"])`. */
  function GetPersonaInfo(persona: string): (c: PersonaConfig)
    ensures forall i :: 0 <= i < |PERSONAS| && PERSONAS[i].0 == persona ==> c == PERSONAS[i].1
    ensures !ValidatePersona(persona) ==> c == HUMAN
  {
    if persona == "hardcore" then assert PERSONAS[1].0 == persona; HARDCORE
    else if persona == "curator" then assert PERSONAS[2].0 == persona; CURATOR
    else HUMAN
  }

  /** `list_personas`: one entry per table row, in table order, with its name and description. */
  function ListPersonas(): (r: seq<PersonaEntry>)
    ensures |r| == |PERSONAS|
    ensures forall i :: 0 <= i < |r| ==>
      r[i] == PersonaEntry(PERSONAS[i].0, PERSONAS[i].1.name, PERSONAS[i].1.description)
  {
    seq(|PERSONAS|, i requires 0 <= i < |PERSONAS| =>
      PersonaEntry(PERSONAS[i].0, PERSONAS[i].1.name, PERSONAS[i].1.description))
  }

  /** `get_safety_guardrails`: a copy; sequences are values, so no caller can alter the stored list. */
  function GetSafetyGuardrails(): (r: seq<string>)
    ensures r == GUARDRAILS && |r| == 7
  {
    GUARDRAILS
  }

  // ---------------------------------------------------------------------------------------
  // Templates
  // ---------------------------------------------------------------------------------------

  const TWEET_LABEL: string := "Tweet: "

  const SUMMARIZE_INTRO: string := "Create a summary with EXACT formatting.\n\n"
  const CONTEXT_INTRO: string := "Create context with EXACT formatting.\n\n"
  const REPLIES_INTRO: string := "Generate 3 replies with EXACT formatting.\n\n"

  const SENTENCE_EXAMPLE: string :=
    "- Each sentence on its own line\n- Blank line between sentences\n"
    + "- NO metadata, URLs, or author names\n- NO labels or prefixes\n\n"
    + "EXAMPLE FORMAT:\nThis is the first sentence.\n\nThis is the second sentence.\n\n"
    + "This is the third sentence.\n\nRESPONSE:"

  /** The rules block of the summary and context prompts, around its sentence-count rule. */
  function SentenceRules(count: string): string {
    "\n\nFORMATTING RULES:\n- Write " + count + " complete sentences\n" + SENTENCE_EXAMPLE
  }
  const REPLIES_RULES: string :=
    "\n\nFORMATTING RULES:\n- Generate exactly 3 replies\n- Each reply on its own line\n"
    + "- Blank line between replies\n- NO metadata, URLs, or author names\n- NO labels or prefixes\n\n"
    + "EXAMPLE FORMAT:\n1. First reply here.\n\n2. Second reply here.\n\n3. Third reply here.\n\nRESPONSE:"

  /** `prompt` holds the line `Tweet: <text>` starting at index `i`. */
  predicate TweetLineAt(prompt: string, text: string, i: nat) {
    && i + |TWEET_LABEL| + |text| < |prompt|
    && prompt[i..i + |TWEET_LABEL|] == TWEET_LABEL
    && prompt[i + |TWEET_LABEL|..i + |TWEET_LABEL| + |text|] == text
    && prompt[i + |TWEET_LABEL| + |text|] == '\n'
    && (i == 0 || prompt[i - 1] == '\n')
  }

  /** The optional tail: `\n\nSource URL: <url>` if the url is truthy, then `\n\nAuthor: <author>` likewise. */
  function Extras(url: Option<string>, author: Option<string>): string {
    (if Truthy(url) then "\n\nSource URL: " + url.value else "")
    + (if Truthy(author) then "\n\nAuthor: " + author.value else "")
  }

  /** `intro + "Tweet: " + text + body`: the tweet line sits right after the intro. */
  lemma {:induction false} TweetLineAfterIntro(intro: string, text: string, body: string, tail: string)
    requires intro != [] ==> intro[|intro| - 1] == '\n'
    requires body != [] && body[0] == '\n'
    ensures TweetLineAt(intro + TWEET_LABEL + text + body + tail, text, |intro|)
  {
    var p := intro + TWEET_LABEL + text + body + tail;
    var i := |intro|;
    assert p == intro + (TWEET_LABEL + (text + (body + tail)));
    assert p[i..i + |TWEET_LABEL|] == TWEET_LABEL;
    assert p[i + |TWEET_LABEL|..i + |TWEET_LABEL| + |text|] == text;
    assert p[i + |TWEET_LABEL| + |text|] == body[0];
  }

  /** `build_summarize_prompt`; the persona does not enter the prompt. */
  function BuildSummarizePrompt(text: string, persona: string, url: Option<string>, author: Option<string>)
    : (p: string)
    ensures TweetLineAt(p, text, |SUMMARIZE_INTRO|)
    ensures p[..|SUMMARIZE_INTRO|] == SUMMARIZE_INTRO
  {
    TweetLineAfterIntro(SUMMARIZE_INTRO, text, SentenceRules("2-3"), Extras(url, author));
    SUMMARIZE_INTRO + TWEET_LABEL + text + SentenceRules("2-3") + Extras(url, author)
  }

  /** `build_context_prompt`; the persona does not enter the prompt. */
  function BuildContextPrompt(text: string, persona: string, url: Option<string>, author: Option<string>)
    : (p: string)
    ensures TweetLineAt(p, text, |CONTEXT_INTRO|)
    ensures p[..|CONTEXT_INTRO|] == CONTEXT_INTRO
  {
    TweetLineAfterIntro(CONTEXT_INTRO, text, SentenceRules("3-4"), Extras(url, author));
    CONTEXT_INTRO + TWEET_LABEL + text + SentenceRules("3-4") + Extras(url, author)
  }

  /** The persona block of the replies prompt. */
  function PersonaBlock(c: PersonaConfig): string {
    "\n\nPersona: " + c.name + " - " + c.description + "\nTone: " + c.tone + "\nStyle: " + c.style
  }

  /**
   * `build_replies_prompt`: the persona's configuration (human for an unknown one) fills
   * the persona block. The `style` argument does not enter the prompt: the `Style:` line
   * shows the persona's own style.
   */
  function BuildRepliesPrompt(text: string, persona: string, style: string, url: Option<string>,
                              author: Option<string>): (p: string)
    ensures TweetLineAt(p, text, |REPLIES_INTRO|)
    ensures p[..|REPLIES_INTRO|] == REPLIES_INTRO
  {
    var c := GetPersonaInfo(persona);
    TweetLineAfterIntro(REPLIES_INTRO, text, PersonaBlock(c) + REPLIES_RULES, Extras(url, author));
    REPLIES_INTRO + TWEET_LABEL + text + (PersonaBlock(c) + REPLIES_RULES) + Extras(url, author)
  }

  /** Url and author only extend the prompts: each is its bare form followed by the extras. */
  lemma ExtrasOnlyAppend(text: string, persona: string, style: string, url: Option<string>, author: Option<string>)
    ensures BuildSummarizePrompt(text, persona, url, author)
      == BuildSummarizePrompt(text, persona, None, None) + Extras(url, author)
    ensures BuildContextPrompt(text, persona, url, author)
      == BuildContextPrompt(text, persona, None, None) + Extras(url, author)
    ensures BuildRepliesPrompt(text, persona, style, url, author)
      == BuildRepliesPrompt(text, persona, style, None, None) + Extras(url, author)
  {
    assert Extras(None, None) == "";
    var s := SUMMARIZE_INTRO + TWEET_LABEL + text + SentenceRules("2-3");
    assert s + "" == s;
    var c := CONTEXT_INTRO + TWEET_LABEL + text + SentenceRules("3-4");
    assert c + "" == c;
    var r := REPLIES_INTRO + TWEET_LABEL + text + (PersonaBlock(GetPersonaInfo(persona)) + REPLIES_RULES);
    assert r + "" == r;
  }

  /**
   * The extras: empty iff neither url nor author is truthy; the URL part comes first and
   * the author part last.
   */
  lemma ExtrasShape(url: Option<string>, author: Option<string>)
    ensures Extras(url, author) == [] <==> !Truthy(url) && !Truthy(author)
    ensures Truthy(url) ==> Extras(url, author)[..|"\n\nSource URL: " + url.value|] == "\n\nSource URL: " + url.value
    ensures Truthy(author) ==>
      Extras(url, author)[|Extras(url, author)| - |"\n\nAuthor: " + author.value|..] == "\n\nAuthor: " + author.value
    ensures !Truthy(author) && Truthy(url) ==> Extras(url, author) == "\n\nSource URL: " + url.value
  {
  }

  /** An unknown persona builds exactly the human replies prompt. */
  lemma UnknownPersonaIsHuman(text: string, persona: string, style: string, url: Option<string>, author: Option<string>)
    requires !ValidatePersona(persona)
    ensures BuildRepliesPrompt(text, persona, style, url, author) == BuildRepliesPrompt(text, "human", style, url, author)
  {
  }

  /** The requested style never changes the replies prompt; the persona never changes the other two. */
  lemma IgnoredArguments(text: string, p1: string, p2: string, s1: string, s2: string,
                         url: Option<string>, author: Option<string>)
    ensures BuildRepliesPrompt(text, p1, s1, url, author) == BuildRepliesPrompt(text, p1, s2, url, author)
    ensures BuildSummarizePrompt(text, p1, url, author) == BuildSummarizePrompt(text, p2, url, author)
    ensures BuildContextPrompt(text, p1, url, author) == BuildContextPrompt(text, p2, url, author)
  {
  }
}
