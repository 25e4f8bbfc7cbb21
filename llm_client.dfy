/**
 * The language-model clients: the response formatter of the hosted (Dobby) client, the
 * availability test on its API key, the local mock client's tweet extraction and prompt
 * dispatch, and the factory's choice between the two.
 *
 * The regular expressions of the formatter are hand-written scanners: `Label:\s*[^\n]*`
 * and `Label:\s*` removal (left to right, non-overlapping, as `re.sub` does) and
 * `re.split(r'[.!?]+')`.
 */
module LlmClient {
  import opened Wrappers
  import opened Text
  import Prompts

  // ---------------------------------------------------------------------------------------
  // Label removal
  // ---------------------------------------------------------------------------------------

  /** Length of the leading run of whitespace (`\s*`, newlines included). */
  function SpaceRun(s: string): (n: nat)
    ensures n <= |s| && AllSpace(s[..n])
    ensures n < |s| ==> !IsSpace(s[n])
  {
    if s == [] || !IsSpace(s[0]) then 0 else 1 + SpaceRun(s[1..])
  }

  /** Length of the leading run of characters other than a newline (`[^\n]*`). */
  function LineRun(s: string): (n: nat)
    ensures n <= |s| && forall i :: 0 <= i < n ==> s[i] != '\n'
    ensures n < |s| ==> s[n] == '\n'
  {
    if s == [] || s[0] == '\n' then 0 else 1 + LineRun(s[1..])
  }

  /** No occurrence of `p` starts anywhere in `s`. */
  predicate Absent(s: string, p: string) {
    forall i :: 0 <= i < |s| ==> !StartsAt(s, p, i)
  }

  /**
   * `re.sub(label + r'\s*[^\n]*', '', s)` when `toEol`, else `re.sub(label + r'\s*', '', s)`:
   * each occurrence of the label, scanning left to right, goes with the whitespace after it
   * and, when `toEol`, the rest of that line.
   */
  function RemoveMatches(s: string, mark: string, toEol: bool): (r: string)
    requires mark != []
    ensures |r| <= |s|
    ensures forall c :: c in r ==> c in s
    ensures Absent(s, mark) ==> r == s
    decreases |s|
  {
    if s == [] then []
    else if StartsAt(s, mark, 0) then
      var rest := s[|mark|..];
      var a := SpaceRun(rest);
      var b := if toEol then LineRun(rest[a..]) else 0;
      RemoveMatches(rest[a + b..], mark, toEol)
    else
      var tail := RemoveMatches(s[1..], mark, toEol);
      assert forall c :: c in [s[0]] + tail ==> c == s[0] || c in tail;
      assert Absent(s, mark) ==> Absent(s[1..], mark) by {
        forall i | 0 <= i < |s[1..]| && Absent(s, mark) ensures !StartsAt(s[1..], mark, i) {
          StartsAtTail(s, mark, i);
        }
      }
      [s[0]] + tail
  }

  /** A prefix in which no occurrence of the label starts is copied through unchanged. */
  lemma {:induction false} RemoveMatchesSkipsPrefix(pre: string, post: string, mark: string, toEol: bool)
    requires mark != []
    requires forall i :: 0 <= i < |pre| ==> !StartsAt(pre + post, mark, i)
    ensures RemoveMatches(pre + post, mark, toEol) == pre + RemoveMatches(post, mark, toEol)
    decreases |pre|
  {
    if pre != [] {
      var s := pre + post;
      var t := pre[1..] + post;
      assert s == [pre[0]] + t;
      forall i | 0 <= i < |pre[1..]| ensures !StartsAt(t, mark, i) {
        StartsAtTail(s, mark, i);
      }
      RemoveMatchesSkipsPrefix(pre[1..], post, mark, toEol);
      RemoveMatchesKeep(pre[0], t, mark, toEol);
      ConsAppend(pre, RemoveMatches(post, mark, toEol));
    } else {
      assert pre + post == post;
    }
  }

  /** A character where no label starts is kept, in front of the result for the rest. */
  lemma RemoveMatchesKeep(h: char, t: string, mark: string, toEol: bool)
    requires mark != [] && !StartsAt([h] + t, mark, 0)
    ensures RemoveMatches([h] + t, mark, toEol) == [h] + RemoveMatches(t, mark, toEol)
  {
    assert ([h] + t)[1..] == t;
  }

  /** Whitespace followed by a non-space (or nothing): `\s*` takes exactly the whitespace. */
  lemma {:induction false} SpaceRunOver(ws: string, x: string)
    requires AllSpace(ws) && (x == [] || !IsSpace(x[0]))
    ensures SpaceRun(ws + x) == |ws|
    decreases |ws|
  {
    if ws == [] {
      assert ws + x == x;
    } else {
      assert (ws + x)[1..] == ws[1..] + x;
      SpaceRunOver(ws[1..], x);
    }
  }

  /** A newline-free line followed by a newline (or nothing): `[^\n]*` takes exactly the line. */
  lemma {:induction false} LineRunOver(line: string, post: string)
    requires forall i :: 0 <= i < |line| ==> line[i] != '\n'
    requires post == [] || post[0] == '\n'
    ensures LineRun(line + post) == |line|
    decreases |line|
  {
    if line == [] {
      assert line + post == post;
    } else {
      assert (line + post)[1..] == line[1..] + post;
      LineRunOver(line[1..], post);
    }
  }

  /**
   * The label `mark`, its maximal whitespace run `ws`, the rest of that line `line` and then a
   * newline (or the end): the label, the whitespace and the line go, the newline stays. The
   * line is empty only at the end of the text, since `\s*` also takes newlines.
   */
  lemma LabelLineDropped(mark: string, ws: string, line: string, post: string)
    requires mark != [] && AllSpace(ws)
    requires (line != [] && !IsSpace(line[0])) || (line == [] && post == [])
    requires forall i :: 0 <= i < |line| ==> line[i] != '\n'
    requires post == [] || post[0] == '\n'
    ensures RemoveMatches(mark + ws + line + post, mark, true) == RemoveMatches(post, mark, true)
  {
    var s := mark + ws + line + post;
    assert StartsAt(s, mark, 0);
    var rest := s[|mark|..];
    assert rest == ws + (line + post);
    SpaceRunOver(ws, line + post);
    assert rest[|ws|..] == line + post;
    LineRunOver(line, post);
    assert rest[|ws| + |line|..] == post;
  }

  /**
   * The label `mark` and its maximal whitespace run `ws` go, for the labels removed without
   * the rest of their line. With `RemoveMatchesSkipsPrefix` (a character where no label
   * starts is kept) and `LabelLineDropped`, these determine the result on every text.
   */
  lemma LabelSpaceDropped(mark: string, ws: string, post: string)
    requires mark != [] && AllSpace(ws) && (post == [] || !IsSpace(post[0]))
    ensures RemoveMatches(mark + ws + post, mark, false) == RemoveMatches(post, mark, false)
  {
    var s := mark + ws + post;
    assert StartsAt(s, mark, 0);
    var rest := s[|mark|..];
    assert rest == ws + post;
    SpaceRunOver(ws, post);
    assert rest[|ws|..] == post;
  }

  /** `\s*` runs across newlines: a label ending its line takes the whole next line with it. */
  lemma BlankLabelTakesNextLine()
    ensures RemoveMatches("Author:" + "\n" + "next line" + "\nkept", "Author:", true) == "\nkept"
  {
    LabelLineDropped("Author:", "\n", "next line", "\nkept");
    assert Absent("\nkept", "Author:");
  }

  /** The five labels of `_format_response`, in the order they are removed. */
  const LABELS: seq<string> := ["Author:", "Source URL:", "Summary:", "Context:", "Reply Suggestions:"]

  /** The five label substitutions of `_format_response`, in their order. */
  function StripLabels(s: string): (r: string)
    ensures |r| <= |s| && forall c :: c in r ==> c in s
    ensures (forall i :: 0 <= i < |LABELS| ==> Absent(s, LABELS[i])) ==> r == s
  {
    assert (forall i :: 0 <= i < |LABELS| ==> Absent(s, LABELS[i])) ==>
      Absent(s, LABELS[0]) && Absent(s, LABELS[1]) && Absent(s, LABELS[2]) && Absent(s, LABELS[3])
      && Absent(s, LABELS[4]);
    var a := RemoveMatches(s, "Author:", true);
    var b := RemoveMatches(a, "Source URL:", true);
    var c := RemoveMatches(b, "Summary:", false);
    var d := RemoveMatches(c, "Context:", false);
    RemoveMatches(d, "Reply Suggestions:", false)
  }

  // ---------------------------------------------------------------------------------------
  // Sentence re-flow
  // ---------------------------------------------------------------------------------------

  predicate IsTerminator(c: char) {
    c == '.' || c == '!' || c == '?'
  }

  predicate NoTerminator(s: string) {
    forall c :: c in s ==> !IsTerminator(c)
  }

  /** Index of the first terminator, or the length when there is none. */
  function UntilTerminator(s: string): (n: nat)
    ensures n <= |s| && NoTerminator(s[..n])
    ensures n < |s| ==> IsTerminator(s[n])
  {
    if s == [] || IsTerminator(s[0]) then 0
    else
      var n := 1 + UntilTerminator(s[1..]);
      assert s[..n] == [s[0]] + s[1..][..n - 1];
      n
  }

  /** Length of the leading run of terminators. */
  function TerminatorRun(s: string): (n: nat)
    ensures n <= |s|
    ensures s != [] && IsTerminator(s[0]) ==> n >= 1
    ensures forall i :: 0 <= i < n ==> IsTerminator(s[i])
  {
    if s == [] || !IsTerminator(s[0]) then 0 else 1 + TerminatorRun(s[1..])
  }

  /** `re.split(r'[.!?]+', s)`: the pieces between maximal runs of terminators, in order. */
  function SplitSentences(s: string): (parts: seq<string>)
    ensures |parts| >= 1
    ensures forall p :: p in parts ==> NoTerminator(p)
    ensures NoTerminator(s) ==> parts == [s]
    decreases |s|
  {
    assert NoTerminator(s) ==> UntilTerminator(s) == |s| by {
      if UntilTerminator(s) < |s| { assert s[UntilTerminator(s)] in s; }
    }
    var i := UntilTerminator(s);
    if i == |s| then
      assert s[..i] == s;
      [s]
    else
      var j := i + TerminatorRun(s[i..]);
      [s[..i]] + SplitSentences(s[j..])
  }

  /** In `a + t + b`, with `a` free of terminators, the first terminator is at `|a|`. */
  lemma {:induction false} UntilTerminatorOver(a: string, rest: string)
    requires NoTerminator(a) && rest != [] && IsTerminator(rest[0])
    ensures UntilTerminator(a + rest) == |a|
    decreases |a|
  {
    if a == [] {
      assert a + rest == rest;
    } else {
      assert a[0] in a;
      assert (a + rest)[1..] == a[1..] + rest;
      assert forall c :: c in a[1..] ==> c in a;
      UntilTerminatorOver(a[1..], rest);
    }
  }

  /** A run of terminators followed by a non-terminator (or nothing) is a maximal run. */
  lemma {:induction false} TerminatorRunOver(t: string, b: string)
    requires forall i :: 0 <= i < |t| ==> IsTerminator(t[i])
    requires b == [] || !IsTerminator(b[0])
    ensures TerminatorRun(t + b) == |t|
    decreases |t|
  {
    if t == [] {
      assert t + b == b;
    } else {
      assert (t + b)[1..] == t[1..] + b;
      TerminatorRunOver(t[1..], b);
    }
  }

  /**
   * A terminator-free `a`, a maximal run `t` of terminators, then the rest: `a` is the first
   * piece and the split goes on after the run. With `NoTerminator(s) ==> parts == [s]` this
   * determines the pieces on every text.
   */
  lemma SplitSentencesStep(a: string, t: string, b: string)
    requires NoTerminator(a) && t != [] && (forall i :: 0 <= i < |t| ==> IsTerminator(t[i]))
    requires b == [] || !IsTerminator(b[0])
    ensures SplitSentences(a + t + b) == [a] + SplitSentences(b)
  {
    var s := a + t + b;
    assert s == a + (t + b);
    UntilTerminatorOver(a, t + b);
    assert s[|a|..] == t + b;
    TerminatorRunOver(t, b);
    assert s[..|a|] == a;
    assert s[|a| + |t|..] == b;
  }

  /** The non-terminator characters of `s`, in order. */
  function DropTerminators(s: string): string {
    if s == [] then []
    else if IsTerminator(s[0]) then DropTerminators(s[1..])
    else [s[0]] + DropTerminators(s[1..])
  }

  function Concat(parts: seq<string>): string {
    if parts == [] then [] else parts[0] + Concat(parts[1..])
  }

  lemma {:induction false} DropTerminatorsAppend(a: string, b: string)
    ensures DropTerminators(a + b) == DropTerminators(a) + DropTerminators(b)
    decreases |a|
  {
    if a != [] {
      assert (a + b)[1..] == a[1..] + b;
      DropTerminatorsAppend(a[1..], b);
    } else {
      assert a + b == b;
    }
  }

  lemma {:induction false} DropTerminatorsNone(s: string)
    requires NoTerminator(s)
    ensures DropTerminators(s) == s
    decreases |s|
  {
    if s != [] {
      assert s[0] in s;
      assert forall c :: c in s[1..] ==> c in s;
      DropTerminatorsNone(s[1..]);
    }
  }

  lemma {:induction false} DropTerminatorsAll(s: string)
    requires forall i :: 0 <= i < |s| ==> IsTerminator(s[i])
    ensures DropTerminators(s) == []
    decreases |s|
  {
    if s != [] {
      DropTerminatorsAll(s[1..]);
    }
  }

  /** The leading run of terminators of `s[i..]`, read back in `s`. */
  lemma {:induction false} TerminatorRunAt(s: string, i: nat, j: nat)
    requires i <= |s| && j == i + TerminatorRun(s[i..])
    ensures j <= |s| && forall k :: i <= k < j ==> IsTerminator(s[k])
  {
    forall k | i <= k < j ensures IsTerminator(s[k]) {
      assert s[k] == s[i..][k - i];
    }
  }

  /** A text that is terminator-free up to `i` and all terminators from `i` to `j`. */
  lemma {:induction false} DropTerminatorsStep(s: string, i: nat, j: nat)
    requires i <= j <= |s| && NoTerminator(s[..i])
    requires forall k :: i <= k < j ==> IsTerminator(s[k])
    ensures DropTerminators(s) == s[..i] + DropTerminators(s[j..])
  {
    var a, m, b := s[..i], s[i..j], s[j..];
    assert s == a + (m + b);
    DropTerminatorsAppend(a, m + b);
    DropTerminatorsAppend(m, b);
    DropTerminatorsNone(a);
    assert forall k :: 0 <= k < |m| ==> IsTerminator(m[k]) by {
      forall k | 0 <= k < |m| ensures IsTerminator(m[k]) {
        assert m[k] == s[i + k];
      }
    }
    DropTerminatorsAll(m);
  }

  /** Splitting loses exactly the terminators: the pieces put together are the rest of the text. */
  lemma {:induction false} SplitSentencesKeepsText(s: string)
    ensures Concat(SplitSentences(s)) == DropTerminators(s)
    decreases |s|
  {
    var i := UntilTerminator(s);
    if i == |s| {
      assert s[..i] == s;
      DropTerminatorsNone(s);
      assert Concat([s]) == s + Concat([]);
    } else {
      var j := i + TerminatorRun(s[i..]);
      SplitSentencesKeepsText(s[j..]);
      TerminatorRunAt(s, i, j);
      DropTerminatorsStep(s, i, j);
      var parts := SplitSentences(s);
      assert parts == [s[..i]] + SplitSentences(s[j..]);
      assert parts[1..] == SplitSentences(s[j..]);
    }
  }

  /** The kept sentences: each piece stripped, empty ones dropped, in order. */
  function KeepSentences(pieces: seq<string>): (kept: seq<string>)
    ensures |kept| <= |pieces|
  {
    if pieces == [] then []
    else
      var init := KeepSentences(pieces[..|pieces| - 1]);
      var last := Strip(pieces[|pieces| - 1]);
      if last != [] then init + [last] else init
  }

  /** Every kept sentence is non-empty and trimmed, and free of terminators when the pieces are. */
  lemma {:induction false} KeepSentencesShape(pieces: seq<string>)
    ensures forall x :: x in KeepSentences(pieces) ==> x != [] && NoSpaceEdges(x)
    ensures (forall p :: p in pieces ==> NoTerminator(p)) ==>
      forall x :: x in KeepSentences(pieces) ==> NoTerminator(x)
  {
    if pieces != [] {
      var init := pieces[..|pieces| - 1];
      KeepSentencesShape(init);
      assert forall p :: p in init ==> p in pieces;
      assert pieces[|pieces| - 1] in pieces;
    }
  }

  /** Separator between re-flowed sentences. */
  const SENTENCE_BREAK: string := ".\n\n"

  /** The sentence re-flow on the trimmed text: more than one sentence are re-joined. */
  function Reflow(text: string): (r: string)
    ensures NoTerminator(text) ==> r == text
    ensures NoSpaceEdges(text) ==> NoSpaceEdges(r)
  {
    var kept := KeepSentences(SplitSentences(text));
    if |kept| > 1 then
      KeepSentencesShape(SplitSentences(text));
      JoinedEdges(kept);
      Join(kept, SENTENCE_BREAK) + "."
    else text
  }

  /** Several non-blank sentences, re-joined and closed by `.`, have no whitespace at either end. */
  lemma JoinedEdges(kept: seq<string>)
    requires |kept| > 1 && forall x :: x in kept ==> x != [] && NoSpaceEdges(x)
    ensures NoSpaceEdges(Join(kept, SENTENCE_BREAK) + ".")
  {
    assert kept[0] in kept;
    JoinHead(kept, SENTENCE_BREAK);
    var j := Join(kept, SENTENCE_BREAK);
    assert j != [] && (j + ".")[0] == j[0] == kept[0][0];
  }

  /** A join of several parts starts with its first part. */
  lemma JoinHead(parts: seq<string>, sep: string)
    requires |parts| > 1
    ensures parts[0] <= Join(parts, sep)
  {
  }

  /**
   * `_format_response(text)`: the result never starts or ends with whitespace; a text without
   * labels and terminators comes back trimmed and otherwise unchanged.
   */
  function FormatSpec(raw: string): (r: string)
    ensures NoSpaceEdges(r)
    ensures (forall i :: 0 <= i < |LABELS| ==> Absent(raw, LABELS[i])) && NoTerminator(raw) ==> r == Strip(raw)
  {
    var t := Strip(StripLabels(raw));
    StripMembers(StripLabels(raw));
    Reflow(t)
  }

  /** Every character of a join comes from a part or from the separator. */
  lemma {:induction false} JoinChars(parts: seq<string>, sep: string, c: char)
    requires c in Join(parts, sep)
    ensures c in sep || exists i :: 0 <= i < |parts| && c in parts[i]
    decreases |parts|
  {
    if |parts| > 1 {
      var rest := Join(parts[1..], sep);
      assert Join(parts, sep) == parts[0] + sep + rest;
      if c in rest {
        JoinChars(parts[1..], sep, c);
        if !(c in sep) {
          var i :| 0 <= i < |parts[1..]| && c in parts[1..][i];
          assert c in parts[i + 1];
        }
      } else if !(c in sep) {
        assert c in parts[0];
      }
    } else if |parts| == 1 {
      assert c in parts[0];
    }
  }

  /**
   * With more than one sentence, the re-flowed text ends with `.` and holds no `!` or `?`;
   * with at most one, it is the text itself.
   */
  lemma {:induction false} ReflowShape(text: string)
    ensures var kept := KeepSentences(SplitSentences(text));
      var r := Reflow(text);
      && (|kept| > 1 ==> r != [] && r[|r| - 1] == '.' && '!' !in r && '?' !in r)
      && (|kept| <= 1 ==> r == text)
  {
    var kept := KeepSentences(SplitSentences(text));
    if |kept| > 1 {
      KeepSentencesShape(SplitSentences(text));
      JoinedSentences(kept);
      assert Reflow(text) == Join(kept, SENTENCE_BREAK) + ".";
    } else {
      assert Reflow(text) == text;
    }
  }

  /** Sentences without terminators, joined by `.` and a blank line and closed by `.`. */
  lemma JoinedSentences(kept: seq<string>)
    requires forall x :: x in kept ==> NoTerminator(x)
    ensures var r := Join(kept, SENTENCE_BREAK) + ".";
      r[|r| - 1] == '.' && '!' !in r && '?' !in r
  {
    var j := Join(kept, SENTENCE_BREAK);
    forall c | c in j ensures !(c == '!' || c == '?') {
      JoinChars(kept, SENTENCE_BREAK, c);
      if !(c in SENTENCE_BREAK) {
        var i :| 0 <= i < |kept| && c in kept[i];
        assert kept[i] in kept;
      }
    }
    assert forall c :: c in j + "." ==> c in j || c == '.';
  }

  /** Keeping one more piece appends it, stripped, unless it strips to nothing. */
  lemma KeepSentencesSnoc(pieces: seq<string>, p: string)
    ensures KeepSentences(pieces + [p])
      == if Strip(p) != [] then KeepSentences(pieces) + [Strip(p)] else KeepSentences(pieces)
  {
    assert (pieces + [p])[..|pieces|] == pieces;
  }

  /** One more step of the sentence loop. */
  lemma KeepSentencesStep(sentences: seq<string>, i: nat)
    requires i < |sentences|
    ensures KeepSentences(sentences[..i + 1])
      == if Strip(sentences[i]) != [] then KeepSentences(sentences[..i]) + [Strip(sentences[i])]
         else KeepSentences(sentences[..i])
  {
    assert sentences[..i + 1] == sentences[..i] + [sentences[i]];
    KeepSentencesSnoc(sentences[..i], sentences[i]);
  }

  /** The sentence loop of `_format_response`: strip each piece and keep the non-empty ones. */
  method KeepLoop(sentences: seq<string>) returns (formatted: seq<string>)
    ensures formatted == KeepSentences(sentences)
  {
    formatted := [];
    var i := 0;
    assert sentences[..0] == [];
    while i < |sentences|
      invariant 0 <= i <= |sentences|
      invariant formatted == KeepSentences(sentences[..i])
    {
      KeepSentencesStep(sentences, i);
      var sentence := Strip(sentences[i]);
      if sentence != [] {
        formatted := formatted + [sentence];
      }
      i := i + 1;
    }
    assert sentences[..i] == sentences;
  }

  /** The re-flow of `_format_response` on the trimmed text. */
  method ReflowSentences(text: string) returns (r: string)
    ensures r == Reflow(text)
  {
    var formatted := KeepLoop(SplitSentences(text));
    if |formatted| > 1 {
      r := Join(formatted, SENTENCE_BREAK) + ".";
    } else {
      r := text;
    }
  }

  /** `_format_response`: the label substitutions and the trim, then the sentence loop. */
  method FormatResponse(raw: string) returns (r: string)
    ensures r == FormatSpec(raw)
  {
    var text := Strip(StripLabels(raw));
    r := ReflowSentences(text);
  }

  // ---------------------------------------------------------------------------------------
  // Availability and the factory
  // ---------------------------------------------------------------------------------------

  /** `DobbyClient.is_available`: a key is present and longer than 10 characters. */
  predicate IsAvailable(apiKey: Option<string>): (ok: bool)
    ensures ok <==> apiKey.Some? && |apiKey.value| > 10
  {
    Truthy(apiKey) && |apiKey.value| > 10
  }

  /** `api_key or settings.fireworks_api_key`. */
  function DobbyApiKey(apiKey: Option<string>, settingsKey: Option<string>): (k: Option<string>)
    ensures Truthy(apiKey) ==> k == apiKey
    ensures !Truthy(apiKey) ==> k == settingsKey
  {
    if Truthy(apiKey) then apiKey else settingsKey
  }

  datatype ClientChoice = Dobby | Mock

  /**
   * `LLMClientFactory.create_client`: the hosted client is built without its own key, and is
   * picked exactly when the configured key makes it available.
   */
  function CreateClient(settingsKey: Option<string>): (c: ClientChoice)
    ensures c == Dobby <==> IsAvailable(settingsKey)
    ensures c == Dobby ==> IsAvailable(DobbyApiKey(None, settingsKey))
  {
    if Truthy(settingsKey) && |settingsKey.value| > 10 then
      if IsAvailable(DobbyApiKey(None, settingsKey)) then Dobby else Mock
    else Mock
  }

  // ---------------------------------------------------------------------------------------
  // The mock client
  // ---------------------------------------------------------------------------------------

  const TWEET_MARK: string := "Tweet:"
  const SAMPLE_TWEET: string := "Sample tweet content"

  /** The mock's tweet: from after the first `Tweet:` to the next newline (or the end), trimmed. */
  function TweetContent(prompt: string): (c: string)
    ensures !Contains(prompt, TWEET_MARK) ==> c == SAMPLE_TWEET
    ensures Contains(prompt, TWEET_MARK) ==> NoSpaceEdges(c) && '\n' !in c
  {
    if Contains(prompt, TWEET_MARK) then
      var start := FindFrom(prompt, TWEET_MARK, 0) + |TWEET_MARK|;
      var e := FindFrom(prompt, "\n", start);
      var end := if e == -1 then |prompt| else e;
      NoNewlineBefore(prompt, start, end);
      Strip(prompt[start..end])
    else SAMPLE_TWEET
  }

  /** Up to the first newline found from `start`, the slice holds no newline. */
  lemma NoNewlineBefore(prompt: string, start: nat, end: int)
    requires start <= end <= |prompt|
    requires forall j :: start <= j < end ==> !StartsAt(prompt, "\n", j)
    ensures '\n' !in prompt[start..end]
  {
    forall j | start <= j < end ensures prompt[j] != '\n' {
      assert !StartsAt(prompt, "\n", j);
      assert prompt[j..j + 1] == [prompt[j]];
    }
    assert forall c :: c in prompt[start..end] ==> exists j :: start <= j < end && prompt[j] == c;
  }

  datatype Kind = SummarizeKind | ContextKind | ReplyKind | DefaultKind

  /** The mock's dispatch on the lower-cased prompt: `summarize`, then `context`, then `reply`. */
  function MockKind(prompt: string): (k: Kind)
    ensures k == SummarizeKind <==> Contains(Lower(prompt), "summarize")
    ensures k == ContextKind <==> !Contains(Lower(prompt), "summarize") && Contains(Lower(prompt), "context")
    ensures k == ReplyKind <==>
      !Contains(Lower(prompt), "summarize") && !Contains(Lower(prompt), "context") && Contains(Lower(prompt), "reply")
  {
    var l := Lower(prompt);
    if Contains(l, "summarize") then SummarizeKind
    else if Contains(l, "context") then ContextKind
    else if Contains(l, "reply") then ReplyKind
    else DefaultKind
  }

  /** The dispatch does not depend on letter case. */
  lemma MockKindIgnoresCase(prompt: string)
    ensures MockKind(Lower(prompt)) == MockKind(prompt)
  {
    LowerIdempotent(prompt);
  }

  /** The fixed parts of the canned responses, around the quoted tweet. */
  const SUMMARY_CLOSE: string :=
    "...\n\nThis tweet discusses important topics that are relevant to the audience.\n\nThe key points are clearly presented and easy to understand."
  const CONTEXT_CLOSE: string :=
    "...\n\nThis provides important background information about the topic.\n\nThe context helps readers understand the broader implications.\n\nAdditional insights are provided to enhance understanding."
  const REPLY_MIDDLE: string :=
    "...! I'd love to hear more about this.\n2. This is really interesting - what are your thoughts on the implications?\n3. Thanks for sharing this insight about "
  const DEFAULT_CLOSE: string :=
    "...\n\nThis is a generated response based on the input content.\n\nThe response addresses the key points mentioned in the tweet."

  /** The fixed opening of each kind's canned response. */
  function MockOpening(kind: Kind): string {
    match kind
    case SummarizeKind => "Summary of the tweet: "
    case ContextKind => "Context for the tweet: "
    case ReplyKind => "1. Great point about "
    case DefaultKind => "Response to: "
  }

  /** The canned response of each kind around the (shortened) tweet. */
  function MockText(kind: Kind, tweet: string): string {
    match kind
    case SummarizeKind => MockOpening(kind) + Take(tweet, 100) + SUMMARY_CLOSE
    case ContextKind => MockOpening(kind) + Take(tweet, 100) + CONTEXT_CLOSE
    case ReplyKind => MockOpening(kind) + Take(tweet, 50) + (REPLY_MIDDLE + Take(tweet, 30) + "...!")
    case DefaultKind => MockOpening(kind) + Take(tweet, 100) + DEFAULT_CLOSE
  }

  /**
   * Every canned response starts with its kind's fixed opening, followed by the first 100
   * characters of the tweet (50 for replies), or the whole tweet when it is shorter.
   */
  lemma MockTextQuotesTweet(kind: Kind, tweet: string)
    ensures var open := MockOpening(kind);
      var q := Take(tweet, if kind == ReplyKind then 50 else 100);
      var r := MockText(kind, tweet);
      |open| + |q| <= |r| && r[..|open|] == open && r[|open|..|open| + |q|] == q
  {
    match kind
    case SummarizeKind => SlicesOfThree(MockOpening(kind), Take(tweet, 100), SUMMARY_CLOSE);
    case ContextKind => SlicesOfThree(MockOpening(kind), Take(tweet, 100), CONTEXT_CLOSE);
    case ReplyKind => SlicesOfThree(MockOpening(kind), Take(tweet, 50), REPLY_MIDDLE + Take(tweet, 30) + "...!");
    case DefaultKind => SlicesOfThree(MockOpening(kind), Take(tweet, 100), DEFAULT_CLOSE);
  }

  /** A generation result without its timing. */
  datatype Generation = Generation(text: string, model: string, provider: string, tokensUsed: nat, success: bool)

  /** `LocalMockClient.generate(prompt)`. */
  function MockGenerate(prompt: string): (g: Generation)
    ensures g.success && g.model == "mock-local" && g.provider == "local"
    ensures g.text == MockText(MockKind(prompt), TweetContent(prompt))
    ensures g.tokensUsed == |Words(g.text)|
  {
    var text := MockText(MockKind(prompt), TweetContent(prompt));
    Generation(text, "mock-local", "local", |Words(text)|, true)
  }

  /** No `Tweet:` starts inside `intro`, nor where `intro` runs into the mark that follows it. */
  predicate MarkOnlyAfter(intro: string) {
    forall i :: 0 <= i < |intro| ==> intro[i] != 'T' || (i + 1 < |intro| && intro[i + 1] != 'w')
  }

  /** The mark is the label without its trailing space. */
  lemma MarkStartsLabel()
    ensures |TWEET_MARK| == 6 && |Prompts.TWEET_LABEL| == 7 && Prompts.TWEET_LABEL[..6] == TWEET_MARK
    ensures Prompts.TWEET_LABEL[0] == 'T' && Prompts.TWEET_LABEL[1] == 'w'
  {
    assert Prompts.TWEET_LABEL == TWEET_MARK + " ";
  }

  /** The first `Tweet:` of such a prompt is the one right after the intro. */
  lemma {:induction false} MarkFoundAfterIntro(intro: string, prompt: string, text: string)
    requires MarkOnlyAfter(intro)
    requires Prompts.TweetLineAt(prompt, text, |intro|) && prompt[..|intro|] == intro
    ensures FindFrom(prompt, TWEET_MARK, 0) == |intro|
  {
    var k := |intro|;
    var lbl := Prompts.TWEET_LABEL;
    MarkStartsLabel();
    assert StartsAt(prompt, TWEET_MARK, k) by {
      var w := prompt[k..k + |lbl|];
      assert w == lbl;
      assert prompt[k..k + 6] == w[..6];
    }
    forall j | 0 <= j < k ensures !StartsAt(prompt, TWEET_MARK, j) {
      assert prompt[j] == intro[j];
      if j + 1 < k {
        assert prompt[j + 1] == intro[j + 1];
      } else {
        assert prompt[j + 1] == prompt[k..k + |lbl|][0];
      }
    }
    FindFromIs(prompt, TWEET_MARK, 0, k);
  }

  /** After the mark, the next newline is the one that ends the tweet line. */
  lemma {:induction false} NewlineAfterText(prompt: string, text: string, k: nat)
    requires Prompts.TweetLineAt(prompt, text, k)
    requires forall i :: 0 <= i < |text| ==> text[i] != '\n'
    ensures FindFrom(prompt, "\n", k + |TWEET_MARK|) == k + |Prompts.TWEET_LABEL| + |text|
  {
    var lbl := Prompts.TWEET_LABEL;
    var start := k + |TWEET_MARK|;
    var nl := k + |lbl| + |text|;
    assert StartsAt(prompt, "\n", nl) by {
      assert prompt[nl..nl + 1] == [prompt[nl]];
    }
    forall j | start <= j < nl ensures !StartsAt(prompt, "\n", j) {
      if j == start {
        assert prompt[j] == prompt[k..k + |lbl|][6] == ' ';
      } else {
        assert prompt[j] == prompt[k + |lbl|..nl][j - k - |lbl|] == text[j - k - |lbl|];
      }
    }
    FindFromIs(prompt, "\n", start, nl);
  }

  /** Between the mark and the end of the line: the label's space, then the text. */
  lemma TweetLineAfterMark(prompt: string, text: string, k: nat)
    requires Prompts.TweetLineAt(prompt, text, k)
    ensures prompt[k + |TWEET_MARK|..k + |Prompts.TWEET_LABEL| + |text|] == [' '] + text
  {
    var lbl := Prompts.TWEET_LABEL;
    var start := k + |TWEET_MARK|;
    assert prompt[start] == prompt[k..k + |lbl|][6];
    assert prompt[start + 1..k + |lbl| + |text|] == text;
  }

  /** Where the mark and the newline after it are found, the tweet is the trimmed text between. */
  lemma TweetContentBetween(prompt: string, start: nat, nl: nat)
    requires FindFrom(prompt, TWEET_MARK, 0) >= 0 && start == FindFrom(prompt, TWEET_MARK, 0) + |TWEET_MARK|
    requires FindFrom(prompt, "\n", start) == nl
    ensures start <= nl <= |prompt| && TweetContent(prompt) == Strip(prompt[start..nl])
  {
  }

  /**
   * The tweet is the rest of the line of the first `Tweet:`, trimmed, whether a newline or the
   * end of the prompt ends that line.
   */
  lemma TweetContentOfLine(pre: string, line: string, post: string)
    requires forall i :: 0 <= i < |pre| ==> !StartsAt(pre + TWEET_MARK + line + post, TWEET_MARK, i)
    requires '\n' !in line
    requires post == [] || post[0] == '\n'
    ensures TweetContent(pre + TWEET_MARK + line + post) == Strip(line)
  {
    var p := pre + TWEET_MARK + line + post;
    var start := |pre| + |TWEET_MARK|;
    assert p == pre + TWEET_MARK + (line + post);
    SlicesOfThree(pre, TWEET_MARK, line + post);
    MarkFirstAt(p, |pre|);
    NewlineEndsLine(p, start, line, post);
    assert p[start..start + |line|] == line;
  }

  /** A mark at `k` with none before it is the first one found. */
  lemma MarkFirstAt(p: string, k: nat)
    requires k + |TWEET_MARK| <= |p| && p[k..k + |TWEET_MARK|] == TWEET_MARK
    requires forall i :: 0 <= i < k ==> !StartsAt(p, TWEET_MARK, i)
    ensures Contains(p, TWEET_MARK) && FindFrom(p, TWEET_MARK, 0) == k
  {
    ContainsAt(p, TWEET_MARK, k);
    FindFromIs(p, TWEET_MARK, 0, k);
  }

  /** From `start`, a newline-free line ends at the newline that follows it, or at the end. */
  lemma NewlineEndsLine(p: string, start: nat, line: string, post: string)
    requires start <= |p| && p[start..] == line + post
    requires '\n' !in line && (post == [] || post[0] == '\n')
    ensures FindFrom(p, "\n", start) == if post == [] then -1 else start + |line|
  {
    var end := start + |line|;
    forall j | start <= j < end ensures !StartsAt(p, "\n", j) {
      assert p[j] == (line + post)[j - start] == line[j - start];
      assert line[j - start] in line;
    }
    if post != [] {
      assert p[end] == (line + post)[|line|];
      assert p[end..end + 1] == [p[end]];
      FindFromIs(p, "\n", start, end);
    } else {
      assert |p| == end;
    }
  }

  /** Where the mark is followed by one space, the text and then the first newline, the mock reads the text, trimmed. */
  lemma {:induction false} TweetContentAt(prompt: string, text: string, start: nat, nl: nat)
    requires FindFrom(prompt, TWEET_MARK, 0) >= 0 && start == FindFrom(prompt, TWEET_MARK, 0) + |TWEET_MARK|
    requires FindFrom(prompt, "\n", start) == nl
    requires start <= nl <= |prompt| && prompt[start..nl] == [' '] + text
    ensures TweetContent(prompt) == Strip(text)
  {
    TweetContentBetween(prompt, start, nl);
    StripLeadingSpace(text);
  }

  /** In `intro + "Tweet: " + text + ...` with a newline-free text, the mock reads back the text, trimmed. */
  lemma {:induction false} MockReadsTweetLine(intro: string, prompt: string, text: string)
    requires MarkOnlyAfter(intro)
    requires Prompts.TweetLineAt(prompt, text, |intro|) && prompt[..|intro|] == intro
    requires forall i :: 0 <= i < |text| ==> text[i] != '\n'
    ensures TweetContent(prompt) == Strip(text)
  {
    var k := |intro|;
    MarkFoundAfterIntro(intro, prompt, text);
    NewlineAfterText(prompt, text, k);
    TweetLineAfterMark(prompt, text, k);
    TweetContentAt(prompt, text, k + |TWEET_MARK|, k + |Prompts.TWEET_LABEL| + |text|);
  }

  /** A text whose only `T` is followed by something other than `w` holds no `Tw`. */
  lemma MarkOnlyAfterSplit(a: string, b: string)
    requires 'T' !in a && 'T' !in b && b != [] && b[0] != 'w'
    ensures MarkOnlyAfter(a + "T" + b)
  {
    var s := a + "T" + b;
    forall i | 0 <= i < |s| && i != |a| ensures s[i] != 'T' {
      if i < |a| {
        assert s[i] == a[i];
      } else {
        assert s[i] == b[i - |a| - 1];
      }
    }
  }

  /** The three intros hold no `Tw`: their one `T` ends `EXACT`. */
  lemma IntrosMarkFree()
    ensures MarkOnlyAfter(Prompts.SUMMARIZE_INTRO)
    ensures MarkOnlyAfter(Prompts.CONTEXT_INTRO)
    ensures MarkOnlyAfter(Prompts.REPLIES_INTRO)
  {
    SummarizeIntroMarkFree();
    ContextIntroMarkFree();
    RepliesIntroMarkFree();
  }

  const INTRO_TAIL: string := " formatting.\n\n"

  lemma SummarizeIntroMarkFree()
    ensures MarkOnlyAfter(Prompts.SUMMARIZE_INTRO)
  {
    var head := "Create a summary with EXAC";
    assert 'T' !in head && 'T' !in INTRO_TAIL && INTRO_TAIL[0] != 'w';
    assert Prompts.SUMMARIZE_INTRO == head + "T" + INTRO_TAIL;
    MarkOnlyAfterSplit(head, INTRO_TAIL);
  }

  lemma ContextIntroMarkFree()
    ensures MarkOnlyAfter(Prompts.CONTEXT_INTRO)
  {
    var head := "Create context with EXAC";
    assert 'T' !in head && 'T' !in INTRO_TAIL && INTRO_TAIL[0] != 'w';
    assert Prompts.CONTEXT_INTRO == head + "T" + INTRO_TAIL;
    MarkOnlyAfterSplit(head, INTRO_TAIL);
  }

  lemma RepliesIntroMarkFree()
    ensures MarkOnlyAfter(Prompts.REPLIES_INTRO)
  {
    var head := "Generate 3 replies with EXAC";
    assert 'T' !in head && 'T' !in INTRO_TAIL && INTRO_TAIL[0] != 'w';
    assert Prompts.REPLIES_INTRO == head + "T" + INTRO_TAIL;
    MarkOnlyAfterSplit(head, INTRO_TAIL);
  }

  /** The mock reads back the (trimmed) tweet of each of the three prompts when it fits on one line. */
  lemma MockReadsPromptTweet(text: string, persona: string, style: string, url: Option<string>, author: Option<string>)
    requires forall i :: 0 <= i < |text| ==> text[i] != '\n'
    ensures TweetContent(Prompts.BuildSummarizePrompt(text, persona, url, author)) == Strip(text)
    ensures TweetContent(Prompts.BuildContextPrompt(text, persona, url, author)) == Strip(text)
    ensures TweetContent(Prompts.BuildRepliesPrompt(text, persona, style, url, author)) == Strip(text)
  {
    IntrosMarkFree();
    MockReadsTweetLine(Prompts.SUMMARIZE_INTRO, Prompts.BuildSummarizePrompt(text, persona, url, author), text);
    MockReadsTweetLine(Prompts.CONTEXT_INTRO, Prompts.BuildContextPrompt(text, persona, url, author), text);
    MockReadsTweetLine(Prompts.REPLIES_INTRO, Prompts.BuildRepliesPrompt(text, persona, style, url, author), text);
  }
}
