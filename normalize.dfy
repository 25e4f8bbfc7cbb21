/**
 * The text normaliser of server/app/services/normalize.py: whitespace collapse, strip,
 * control-character removal, truncation, the validity test, and the `@word` and `#word`
 * scanners. Unicode NFKC and language detection are opaque libraries; they are passed in
 * as functions.
 */
module Normalize {
  import opened Wrappers
  import opened Text

  /** `TextNormalizer.max_length` and `min_length`; the source never changes them. */
  const MAX_LENGTH: nat := 10000
  const MIN_LENGTH: nat := 10

  /** The class `[\x00-\x08\x0B\x0C\x0E-\x1F\x7F]` deleted by `_basic_normalize`. */
  predicate IsRemovedControl(c: char) {
    ('\0' <= c <= '\U{08}') || c == '\U{0B}' || c == '\U{0C}' || ('\U{0E}' <= c <= '\U{1F}') || c == '\U{7F}'
  }

  /** `re.sub(r'[\x00-\x08\x0B\x0C\x0E-\x1F\x7F]', '', s)`. */
  function RemoveControls(s: string): (r: string)
    ensures |r| <= |s|
    ensures forall c :: c in r <==> c in s && !IsRemovedControl(c)
    ensures (forall i :: 0 <= i < |s| ==> !IsRemovedControl(s[i])) ==> r == s
  {
    if s == [] then []
    else
      var rest := RemoveControls(s[1..]);
      assert forall c :: c in s <==> c == s[0] || c in s[1..] by { assert s == [s[0]] + s[1..]; }
      (if IsRemovedControl(s[0]) then [] else [s[0]]) + rest
  }

  /** One character is dropped exactly when it is a removed control character. */
  lemma RemoveControlsSingle(c: char)
    ensures RemoveControls([c]) == if IsRemovedControl(c) then [] else [c]
  {
    assert [c][1..] == [];
  }

  /**
   * `_basic_normalize`: NFKC, every whitespace run to one space, strip, and only then the
   * removal of control characters.
   */
  function BasicNormalize(nfkc: string -> string, text: string): (r: string)
    ensures forall c :: c in r ==> !IsRemovedControl(c) && (IsSpace(c) ==> c == ' ')
    ensures '\n' !in r && '\t' !in r
  {
    var t := Strip(CollapseSpaces(nfkc(text)));
    OnlyPlainSpaces(t, CollapseSpaces(nfkc(text)));
    RemoveControls(t)
  }

  lemma OnlyPlainSpaces(t: string, c: string)
    requires forall ch :: ch in t ==> ch in c
    requires forall ch :: ch in c ==> (IsSpace(ch) ==> ch == ' ')
    ensures forall ch :: ch in RemoveControls(t) ==> !IsRemovedControl(ch) && (IsSpace(ch) ==> ch == ' ')
    ensures '\n' !in RemoveControls(t) && '\t' !in RemoveControls(t)
  {
    assert IsSpace('\n') && IsSpace('\t');
  }

  /** Output of `normalize`; the two last keys are absent from the dict of the empty case. */
  datatype Normalized = Normalized(
    text: string,
    language: string,
    wordCount: nat,
    charCount: nat,
    normalized: bool,
    originalLength: Option<nat>,
    truncated: Option<bool>)

  /** `_detect_language`; `detect` returns `None` when langdetect raises. */
  function DetectLanguage(detect: string -> Option<string>, text: string): (lang: string)
    ensures |Strip(text)| < MIN_LENGTH ==> lang == "unknown"
    ensures |Strip(text)| >= MIN_LENGTH && (detect(text).None? || detect(text) == Some(""))
      ==> lang == "unknown"
    ensures |Strip(text)| >= MIN_LENGTH && detect(text).Some? && detect(text).value != ""
      ==> lang == detect(text).value
    ensures lang != ""
  {
    if |Strip(text)| < MIN_LENGTH then "unknown"
    else match detect(text)
      case None => "unknown"
      case Some(d) => if d == "" then "unknown" else d
  }

  /** The text `normalize` starts from, after the optional mention stripping. */
  function Prepared(text: string, stripMentions: bool): string {
    if stripMentions then StripMentions(text) else text
  }

  /**
   * `TextNormalizer.normalize(text, strip_urls=False, strip_mentions)`; `None` stands for
   * `None` or any value that is not a `str`.
   */
  function Normalize(nfkc: string -> string, detect: string -> Option<string>,
                     text: Option<string>, stripMentions: bool): (r: Normalized)
    ensures !Truthy(text) ==> r == Normalized("", "unknown", 0, 0, false, None, None)
    ensures Truthy(text) ==>
      var b := BasicNormalize(nfkc, Prepared(text.value, stripMentions));
      && r.normalized
      && r.text == (if |b| > MAX_LENGTH then b[..MAX_LENGTH] + "..." else b)
      && r.charCount == |r.text|
      && r.wordCount == |Words(r.text)|
      && r.originalLength == Some(|text.value|)
      && r.truncated == Some(|text.value| > MAX_LENGTH)
      && r.language == DetectLanguage(detect, r.text)
  {
    if !Truthy(text) then Normalized("", "unknown", 0, 0, false, None, None)
    else
      var b := BasicNormalize(nfkc, Prepared(text.value, stripMentions));
      var t := if |b| > MAX_LENGTH then b[..MAX_LENGTH] + "..." else b;
      Normalized(t, DetectLanguage(detect, t), |Words(t)|, |t|, true,
                 Some(|text.value|), Some(|text.value| > MAX_LENGTH))
  }

  /** `is_valid_text`: present, and at least `MIN_LENGTH` long both before and after a final strip. */
  predicate IsValidText(nfkc: string -> string, text: Option<string>): (ok: bool)
    ensures ok <==> Truthy(text) && |Strip(BasicNormalize(nfkc, text.value))| >= MIN_LENGTH
  {
    Truthy(text)
    && |BasicNormalize(nfkc, text.value)| >= MIN_LENGTH
    && |Strip(BasicNormalize(nfkc, text.value))| >= MIN_LENGTH
  }

  /** Length of the leading run of word characters. */
  function WordRun(s: string): (n: nat)
    ensures n <= |s|
    ensures forall i :: 0 <= i < n ==> IsWordChar(s[i])
    ensures n < |s| ==> !IsWordChar(s[n])
  {
    if s != [] && IsWordChar(s[0]) then 1 + WordRun(s[1..]) else 0
  }

  /** A match of `<sigil>\w+` starts at index 0 of `s`. */
  predicate SigilWordAtStart(s: string, sigil: char) {
    |s| > 1 && s[0] == sigil && IsWordChar(s[1])
  }

  /** No occurrence of `<sigil>\w` anywhere in `s`. */
  predicate NoSigilWord(s: string, sigil: char) {
    forall i :: 0 <= i < |s| - 1 && s[i] == sigil ==> !IsWordChar(s[i + 1])
  }

  /** `re.sub(r'<sigil>\w+', '', s)`, scanning left to right. */
  function RemoveSigilWords(s: string, sigil: char): (r: string)
    requires !IsWordChar(sigil)
    ensures s != [] && !IsWordChar(s[0]) ==> r == [] || !IsWordChar(r[0])
    ensures NoSigilWord(r, sigil)
    ensures NoSigilWord(s, sigil) ==> r == s
    decreases |s|
  {
    if s == [] then []
    else if SigilWordAtStart(s, sigil) then
      RemoveSigilWords(s[1 + WordRun(s[1..])..], sigil)
    else
      var rest := RemoveSigilWords(s[1..], sigil);
      assert NoSigilWord(s, sigil) ==> rest == s[1..] by {
        if NoSigilWord(s, sigil) { NoSigilWordSuffix(s, sigil, 1); }
      }
      assert forall i :: 1 <= i < |rest| + 1 ==> ([s[0]] + rest)[i] == rest[i - 1];
      [s[0]] + rest
  }

  /** `re.findall(r'<sigil>\w+', s)`: the matches, in order. */
  function FindAll(s: string, sigil: char): (ms: seq<string>)
    ensures forall m :: m in ms ==> |m| >= 2 && m[0] == sigil && forall j :: 1 <= j < |m| ==> IsWordChar(m[j])
    ensures ms == [] <==> NoSigilWord(s, sigil)
    decreases |s|
  {
    if s == [] then []
    else if SigilWordAtStart(s, sigil) then
      var k := 1 + WordRun(s[1..]);
      [s[..k]] + FindAll(s[k..], sigil)
    else
      var rest := FindAll(s[1..], sigil);
      NoSigilWordTail(s, sigil);
      rest
  }

  /** Where no match starts at index 0, the text is free of `<sigil>\w` exactly when its tail is. */
  lemma NoSigilWordTail(s: string, sigil: char)
    requires s != [] && !SigilWordAtStart(s, sigil)
    ensures NoSigilWord(s, sigil) <==> NoSigilWord(s[1..], sigil)
  {
    assert forall i :: 0 <= i < |s| - 1 ==> s[1..][i] == s[i + 1];
  }

  /** `w + b` has the match `w` at its start, and it ends where `w` does. */
  lemma MatchAtStart(word: string, b: string, sigil: char)
    requires word != [] && (forall j :: 0 <= j < |word| ==> IsWordChar(word[j]))
    requires b == [] || !IsWordChar(b[0])
    ensures var s := [sigil] + word + b;
      SigilWordAtStart(s, sigil) && 1 + WordRun(s[1..]) == 1 + |word|
      && s[..1 + |word|] == [sigil] + word && s[1 + |word|..] == b
  {
    var s := [sigil] + word + b;
    assert s[1..] == word + b;
    WordRunOver(word, b);
  }

  /** The run of word characters at the start of `word + b` is `word` when `b` starts with none. */
  lemma {:induction false} WordRunOver(word: string, b: string)
    requires forall j :: 0 <= j < |word| ==> IsWordChar(word[j])
    requires b == [] || !IsWordChar(b[0])
    ensures WordRun(word + b) == |word|
    decreases |word|
  {
    if word == [] {
      assert word + b == b;
    } else {
      assert (word + b)[1..] == word[1..] + b;
      WordRunOver(word[1..], b);
    }
  }

  /** Inside `a + w` with `a` free of matches, no match starts before `w`; the scan reaches `w`. */
  lemma NoMatchBefore(a: string, rest: string, sigil: char)
    requires a != [] && NoSigilWord(a, sigil) && !IsWordChar(sigil)
    requires rest != [] && rest[0] == sigil
    ensures !SigilWordAtStart(a + rest, sigil)
    ensures (a + rest)[1..] == a[1..] + rest
    ensures NoSigilWord(a[1..], sigil)
  {
    var s := a + rest;
    if |a| > 1 {
      assert s[1] == a[1];
    } else {
      assert s[1] == rest[0];
    }
    assert s[1..] == a[1..] + rest;
    NoSigilWordSuffix(a, sigil, 1);
  }

  /**
   * A match at the start is deleted whole and the scan goes on after it. With
   * `RemoveSigilWordsKeep` and `NoSigilWord(s) ==> r == s` this determines the result.
   */
  lemma RemoveSigilWordsSkip(word: string, b: string, sigil: char)
    requires !IsWordChar(sigil) && word != [] && (forall j :: 0 <= j < |word| ==> IsWordChar(word[j]))
    requires b == [] || !IsWordChar(b[0])
    ensures RemoveSigilWords([sigil] + word + b, sigil) == RemoveSigilWords(b, sigil)
  {
    MatchAtStart(word, b, sigil);
  }

  /** A character that starts no match is kept, in front of the scan of the rest. */
  lemma RemoveSigilWordsKeep(h: char, rest: string, sigil: char)
    requires !IsWordChar(sigil) && !SigilWordAtStart([h] + rest, sigil)
    ensures RemoveSigilWords([h] + rest, sigil) == [h] + RemoveSigilWords(rest, sigil)
  {
    assert ([h] + rest)[1..] == rest;
  }

  /**
   * The first match `w` behind a match-free `a` is the first element found, and the scan
   * goes on after it; with `ms == [] <==> NoSigilWord(s)` this determines the matches.
   */
  lemma {:induction false} FindAllStep(a: string, word: string, b: string, sigil: char)
    requires !IsWordChar(sigil) && NoSigilWord(a, sigil)
    requires word != [] && (forall j :: 0 <= j < |word| ==> IsWordChar(word[j]))
    requires b == [] || !IsWordChar(b[0])
    ensures FindAll(a + ([sigil] + word) + b, sigil) == [[sigil] + word] + FindAll(b, sigil)
    decreases |a|
  {
    var w := [sigil] + word;
    if a == [] {
      assert a + w + b == [sigil] + word + b;
      MatchAtStart(word, b, sigil);
    } else {
      assert a + w + b == a + (w + b);
      NoMatchBefore(a, w + b, sigil);
      assert a[1..] + (w + b) == a[1..] + w + b;
      FindAllStep(a[1..], word, b, sigil);
    }
  }

  /** Dropping a prefix keeps a text free of `<sigil>\w`. */
  lemma NoSigilWordSuffix(s: string, sigil: char, d: nat)
    requires NoSigilWord(s, sigil) && d <= |s|
    ensures NoSigilWord(s[d..], sigil)
  {
    var t := s[d..];
    forall i | 0 <= i < |t| - 1 && t[i] == sigil ensures !IsWordChar(t[i + 1]) {
      assert t[i] == s[d + i] && t[i + 1] == s[d + i + 1];
    }
  }

  /** Collapsing whitespace cannot put a word character right after a sigil. */
  lemma {:induction false} CollapseKeepsNoSigilWord(s: string, sigil: char)
    requires !IsSpace(sigil) && NoSigilWord(s, sigil)
    ensures NoSigilWord(CollapseSpaces(s), sigil)
    decreases |s|
  {
    if s != [] {
      if IsSpace(s[0]) {
        var t := TrimStart(s);
        NoSigilWordSuffix(s, sigil, |s| - |t|);
        CollapseKeepsNoSigilWord(t, sigil);
        CollapseSpaceHead(t, sigil);
      } else {
        NoSigilWordSuffix(s, sigil, 1);
        CollapseKeepsNoSigilWord(s[1..], sigil);
        CollapseCharHead(s, sigil);
      }
    }
  }

  lemma CollapseSpaceHead(t: string, sigil: char)
    requires !IsSpace(sigil) && NoSigilWord(CollapseSpaces(t), sigil)
    ensures NoSigilWord([' '] + CollapseSpaces(t), sigil)
  {
    assert IsSpace(' ');
    NoSigilWordCons(' ', CollapseSpaces(t), sigil);
  }

  lemma CollapseCharHead(s: string, sigil: char)
    requires s != [] && !IsSpace(s[0]) && !IsSpace(sigil)
    requires NoSigilWord(s, sigil) && NoSigilWord(CollapseSpaces(s[1..]), sigil)
    ensures NoSigilWord(CollapseSpaces(s), sigil)
  {
    assert s == [s[0]] + s[1..];
    CollapseChar(s[0], s[1..]);
    CollapseAfterSigil(s, sigil);
    NoSigilWordCons(s[0], CollapseSpaces(s[1..]), sigil);
  }

  /** Behind a sigil that starts no match, the collapse of the rest starts with no word character. */
  lemma CollapseAfterSigil(s: string, sigil: char)
    requires s != [] && NoSigilWord(s, sigil)
    ensures s[0] == sigil && CollapseSpaces(s[1..]) != [] ==> !IsWordChar(CollapseSpaces(s[1..])[0])
  {
    var t := s[1..];
    var c := CollapseSpaces(t);
    if s[0] == sigil && c != [] {
      if IsSpace(t[0]) {
        assert c[0] == ' ';
      } else {
        assert c[0] == t[0] == s[1];
      }
    }
  }

  /** A character in front of a text free of `<sigil>\w` keeps it free unless it is a sigil before a word character. */
  lemma NoSigilWordCons(h: char, c: string, sigil: char)
    requires NoSigilWord(c, sigil)
    requires h == sigil && c != [] ==> !IsWordChar(c[0])
    ensures NoSigilWord([h] + c, sigil)
  {
    var r := [h] + c;
    forall i | 0 <= i < |r| - 1 && r[i] == sigil ensures !IsWordChar(r[i + 1]) {
      if i > 0 {
        assert r[i] == c[i - 1] && r[i + 1] == c[i];
      }
    }
  }

  /** Stripping keeps a text free of `<sigil>\w`, since the result is a slice. */
  lemma StripKeepsNoSigilWord(s: string, sigil: char)
    requires NoSigilWord(s, sigil)
    ensures NoSigilWord(Strip(s), sigil)
  {
    NoSigilWordSlice(s, sigil, StripStart(s), StripStart(s) + |Strip(s)|);
  }

  /** Any slice of a text free of `<sigil>\w` is free of it. */
  lemma NoSigilWordSlice(s: string, sigil: char, a: nat, b: nat)
    requires NoSigilWord(s, sigil) && a <= b <= |s|
    ensures NoSigilWord(s[a..b], sigil)
  {
    var r := s[a..b];
    forall i | 0 <= i < |r| - 1 && r[i] == sigil ensures !IsWordChar(r[i + 1]) {
      assert r[i] == s[a + i] && r[i + 1] == s[a + i + 1];
    }
  }

  /** `_strip_mentions`: delete every `@\w+`, collapse whitespace runs, strip. */
  function StripMentions(text: string): (r: string)
    ensures NoSigilWord(r, '@')
    ensures NoSpaceEdges(r)
  {
    var removed := RemoveSigilWords(text, '@');
    CollapseKeepsNoSigilWord(removed, '@');
    StripKeepsNoSigilWord(CollapseSpaces(removed), '@');
    Strip(CollapseSpaces(removed))
  }

  /**
   * `extract_hashtags` (sigil `#`) and `extract_mentions` (sigil `@`): the `<sigil>\w+`
   * matches in order, lower-cased.
   */
  function Extract(text: string, sigil: char): (tags: seq<string>)
    ensures |tags| == |FindAll(text, sigil)|
    ensures forall i :: 0 <= i < |tags| ==> tags[i] == Lower(FindAll(text, sigil)[i])
  {
    seq(|FindAll(text, sigil)|, i requires 0 <= i < |FindAll(text, sigil)| => Lower(FindAll(text, sigil)[i]))
  }

  /** After `_strip_mentions` there is nothing left for `extract_mentions` to find. */
  lemma MentionsGoneAfterStrip(text: string)
    ensures Extract(StripMentions(text), '@') == []
  {
  }

  /** Every extracted hashtag is `#` followed by at least one lower-case word character. */
  lemma HashtagShape(text: string)
    ensures forall t :: t in Extract(text, '#') ==>
      |t| >= 2 && t[0] == '#' && forall j :: 1 <= j < |t| ==> IsWordChar(t[j]) && !('A' <= t[j] <= 'Z')
  {
    var ms := FindAll(text, '#');
    forall t | t in Extract(text, '#')
      ensures |t| >= 2 && t[0] == '#' && forall j :: 1 <= j < |t| ==> IsWordChar(t[j]) && !('A' <= t[j] <= 'Z')
    {
      var i :| 0 <= i < |Extract(text, '#')| && Extract(text, '#')[i] == t;
      assert ms[i] in ms;
    }
  }

  /** The normalised text never holds a newline or a tab and is at most `MAX_LENGTH + 3` long. */
  lemma NormalizedTextShape(nfkc: string -> string, detect: string -> Option<string>,
                            text: Option<string>, stripMentions: bool)
    ensures var r := Normalize(nfkc, detect, text, stripMentions);
      && '\n' !in r.text && '\t' !in r.text
      && |r.text| <= MAX_LENGTH + 3
      && (|r.text| > MAX_LENGTH ==> |r.text| == MAX_LENGTH + 3 && r.text[MAX_LENGTH..] == "...")
  {
    var r := Normalize(nfkc, detect, text, stripMentions);
    if Truthy(text) {
      var b := BasicNormalize(nfkc, Prepared(text.value, stripMentions));
      if |b| > MAX_LENGTH {
        TruncatedShape(b, r.text);
      }
    }
  }

  lemma TruncatedShape(b: string, t: string)
    requires |b| > MAX_LENGTH && t == b[..MAX_LENGTH] + "..."
    requires '\n' !in b && '\t' !in b
    ensures '\n' !in t && '\t' !in t
    ensures |t| == MAX_LENGTH + 3 && t[MAX_LENGTH..] == "..."
  {
    var p := b[..MAX_LENGTH];
    assert forall c :: c in p ==> c in b;
    assert forall c :: c in t ==> c in p || c in "...";
  }

  /** NFKC leaves plain ASCII text unchanged; the witnesses below only use such text. */
  function AsciiOnly(s: string): string {
    s
  }

  /** Ten copies of the letter `a`, nine of them, and so on: inputs for the lemmas below. */
  function Letters(n: nat): (s: string)
    ensures |s| == n && NoSpace(s) && NoSpaceEdges(s)
    ensures forall i :: 0 <= i < n ==> !IsRemovedControl(s[i])
  {
    seq(n, _ => 'a')
  }

  function Spaces(n: nat): (s: string)
    ensures |s| == n && AllSpace(s)
  {
    seq(n, _ => ' ')
  }

  /** A whitespace run followed by a word-like tail collapses to one space and the tail. */
  lemma CollapseSpacesThenWord(sp: string, w: string)
    requires sp != [] && AllSpace(sp) && w != [] && NoSpace(w)
    ensures CollapseSpaces(sp + w) == [' '] + w
  {
    CollapseNoSpace(w);
    CollapseRun(sp, w);
  }

  /** Stripping one leading space off a word-like tail. */
  lemma StripSpaceThenWord(w: string)
    requires w != [] && NoSpace(w)
    ensures Strip([' '] + w) == w
  {
    TrimStartSpacesThen([' '], w);
    assert TrimEnd(w) == w;
  }

  /**
   * Control characters are removed after the strip, so a removed character in front of a
   * space leaves that space at the start of the result.
   */
  lemma ControlBeforeSpaceLeavesEdgeSpace(n: nat)
    requires n > 0
    ensures BasicNormalize(AsciiOnly, ['\U{01}', ' '] + Letters(n)) == [' '] + Letters(n)
  {
    var s := ['\U{01}', ' '] + Letters(n);
    ControlSpaceCollapse(n);
    ControlSpaceStrip(n);
    ControlSpaceRemoval(n);
    IdentityNormalization(s);
  }

  lemma ControlSpaceCollapse(n: nat)
    requires n > 0
    ensures CollapseSpaces(['\U{01}', ' '] + Letters(n)) == ['\U{01}', ' '] + Letters(n)
  {
    var w := Letters(n);
    assert ['\U{01}', ' '] + w == ['\U{01}'] + ([' '] + w);
    CollapseChar('\U{01}', [' '] + w);
    CollapseSpacesThenWord([' '], w);
  }

  lemma ControlSpaceStrip(n: nat)
    requires n > 0
    ensures Strip(['\U{01}', ' '] + Letters(n)) == ['\U{01}', ' '] + Letters(n)
  {
    var s := ['\U{01}', ' '] + Letters(n);
    assert s[|s| - 1] == Letters(n)[n - 1];
    assert NoSpaceEdges(s);
  }

  lemma ControlSpaceRemoval(n: nat)
    ensures RemoveControls(['\U{01}', ' '] + Letters(n)) == [' '] + Letters(n)
  {
    RemoveControlsAppend(['\U{01}', ' '], Letters(n));
    assert RemoveControls(['\U{01}', ' ']) == [' '];
  }

  lemma IdentityNormalization(t: string)
    ensures BasicNormalize(AsciiOnly, t) == RemoveControls(Strip(CollapseSpaces(t)))
  {
  }

  lemma {:induction false} RemoveControlsAppend(a: string, b: string)
    ensures RemoveControls(a + b) == RemoveControls(a) + RemoveControls(b)
  {
    if a != [] {
      assert (a + b)[1..] == a[1..] + b;
      RemoveControlsAppend(a[1..], b);
    } else {
      assert a + b == b;
    }
  }

  /** Hence the second length test of `is_valid_text`, after a further strip, can reject. */
  lemma SecondLengthTestMatters()
    ensures |BasicNormalize(AsciiOnly, ['\U{01}', ' '] + Letters(9))| >= MIN_LENGTH
    ensures !IsValidText(AsciiOnly, Some(['\U{01}', ' '] + Letters(9)))
  {
    ControlBeforeSpaceLeavesEdgeSpace(9);
    StripSpaceThenWord(Letters(9));
  }

  /**
   * `truncated` compares the ORIGINAL length: 10001 spaces before ten letters report
   * truncation although nothing was cut.
   */
  lemma TruncatedFlagUsesOriginalLength(detect: string -> Option<string>)
    ensures var r := Normalize(AsciiOnly, detect, Some(Spaces(MAX_LENGTH + 1) + Letters(10)), false);
      r.truncated == Some(true) && r.text == Letters(10)
  {
    var t := Spaces(MAX_LENGTH + 1) + Letters(10);
    assert BasicNormalize(AsciiOnly, t) == Letters(10) by {
      LeadingSpacesNormalizeAway(MAX_LENGTH + 1, 10);
      IdentityNormalization(t);
    }
    ShortResultKept(AsciiOnly, detect, t, Letters(10));
    LongInputFlagged(AsciiOnly, detect, t);
  }

  /** A normalised text within the bound is returned whole. */
  lemma ShortResultKept(nfkc: string -> string, detect: string -> Option<string>, t: string, w: string)
    requires BasicNormalize(nfkc, t) == w && |w| <= MAX_LENGTH && t != ""
    ensures Normalize(nfkc, detect, Some(t), false).text == w
  {
    PreparedWithoutMentions(t);
  }

  /** Without mention stripping, `normalize` starts from the text itself. */
  lemma PreparedWithoutMentions(t: string)
    ensures Prepared(t, false) == t
  {
  }

  /** An input longer than the bound is reported as truncated. */
  lemma LongInputFlagged(nfkc: string -> string, detect: string -> Option<string>, t: string)
    requires |t| > MAX_LENGTH
    ensures Normalize(nfkc, detect, Some(t), false).truncated == Some(true)
  {
    assert Truthy(Some(t)) by {
      assert |t| > 0;
    }
  }

  lemma LeadingSpacesNormalizeAway(k: nat, n: nat)
    requires k > 0 && n > 0
    ensures RemoveControls(Strip(CollapseSpaces(Spaces(k) + Letters(n)))) == Letters(n)
  {
    var w := Letters(n);
    CollapseSpacesThenWord(Spaces(k), w);
    StripSpaceThenWord(w);
  }
}
