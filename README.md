# PostPilot backend — a Dafny model

PostPilot's server is a FastAPI service. It is called with the text of an X/Twitter post and answers with a summary, a context note, or up to three reply suggestions, all generated by a language model. This project models that service's rule sets in Dafny and proves properties of them:

- **Rate limiter** (`ratelimit.dfy`). A token bucket per client and endpoint, refilled continuously and capped at capacity. The bucket table is created lazily and swept for stale buckets. `TokenBucket` and `RateLimiter` are classes whose methods update their fields in place. Each method is proved to follow a pure specification over `Bucket` and `Limiter` values.
- **Result cache** (`cache.dfy`). The SQLite table is a map field of `SqliteCache`, holding `key -> (value, created_at, expires_at)`. Reads succeed only while a row is unexpired; writes are insert-or-replace. There are also delete, clear and a sweep of expired rows. `CacheManager` derives cache keys from the request and wraps each result with metadata.
- **Text normaliser** (`normalize.dfy`). Whitespace collapse, strip, control-character removal after the strip, truncation to 10000 characters plus `...`, the two-step validity test, and the `@word` and `#word` scanners.
- **Output post-processing**. The reply-list parser of the replies handler (`api.dfy`). The label stripping and sentence re-flow of the hosted client's response formatter, and the mock client's tweet extraction and prompt dispatch (`llm_client.dfy`).
- **Decision rules**:
  - the three prompt templates and the persona fallback (`prompts.dfy`);
  - the request validators (`schemas.dfy`);
  - API-key verification, client-address resolution, the rate-limit and preflight middleware, and the CORS origin choice (`deps.dfy`);
  - the origin-list parsing and the API-key validator of the settings (`config.dfy`).
- **Handler check order** (`api.dfy`). For each generation endpoint: the rate limit first, then the validity of the normalised text, then the model's result. Then the response is built.

`text.dfy` writes out the parts of Python's `str` and `re` behaviour the backend relies on, as scanners over `seq<char>`. These are `strip`, `split`, `find`, `in`, `lower`, `lstrip(chars)`, clamped slicing, `str(int)` and `{:.0f}`. `wrappers.dfy` holds `Option`, which stands for `None`, and `Result`, which stands for a raised exception.

Parameters stand in for things outside the code:

- **Time** is a `now: real` parameter. Each modelled call uses one instant, `now`.
- **Storage failures** (a failing database call) are a `fault: bool` parameter.
- **Opaque libraries** are function parameters:
  - `sha256` for `hashlib.sha256(...).hexdigest()`;
  - `nfkc` for `unicodedata.normalize('NFKC', ...)`;
  - `detect` for `langdetect.detect`, returning `None` when it raises;
  - `generate` for the language-model call, returning `None` when the client raises.

`is_valid_text` applies a second length test after a further strip, and that test can reject a text (`Normalize.SecondLengthTestMatters`). The browser extension is not modelled.

## Model

| member | source | states |
|---|---|---|
| RateLimit.Refill | server/app/services/ratelimit.py:29-32 | the refilled count is the old count plus elapsed time times rate, capped at capacity; last refill becomes `now`; capacity and rate do not change |
| RateLimit.Consumed | server/app/services/ratelimit.py:24-39 | admitted iff the refilled count is at least `n`; an admission removes exactly `n`; a denial keeps the refilled count; the count never exceeds capacity for `n >= 0` |
| RateLimit.RetryAfter | server/app/services/ratelimit.py:41-47 | 0 with a whole token left; otherwise the wait `w` with `w * rate == 1 - tokens`, which is positive for a positive rate |
| RateLimit.ConsumeKeepsRange | server/app/services/ratelimit.py:24-39 | with time moving forward and `n >= 0`, the token count stays between 0 and capacity |
| RateLimit.RefillIdempotent | server/app/services/ratelimit.py:29-32 | a second refill at the same instant changes nothing |
| RateLimit.NothingEarnedAtOnce | server/app/services/ratelimit.py:29-32 | no elapsed time earns no tokens |
| RateLimit.WaitingRetryAfterSuffices | server/app/services/ratelimit.py:24-47 | after a denial, waiting exactly the reported retry time admits a one-token request |
| RateLimit.RefillKeepsToken | server/app/services/ratelimit.py:24-39 | a bucket holding a whole token still holds one after a refill at a later instant, so a one-token request is admitted |
| RateLimit.ShorterWaitDenied | server/app/services/ratelimit.py:24-47 | after a denial, any shorter wait is denied again |
| RateLimit.BurstFromFull | server/app/services/ratelimit.py:18-39 | from a full bucket, `k <= capacity` requests at one instant are all admitted, leaving `capacity - k` tokens |
| RateLimit.BurstBeyondCapacityDenied | server/app/services/ratelimit.py:18-39 | from a full bucket, request number `capacity + 1` at the same instant is denied |
| RateLimit.BucketKey | server/app/services/ratelimit.py:58-62 | `client:endpoint` for a truthy endpoint, else the client id |
| RateLimit.CleanupWithinIntervalIsNoOp | server/app/services/ratelimit.py:66-68 | less than 300 s after the last sweep, a sweep changes nothing |
| RateLimit.CleanupDueRemovesExactlyStale | server/app/services/ratelimit.py:70-81 | a due sweep removes exactly the buckets last refilled before `now - 3600`, keeps every other bucket unchanged and records `now` |
| RateLimit.BucketFor | server/app/services/ratelimit.py:96-102 | the bucket consumed from is the stored one, or a new full one at rate `requests / window` |
| RateLimit.Admit | server/app/services/ratelimit.py:84-110 | `is_allowed`: sweep, get or create the bucket, consume; the answer is `(true, 0.0)` on admission and `(false, retry time of the bucket)` on denial |
| RateLimit.AdmitTouchesOneBucket | server/app/services/ratelimit.py:93-106 | only the requested key's bucket changes, and it ends refilled at `now`; all other keys keep the bucket the sweep left |
| RateLimit.UnseenKeyStartsFull | server/app/services/ratelimit.py:96-106 | a key without a bucket is admitted iff `n <= requests`, leaving `requests - n` tokens |
| RateLimit.StatusOfUnseen | server/app/services/ratelimit.py:116-121 | an unseen key reports allowed, the full allowance and a reset one window away |
| RateLimit.StatusRemainingBounds | server/app/services/ratelimit.py:123-129 | `remaining` is the whole part of the token count, between 0 and capacity |
| RateLimit.StatusAllowedIsHonoured | server/app/services/ratelimit.py:84-129 | a key that `get_status` reports allowed is admitted by `is_allowed` at any later instant, whether or not a sweep removes its bucket first |
| RateLimit.AdmitKeepsWellFormed | server/app/services/ratelimit.py:84-110 | with a clock that does not run backwards, every bucket stays in range |
| RateLimit.TokenBucket.constructor | server/app/services/ratelimit.py:18-22 | a new bucket is full and last refilled now |
| RateLimit.TokenBucket.Consume | server/app/services/ratelimit.py:24-39 | the new fields and the result are exactly `Consumed` of the old fields |
| RateLimit.TokenBucket.GetRetryAfter | server/app/services/ratelimit.py:41-47 | returns `RetryAfter` of the bucket and changes nothing |
| RateLimit.RateLimiter.constructor | server/app/services/ratelimit.py:53-56 | an empty table, swept last at `now` |
| RateLimit.RateLimiter.CleanupOldBuckets | server/app/services/ratelimit.py:64-81 | the table becomes `Cleanup` of the old table; surviving keys keep their bucket objects |
| RateLimit.RateLimiter.StaleKeys | server/app/services/ratelimit.py:72-76 | the collected keys are exactly those whose bucket was last refilled before the cutoff |
| RateLimit.RateLimiter.DeleteKeys | server/app/services/ratelimit.py:78-79 | exactly the listed keys are gone; the rest of the table is unchanged |
| RateLimit.RateLimiter.IsAllowed | server/app/services/ratelimit.py:84-110 | the new table and the answer are exactly `Admit` of the old table |
| RateLimit.RateLimiter.GetOrCreate | server/app/services/ratelimit.py:96-102 | a missing key gets a fresh full bucket; an existing key keeps its object; no other key changes |
| RateLimit.RateLimiter.ConsumeFrom | server/app/services/ratelimit.py:104-110 | consumes from the stored bucket and answers as `Admit` does, touching no other bucket |
| RateLimit.RateLimiter.GetStatus | server/app/services/ratelimit.py:112-129 | reports `StatusOf` the table and creates no bucket |
| Cache.EffectiveTtl | server/app/services/cache.py:100 | a missing or zero ttl falls back to the default; any other ttl is used as given |
| Cache.Lookup | server/app/services/cache.py:78-91 | a value is found iff the key is present and its expiry is strictly after `now`; the value is the stored one |
| Cache.Stored | server/app/services/cache.py:100-109 | the key's row becomes `(value, now, now + effective ttl)`; every other row is unchanged |
| Cache.Swept | server/app/services/cache.py:160-166 | exactly the live rows are kept, unchanged |
| Cache.ExpiredKeys | server/app/services/cache.py:160-164 | exactly the keys whose expiry is at or before `now` |
| Cache.SetThenGet | server/app/services/cache.py:72-118 | a value written at `now` reads back exactly until `now + effective ttl`, and not from then on |
| Cache.SetLeavesOtherKeys | server/app/services/cache.py:106-109 | writing one key changes no read of another key |
| Cache.DeleteThenGet | server/app/services/cache.py:120-135 | after a delete the key reads as missing; every other key reads as before |
| Cache.SweepUnobservable | server/app/services/cache.py:154-170 | a sweep at `now` changes no read at `now` or later |
| Cache.SweepCount | server/app/services/cache.py:154-170 | the kept rows and the deleted keys partition the table, so the count returned is the number of rows removed |
| Cache.SweepIdempotent | server/app/services/cache.py:154-170 | a second sweep at the same instant deletes nothing |
| Cache.SqliteCache.constructor | server/app/services/cache.py:39-64 | the rows already in the database file are kept |
| Cache.SqliteCache.Get | server/app/services/cache.py:72-95 | a failing database reads as a miss; otherwise `Lookup`; expired rows are not deleted |
| Cache.SqliteCache.Set | server/app/services/cache.py:97-118 | on success the table becomes `Stored(...)` and `true` is returned; on failure the table is unchanged and `false` is returned |
| Cache.SqliteCache.Delete | server/app/services/cache.py:120-135 | on success only the given key is removed |
| Cache.SqliteCache.Clear | server/app/services/cache.py:137-152 | on success the table is empty |
| Cache.SqliteCache.CleanupExpired | server/app/services/cache.py:154-170 | on success the table is swept and the number of removed rows is returned; on failure nothing changes and 0 is returned |
| Cache.GenerateKey | server/app/services/cache.py:246-257 | every key is `postpilot:` followed by the hash of `strip().lower()` text, mode, persona and `v2`, colon-separated |
| Cache.Wrap | server/app/services/cache.py:269-275 | the wrapper holds the result, `now`, the mode, the persona and the first 16 characters of the raw text's hash |
| Cache.SameNormalizedTextSameKey | server/app/services/cache.py:250-257 | texts equal after `strip().lower()` share a key for the same mode and persona |
| Cache.KeysSeparateModesAndPersonas | server/app/services/cache.py:253-257 | with an injective hash, requests that differ in a colon-free mode or persona never share a key |
| Cache.ContentDeterminesModeAndPersona | server/app/services/cache.py:253-254 | the hashed content `text:mode:persona:v2` determines a colon-free mode and persona |
| Cache.FieldsDetermined | server/app/services/cache.py:253-254 | `n:m:p:v` with a colon-free `m`, `p` and `v` determines `n`, `m` and `p` |
| Cache.ManagerRoundTrip | server/app/services/cache.py:259-277 | after `set(text, mode, persona, result)` at `now`, `get` with the same request before expiry returns a wrapper holding `result`, `mode`, `persona` and `now` |
| Cache.CacheManager.constructor | server/app/services/cache.py:243-244 | the manager keeps the given table and hash |
| Cache.CacheManager.Get | server/app/services/cache.py:259-262 | reads the table under the derived key |
| Cache.CacheManager.Set | server/app/services/cache.py:264-277 | stores the wrapper under the derived key with the given ttl, or changes nothing on failure |
| Cache.CacheManager.Delete | server/app/services/cache.py:279-282 | removes the derived key only |
| Cache.CacheManager.Clear | server/app/services/cache.py:284-286 | empties the table |
| Cache.CacheManager.CleanupExpired | server/app/services/cache.py:288-292 | sweeps the table and returns the removed count (the SQLite table always has the sweep) |
| Normalize.RemoveControls | server/app/services/normalize.py:87 | a character occurs in the result exactly when it occurs in the text and is outside `\x00-\x08`, `\x0B`, `\x0C`, `\x0E-\x1F` and `\x7F`; a text without such characters is returned unchanged |
| Normalize.RemoveControlsSingle | server/app/services/normalize.py:87 | one character is deleted exactly when it is in the removed class |
| Normalize.RemoveControlsAppend | server/app/services/normalize.py:87 | the removal works piecewise and keeps order: the result for `a + b` is the result for `a` followed by that for `b` (with `RemoveControlsSingle`, this determines the result) |
| Normalize.BasicNormalize | server/app/services/normalize.py:75-89 | the result holds none of the removed control characters and no newline or tab; its only whitespace is the plain space |
| Normalize.IdentityNormalization | server/app/services/normalize.py:75-89 | with NFKC acting as the identity, the basic normalisation is the whitespace collapse, then the strip, then the control-character removal |
| Normalize.ControlBeforeSpaceLeavesEdgeSpace | server/app/services/normalize.py:81-87 | control characters go after the strip, so `"\x01 " + letters` normalises to `" " + letters`, which starts with a space |
| Normalize.DetectLanguage | server/app/services/normalize.py:115-128 | `unknown` for a text shorter than 10 after strip, or when detection fails or is empty; otherwise the detected code; never empty |
| Normalize.Normalize | server/app/services/normalize.py:19-73 | a missing or empty text gives the empty record; otherwise the basic-normalised text, cut to 10000 characters plus `...` when longer; `char_count` is its length, `word_count` the number of its words, `language` is detected on that (possibly truncated) text, and `truncated` compares the original length with 10000 |
| Normalize.NormalizedTextShape | server/app/services/normalize.py:52-56 | the normalised text holds no newline or tab and is at most 10003 long; when longer than 10000 it is exactly 10003 long and ends with `...` |
| Normalize.ShortResultKept | server/app/services/normalize.py:52-56 | a basic-normalised text within 10000 characters is returned whole |
| Normalize.TruncatedFlagUsesOriginalLength | server/app/services/normalize.py:72 | 10001 spaces before ten letters report `truncated` although the returned text is the ten letters |
| Normalize.LongInputFlagged | server/app/services/normalize.py:72 | an input longer than 10000 characters is always reported as truncated |
| Normalize.IsValidText | server/app/services/normalize.py:130-145 | a text is valid exactly when it is present, non-empty, and at least 10 long after basic normalisation and a further strip; the first length test is implied by the second |
| Normalize.SecondLengthTestMatters | server/app/services/normalize.py:130-145 | there is a text whose basic-normalised length passes the first test, yet `is_valid_text` rejects it at the second test, after a further strip |
| Normalize.RemoveSigilWords | server/app/services/normalize.py:108 | deleting every `@\w+` leaves no `@` followed by a word character; a text without a match is returned unchanged |
| Normalize.RemoveSigilWordsSkip | server/app/services/normalize.py:108 | a match at the start (the sigil and its maximal run of word characters) is deleted whole and the scan goes on right after it |
| Normalize.RemoveSigilWordsKeep | server/app/services/normalize.py:108 | a character that starts no match is kept in front of the result for the rest; with the two rows above this determines the result on every text |
| Normalize.CollapseKeepsNoSigilWord | server/app/services/normalize.py:108-111 | collapsing whitespace cannot put a word character right after an `@` |
| Normalize.StripMentions | server/app/services/normalize.py:105-113 | the result holds no `@word` and has no whitespace at either end |
| Normalize.MentionsGoneAfterStrip | server/app/services/normalize.py:105-113 | `extract_mentions` finds nothing in the output of `_strip_mentions` |
| Normalize.FindAll | server/app/services/normalize.py:149-150 | every match is the sigil followed by at least one word character; there are no matches exactly when no sigil is followed by a word character |
| Normalize.FindAllStep | server/app/services/normalize.py:149-150 | behind a match-free prefix, the first match is the sigil with its maximal word run, and the matching goes on right after it; with the row above this determines the matches |
| Normalize.Extract | server/app/services/normalize.py:147-157 | `extract_hashtags` (sigil `#`) and `extract_mentions` (sigil `@`): the matches in order, each lower-cased |
| Normalize.HashtagShape | server/app/services/normalize.py:149-151 | every hashtag is `#` followed by at least one word character and holds no upper-case letter |
| Text.TrimStart | server/app/services/normalize.py:84 | the leading half of `strip()`: a suffix of the text whose dropped prefix is all whitespace and which does not start with whitespace; empty exactly for a blank text |
| Text.TrimEnd | server/app/services/normalize.py:84 | the trailing half of `strip()`: a prefix of the text whose dropped tail is all whitespace and which does not end with whitespace |
| Text.Strip | server/app/services/normalize.py:84 | `strip()`: the slice of the text between an all-whitespace prefix and an all-whitespace tail, neither starting nor ending with whitespace (which determines it); empty exactly for a blank text; the identity on an already trimmed text |
| Text.CollapseSpaces | server/app/services/normalize.py:81 | `re.sub(r'\s+', ' ', s)`: the non-whitespace characters are those of the text, in order; no two spaces in a row, every whitespace character a plain space; starts with a space exactly when the text starts with whitespace; empty only for the empty text |
| Text.CollapseRun | server/app/services/normalize.py:81 | a maximal whitespace run at the start becomes one space in front of the collapse of the rest |
| Text.CollapseChar | server/app/services/normalize.py:81 | a non-whitespace character is kept in front of the collapse of the rest; with the row above this determines the collapse on every text |
| Text.WordsShape | server/app/main.py:130 | the words of `split()` are non-empty and hold no whitespace; there are none exactly for a blank text |
| Text.WordsStep | server/app/services/normalize.py:62 | whitespace, then a maximal non-whitespace run `w`, then the rest: `split()` gives `w` followed by the words of the rest; with the row above this determines the words |
| Text.JoinSplit | server/app/config.py:49 | joining the pieces of `split(sep)` with `sep` gives the text back |
| Text.SplitPiecesFree | server/app/config.py:49 | no piece of `split(sep)` contains the separator |
| Text.LStripChars | server/app/main.py:274 | `lstrip(chars)` drops exactly the leading characters from the set; what is left is a suffix that does not start with one |
| Text.Take | server/app/main.py:282 | `s[:n]` is the first `min(n, len)` elements |
| Text.Lower | server/app/services/cache.py:250 | `lower()` keeps the length and folds each letter |
| Text.NatToStringRoundTrip | server/app/deps.py:107 | `str(n)` reads back as `n` |
| Text.RoundHalfEven | server/app/main.py:96 | `{:.0f}` rounds to the nearest integer, ties to even |
| Text.TruncToInt | server/app/services/ratelimit.py:127 | `int(x)` truncates toward zero |
| Text.NatToString | server/app/deps.py:107 | `str(n)` of a non-negative integer is a non-empty run of decimal digits, `0` exactly for zero and without a leading zero otherwise |
| Text.FormatFixed0 | server/app/main.py:96 | `{:.0f}` of a non-negative number is a run of decimal digits without a leading zero that reads back as the number rounded half to even |
| Text.FindFrom | server/app/services/llm_client.py:138-139 | `find(p, start)` is -1 or an index at or after `start` where `p` occurs, and no earlier such index exists |
| LlmClient.RemoveMatches | server/app/services/llm_client.py:96-100 | `re.sub(label\s*[^\n]*)` and `re.sub(label\s*)`: the result is no longer than the text and uses only its characters; a text without the label is unchanged |
| LlmClient.RemoveMatchesKeep | server/app/services/llm_client.py:96-100 | a character where no label starts is kept in front of the result for the rest |
| LlmClient.RemoveMatchesSkipsPrefix | server/app/services/llm_client.py:96-100 | a prefix in which no label starts is copied through unchanged |
| LlmClient.LabelLineDropped | server/app/services/llm_client.py:96-97 | `Author:` or `Source URL:`, its maximal whitespace run and the rest of that line go; the newline ending the line stays; with `RemoveMatchesKeep` this determines the result |
| LlmClient.LabelSpaceDropped | server/app/services/llm_client.py:98-100 | `Summary:`, `Context:` or `Reply Suggestions:` goes with its maximal whitespace run and nothing else; with `RemoveMatchesKeep` this determines the result |
| LlmClient.BlankLabelTakesNextLine | server/app/services/llm_client.py:96 | since `\s*` crosses newlines, `Author:` ending its line removes the whole next line |
| LlmClient.StripLabels | server/app/services/llm_client.py:96-100 | the five substitutions never lengthen the text nor add characters, and leave a text holding none of the five labels unchanged |
| LlmClient.SplitSentences | server/app/services/llm_client.py:104 | `re.split(r'[.!?]+')` gives at least one piece, none holding a terminator; a text without terminators is its only piece |
| LlmClient.SplitSentencesStep | server/app/services/llm_client.py:104 | a terminator-free piece, then a maximal run of terminators: the piece comes first and the split goes on after the run; with the row above this determines the pieces |
| LlmClient.SplitSentencesKeepsText | server/app/services/llm_client.py:104 | the pieces put together are the text without its terminators |
| LlmClient.KeepSentencesSnoc | server/app/services/llm_client.py:107-110 | one more piece adds its stripped form at the end, unless it strips to nothing; with the empty case this determines the kept sentences |
| LlmClient.KeepSentencesShape | server/app/services/llm_client.py:107-110 | every kept sentence is non-empty, trimmed and free of terminators |
| LlmClient.KeepLoop | server/app/services/llm_client.py:105-110 | the loop keeps each stripped non-empty piece in order |
| LlmClient.ReflowShape | server/app/services/llm_client.py:112-115 | with more than one sentence, the result ends with `.` and holds no `!` or `?`; otherwise it is the trimmed text itself |
| LlmClient.Reflow | server/app/services/llm_client.py:112-115 | a text without terminators comes back unchanged; a text without whitespace at its ends keeps that property |
| LlmClient.ReflowSentences | server/app/services/llm_client.py:104-115 | the re-flow step computes `Reflow` of the trimmed text |
| LlmClient.FormatSpec | server/app/services/llm_client.py:93-115 | the formatted text never starts or ends with whitespace; a text holding no label and no terminator comes back only trimmed |
| LlmClient.FormatResponse | server/app/services/llm_client.py:93-115 | `_format_response` is the five label substitutions, the strip and the re-flow, in that order |
| LlmClient.DobbyApiKey | server/app/services/llm_client.py:22 | a truthy own key wins over the configured one |
| LlmClient.IsAvailable | server/app/services/llm_client.py:117-118 | available exactly when a key is present and longer than 10 characters |
| LlmClient.CreateClient | server/app/services/llm_client.py:171-182 | the hosted client is chosen iff the configured key is longer than 10 characters, and the chosen client is then available |
| LlmClient.TweetContent | server/app/services/llm_client.py:136-144 | `Sample tweet content` without `Tweet:`; otherwise a trimmed text holding no newline |
| LlmClient.TweetContentOfLine | server/app/services/llm_client.py:136-142 | with no earlier `Tweet:`, the tweet is the rest of the first mark's line, trimmed, whether a newline or the end of the prompt ends it |
| LlmClient.MockKind | server/app/services/llm_client.py:146-153 | the lower-cased prompt is tested for `summarize`, then `context`, then `reply`; the first that occurs decides |
| LlmClient.MockKindIgnoresCase | server/app/services/llm_client.py:146-150 | the dispatch does not depend on letter case |
| LlmClient.MockTextQuotesTweet | server/app/services/llm_client.py:146-157 | each canned response starts with its kind's fixed opening, then the first 100 characters of the tweet (50 for replies) |
| LlmClient.MockGenerate | server/app/services/llm_client.py:131-164 | always successful, model `mock-local`, provider `local`; the canned text of the kind around the tweet; `tokens_used` is its word count |
| LlmClient.MockReadsTweetLine | server/app/services/llm_client.py:136-142 | in `intro + "Tweet: " + text + "\n..."` with a newline-free text and no `Tw` in the intro, the mock reads back the trimmed text |
| LlmClient.MockReadsPromptTweet | server/app/services/llm_client.py:136-142 | the mock reads back the trimmed tweet of each of the three prompts when it fits on one line |
| Prompts.ValidatePersonaExactly | server/app/services/prompts.py:156-157 | `validate_persona` is true exactly for `human`, `hardcore` and `curator` |
| Prompts.GetPersonaInfo | server/app/services/prompts.py:143-144 | a known key gives its own configuration; an unknown one gives `human`'s |
| Prompts.ListPersonas | server/app/services/prompts.py:146-154 | one entry per table row, in table order, with its key, name and description |
| Prompts.GetSafetyGuardrails | server/app/services/prompts.py:159-160 | the seven stored guardrails in order; a value, so callers cannot alter the store |
| Prompts.BuildSummarizePrompt | server/app/services/prompts.py:50-77 | the prompt starts with its intro line and holds the line `Tweet: <text>` right after it |
| Prompts.BuildContextPrompt | server/app/services/prompts.py:79-106 | the prompt starts with its intro line and holds the line `Tweet: <text>` right after it |
| Prompts.BuildRepliesPrompt | server/app/services/prompts.py:108-141 | the prompt starts with its intro line and holds the line `Tweet: <text>` right after it |
| Prompts.ExtrasOnlyAppend | server/app/services/prompts.py:71-77 | url and author only extend each prompt: the prompt without them is a prefix of the prompt with them |
| Prompts.ExtrasShape | server/app/services/prompts.py:71-77 | the tail is empty iff neither url nor author is truthy; the URL part comes first and the author part last |
| Prompts.UnknownPersonaIsHuman | server/app/services/prompts.py:109 | an unknown persona builds exactly the `human` replies prompt |
| Prompts.IgnoredArguments | server/app/services/prompts.py:108-141 | the requested style never changes the replies prompt; the persona never changes the summary or context prompt |
| Schemas.ValidateText | server/app/models/schemas.py:11-20 | accepted iff 1 to 10000 characters long and not blank; too short, too long and blank are told apart; the stripped text is kept |
| Schemas.ValidateTextIdempotent | server/app/models/schemas.py:16-20 | a validated text validates again to itself |
| Schemas.ValidatePersona | server/app/models/schemas.py:14-27 | `human` when omitted; otherwise accepted iff one of the three keys, and kept as given |
| Schemas.PersonaValidatorsAgree | server/app/models/schemas.py:22-27 | the request validator accepts exactly the personas the prompt builder knows |
| Schemas.ValidateStyle | server/app/models/schemas.py:42-49 | `conversational` when omitted; otherwise accepted iff one of the four styles |
| Schemas.ParseRequest | server/app/models/schemas.py:9-49 | a request parses iff every field validates, and then carries the validated fields; otherwise the errors of all failing fields, in field order |
| Schemas.ParsedRequestWellFormed | server/app/models/schemas.py:9-49 | a parsed request has a non-empty, trimmed text of at most 10000 characters and an allowed persona and style |
| Schemas.RefusalNamesFields | server/app/models/schemas.py:9-49 | a refusal names at least one field, and names each field exactly when it failed |
| Schemas.ErrorOrder | server/app/models/schemas.py:9-49 | the error list is the text's errors, then the persona's, then the style's: it is empty iff all three are, it starts with a text error iff the text failed, and it names the persona or the style iff that field failed |
| Deps.HeaderGet | server/app/deps.py:134 | `headers.get(name)` finds nothing exactly when no header name matches without regard to case |
| Deps.HeaderGetFirst | server/app/deps.py:134 | a value found is that of the first matching header |
| Deps.HeaderGetIgnoresCase | server/app/deps.py:134 | the lookup ignores the letter case of the name asked for |
| Deps.VerifyApiKey | server/app/deps.py:26-50 | nothing when keys are not required; otherwise `x-api-key` first, then bearer credentials; 401 exactly when neither is present |
| Deps.BearerSchemeIgnoresCase | server/app/deps.py:43-44 | the bearer scheme is matched without regard to case |
| Deps.KeysNotRequiredIgnoreHeaders | server/app/deps.py:35-36 | when keys are not required the headers do not matter |
| Deps.GetClientIp | server/app/deps.py:131-146 | the first `X-Forwarded-For` entry, trimmed and comma-free; else `X-Real-IP`; else the connection's host; else `unknown` |
| Deps.ForwardedFirstHop | server/app/deps.py:135-136 | `a,b` in `X-Forwarded-For` resolves to the trimmed `a` |
| Deps.IntToString | server/app/deps.py:107-108 | `str(n)` of a Python integer, with a sign for a negative one |
| Deps.RateLimitResponse | server/app/deps.py:97-110 | status 429, the rate-limit body, and the three headers the handler passes: `Retry-After: 60`, limit and window (the framework's own `content-length` and `content-type` are not modelled) |
| Deps.HandleRateLimitExceeded | server/app/deps.py:89-111 | a raised 429 `HTTPException` becomes the 429 response; everything else passes through unchanged |
| Deps.RateLimitMiddlewareShape | server/app/deps.py:89-111 | the middleware never raises a 429 and never changes a returned response |
| Deps.HandleCorsPreflight | server/app/deps.py:114-128 | the corrected preflight: `OPTIONS` is answered with status 200 and the four preflight headers; any other method gets the rest of the chain |
| Deps.HandleCorsPreflightAsWritten | server/app/deps.py:114-128 | as written: `OPTIONS` raises, because the JSON response is built without its required content; any other method gets the rest of the chain |
| Deps.PreflightAsWrittenRaises | server/app/deps.py:116-125 | the as-written and corrected preflight agree exactly on the methods other than `OPTIONS`; on `OPTIONS` one raises and the other answers |
| Deps.PreflightSkipsNext | server/app/deps.py:116-125 | the preflight answer does not depend on the rest of the chain |
| Deps.CorsOriginAsWritten | server/app/deps.py:151-156 | the origin as the code computes it: membership is a substring test on the setting string, and the fallback is that string's first character |
| Deps.CorsOrigin | server/app/deps.py:151-156 | the corrected origin: outside a list without `*`, an origin is replaced by the first listed origin; otherwise the request's origin is echoed (like `setup_cors_headers`, unused in the app as shipped) |
| Deps.CorsDefaultAgrees | server/app/deps.py:151-156 | with the default setting `*`, the corrected and the as-written choices agree |
| Deps.FallbackIsFirstCharacter | server/app/deps.py:156 | as written, an origin outside a one-origin setting is answered with the setting's first character, which is no allowed origin |
| Deps.FragmentIsAccepted | server/app/deps.py:154-155 | as written, any fragment of a one-origin setting is echoed as allowed |
| Deps.CorsFallbackIsFirstCharacter | server/app/deps.py:154-156 | the setting `https://a.com` answers the origin `https://b.com` with `h`; the corrected choice answers `https://a.com` |
| Deps.CorsSubstringAccepted | server/app/deps.py:154-155 | the setting `https://a.com` echoes the origin `https://a`; the corrected choice answers `https://a.com` |
| Deps.WithCors | server/app/deps.py:158-161 | exactly four headers are set, to the origin, methods, headers and `true`; every other header is kept |
| Deps.ResponseHeaders.SetupCorsHeaders | server/app/deps.py:149-163 | the response headers become `WithCors` of the old ones, for the origin chosen as written (substring tests, first-character fallback) from the request's `Origin` header |
| Config.StrippedNonEmpty | server/app/config.py:49 | every kept entry is non-empty and trimmed |
| Config.Strips | server/app/config.py:49 | one strip per piece, in order |
| Config.StrippedNonEmptyMembers | server/app/config.py:49 | the kept entries are exactly the non-empty strips of the pieces |
| Config.StrippedNonEmptyAppend | server/app/config.py:49 | the filter keeps order: it distributes over concatenation |
| Config.GetAllowedOrigins | server/app/config.py:47-49 | every origin in the list is non-empty, trimmed and comma-free |
| Config.DefaultOrigins | server/app/config.py:20-49 | the default setting `*` gives the list `["*"]` |
| Config.SingleOrigin | server/app/config.py:49 | a setting without commas is one trimmed origin, or none if it is blank |
| Config.OriginsOfJoin | server/app/config.py:49 | two settings joined by a comma give their two lists one after the other |
| Config.ValidateFireworksKey | server/app/config.py:51-55 | refused exactly when non-empty and shorter than 10 characters; otherwise the key is kept |
| Config.TenCharacterKeyGap | server/app/config.py:53-55 | a 10-character key passes the validator, yet the hosted client is not available with it and the factory picks the mock |
| Config.AvailableKeysValidate | server/app/config.py:51-55 | every key the hosted client accepts passes the validator |
| Api.LineReply | server/app/main.py:271-276 | a line yields a reply iff it is non-blank and something is left after its numbering is dropped; the reply starts past the numbering and has no trailing whitespace |
| Api.LineRepliesSnoc | server/app/main.py:270-276 | one more line appends its reply, when it yields one, after the replies of the lines before it; with the empty case this determines the collected replies |
| Api.LineRepliesShape | server/app/main.py:270-276 | every collected reply has the shape of a line reply |
| Api.LineRepliesAppend | server/app/main.py:270-276 | the loop keeps line order: collecting over two blocks of lines is collecting over each |
| Api.FallbackRepliesShape | server/app/main.py:278-280 | the fallback replies are exactly the non-blank pieces, trimmed and followed by `.`: every reply comes from such a piece, and every such piece gives a reply |
| Api.FallbackRepliesAppend | server/app/main.py:279-280 | the pieces keep their order: the fallback over two blocks of pieces is the fallback over the first followed by that over the second |
| Api.RepliesOf | server/app/main.py:267-282 | never more than three replies |
| Api.RepliesSource | server/app/main.py:270-282 | when any line yields a reply, the replies are the first `min(3, n)` line replies in order; only otherwise are they the first `min(3, n)` fallback replies in order |
| Api.RepliesShape | server/app/main.py:270-282 | no reply is empty; fallback replies end with `.`; line replies start past their numbering |
| Api.ParseReplies | server/app/main.py:267-282 | the parsing loop, the fallback and the cut to three compute `RepliesOf` |
| Api.HandlerBucket | server/app/main.py:91-92 | every caller of an endpoint shares the bucket `127.0.0.1:<endpoint>` |
| Api.HandlerBucketsDistinct | server/app/main.py:91-92 | the three endpoints use three different buckets |
| Api.FormatSeconds | server/app/main.py:96 | a non-negative retry time prints as decimal digits, without a leading zero, reading back as the time rounded half to even; a negative one prints as `-` followed by the digits of its magnitude rounded the same way |
| Api.NormalizedText | server/app/main.py:99-103 | the text every handler checks and sends holds no newline or tab and is at most 10003 characters long; an empty request text gives the empty text |
| Api.PromptFor | server/app/main.py:247-253 | each endpoint's prompt starts with its intro and then holds the line `Tweet: <normalised text>`; it is the summarize, context or replies builder's prompt for the request's fields; for replies the `or "conversational"` default does not change the prompt |
| Api.Respond | server/app/main.py:129-144 | each endpoint gives its own kind of answer: the summary is the trimmed text and `word_count` its number of words; the context is the trimmed text with the request URL; the replies are parsed from the trimmed text and `count` is their number, at most three |
| Api.Decide | server/app/main.py:88-153 | a denied rate limit gives 429, then invalid text gives 400, then a raised or unsuccessful generation gives 500; otherwise the endpoint's answer |
| Api.RefusalStatuses | server/app/main.py:88-153 | a handler refuses only with 429, 400 or 500, and refuses exactly when one of the checks fails |
| Api.Handle | server/app/main.py:88-153 | a denied rate limit gives 429 with the retry detail; otherwise a text that fails `is_valid_text` gives 400; a refusal is only ever 429, 400 or 500; an answer that is not a refusal comes from a successful generation on the endpoint's prompt, built by `Respond` |
| Api.HandleRequest | server/app/main.py:82-153 | consumes from the endpoint's shared bucket exactly as `is_allowed` does, then answers as the checks in order decide |
| Api.Process | server/app/main.py:99-144 | the handler body after the rate-limit call gives the answer of `Handle` |
| Api.RespondTo | server/app/main.py:129-144 | builds the endpoint's answer; the replies go through the parser |

## Left out

- The Redis backends are not part of this model: `RedisCache`, `RedisRateLimiter` and the `create_*` factory fallbacks. Nor are SQLite connections and SQL text. A failing database call is the `fault` parameter.
- Network and async code is left out: the `aiohttp` call of `DobbyClient.generate` with its payload, timeout and error wrapping, and the mock's `asyncio.sleep`. The model's `generate` parameter stands for the client call.
- Logging (structlog) is left out. So is the request id (`uuid`) and its `log_request` middleware, because they only trace and time requests.
- `processing_time`, `uptime` and `health_check` are left out, because they only read the clock.
- Framework wiring is left out: the FastAPI app, `CORSMiddleware`, the `http_exception_handler`, `lifespan` and `uvicorn` startup. How FastAPI routes a raised `HTTPException` to the middleware is also not modelled.
- `_strip_urls` and `extract_urls` are left out. Their regular expressions are not modelled, and every handler calls `normalize` with `strip_urls=False`.
- `LLMClientFactory.create_dobby_client` and `create_mock_client` only construct clients, so they are left out.
- Settings other than the ones the modelled code reads are left out.
- Floating point is modelled as exact `real` arithmetic. IEEE rounding of token counts, rates and times is not modelled.
- Python's clock is read more than once within one call (in `_cleanup_old_buckets` and `consume`, and for `created_at` and `expires_at`). The model uses one instant, `now`.
- Sweep order: the order in which `_cleanup_old_buckets` visits the table is not modelled, because the result does not depend on it.
- RateLimit.RateLimiter.IsAllowed requires non-zero `rate_limit_requests` and `rate_limit_window`. This is stronger than the source: with a zero window, Python raises `ZeroDivisionError` when creating a bucket. With zero requests, it does so in `get_retry_after`. The model holds this requirement as `Valid()`. RateLimit.Admit and Api.HandleRequest carry the same requirement.
- RateLimit.TokenBucket.GetRetryAfter requires a whole token or a non-zero rate. Its Python counterpart raises `ZeroDivisionError` otherwise.
- Text.IsWordChar covers only ASCII letters, digits and `_`. Python's `\w` on a `str` also matches other Unicode letters and digits, so the `@word` and `#word` properties are stated for this class.
- Text.Lower folds only ASCII letters. Python's `str.lower()` also folds other scripts.
- Normalize.BasicNormalize takes NFKC as the `nfkc` parameter and asserts nothing about it. The cache's SHA-256 and the language detector are parameters likewise.
- Schemas.ParseRequest does not model pydantic's error messages for the length bounds. It also does not model an explicit `null` for `style` or `persona`; such a field is treated as omitted.
- Api.Process computes the prompt before the checks, where the handler builds it after them. Since the model is pure, this does not change any answer.
- Cache values are passed unchanged. The source stores them as JSON text, so a tuple would come back as a list and a non-string dictionary key as a string. The model assumes every cached value already survives that round trip.
- LlmClient.MockKind does not record which kind each of the three prompts selects.

## Findings

| source | as written | input that shows it | evidently intended | confidence | as-written member | corrected member |
|---|---|---|---|---|---|---|
| server/app/deps.py:156 | the fallback origin is `settings.allowed_origins[0]`, but the setting is a string, so this is its first character | `setup_cors_headers` called with setting `https://a.com` and request origin `https://b.com`: the header is `h` (the function has no caller in the app as shipped) | the first origin of the parsed list, `https://a.com` | not executed | Deps.CorsFallbackIsFirstCharacter | Deps.CorsOrigin |
| server/app/deps.py:154-155 | `"*" in ...` and `origin in ...` test substrings of the setting string | `setup_cors_headers` called with setting `https://a.com` and request origin `https://a`: echoed as allowed (the function has no caller in the app as shipped) | membership in the parsed origin list (`get_allowed_origins`) | not executed | Deps.CorsSubstringAccepted | Deps.CorsOrigin |
| server/app/deps.py:117 | the preflight answer is `JSONResponse(status_code=200, headers=...)` with no content, which the response class requires | `handle_cors_preflight` called with an `OPTIONS` request (main.py imports it but registers only `log_request` and `handle_rate_limit_exceeded`, so the app as shipped never calls it) | a 200 response without body carrying the four preflight headers | not executed | Deps.PreflightAsWrittenRaises | Deps.HandleCorsPreflight |
