# Japanimation translator: rate limiter and mapping builders

This project models two pieces of a Next.js translator that shows a
translation word by word (or, for Japanese, token by token with its romaji
reading):

- **The rate limiter** (`middleware.ts`). It guards the `/api/translate`
  route with a fixed window per client address. It keeps an in-memory table
  `ip -> {count, resetTime}`, allows 10 requests per 60-second window and
  answers 429 with a `Retry-After` in whole seconds. A periodic sweep deletes
  rows whose window is over.
- **The mapping builders** (`services/translationService.ts`). They turn a
  translated text into ordered `{japanese, phonetic, index}` records:
  - Japanese text is tokenized and each non-blank token is romanized. If
    the tools are missing, or tokenizing or any conversion fails, every
    character becomes its own record.
  - Other text is split at white-space runs, keeping the runs.
  - `translateText` checks its input, posts the text to the translation
    route, and picks the builder by target language.
  - The demonstration stand-in for the Japanese tools is modelled in full:
    a per-character table lookup with passthrough, and a tokenizer that
    makes one token per character.

Files:

- `Strings.dfy`: the ECMAScript white-space class shared by `trim()` and
  `\s`, trimming, and joining a sequence of strings.
- `Outcomes.dfy`: `Option` and `Outcome` (a value, or an error message
  standing for a thrown `Error`).
- `RateLimit.dfy`:
  - the `RateLimiter` class, whose `store` field is the table;
  - its methods `Middleware` and `CleanupStore`;
  - the specification functions `Transition` and `Cleaned` they are proved
    against;
  - lemmas over runs of requests and sweeps.
- `Kuroshiro.dfy`:
  - the tool interface, with `tokenize` and `convert` as function values
    that may fail;
  - the demonstration table, converter and tokenizer.
- `TranslationService.dfy`:
  - `CreateJapaneseRomajiMapping`, `CreateTextMapping` and `TranslateText`
    as methods that follow the service's loops;
  - the functions that specify those methods;
  - the properties of the mappings.

The clock (`Date.now()`) is a parameter of every operation that reads it.
The HTTP call to the translation route is a function parameter, and so are
the real tokenizer and converter.

## Model

| member | source | states |
|---|---|---|
| Strings.Trim | middleware.ts:39 | `trim()` returns its input with a white-space prefix and a white-space suffix cut off, and the result neither starts nor ends with white space. The result is empty exactly when the input is all white space. Input with no white space at either end is returned unchanged. |
| RateLimit.FirstField | middleware.ts:39 | `split(',')[0]` is a prefix of the header that holds no comma. It is either the whole header or is followed by a comma. |
| RateLimit.GetClientIp | middleware.ts:34-50 | The address is chosen in priority order: the first `x-forwarded-for` field, trimmed, which holds no comma and only characters of that header; else `x-real-ip`; else `unknown-ip`. A header that is missing or empty counts as absent. |
| RateLimit.RetryAfterSeconds | middleware.ts:69 | `Math.ceil(ms / 1000)` is the least whole number of seconds s with ms <= 1000·s. |
| RateLimit.Refreshed | middleware.ts:60-65 | A missing or expired row is replaced by a zero count with a window ending at now + 60000. Otherwise the stored row is used. Either way the window ends no earlier than now. |
| RateLimit.Transition | middleware.ts:53-92 | A path outside `/api/translate` changes nothing and is let through. Otherwise the request is refused exactly when the refreshed count has reached 10. A refusal changes nothing and carries `ceil((resetTime - now)/1000)` seconds. An accepted request stores the count plus one. Other clients' rows are untouched. Counts stay within 0..10. Retry-After lies in 0..60 while no window ends more than 60 s ahead, and that bound is preserved. |
| RateLimit.Cleaned | middleware.ts:21-28 | The sweep keeps exactly the rows whose reset time is not before now, unchanged. It preserves the count bound. |
| RateLimit.RateLimiter.constructor | middleware.ts:18 | The table starts empty, and so satisfies the count bound. |
| RateLimit.RateLimiter.Middleware | middleware.ts:53-92 | The in-place update of the table and the verdict are exactly `Transition` of the old table, for the client address `GetClientIp` picks. The count bound is kept. |
| RateLimit.RateLimiter.CleanupStore | middleware.ts:21-28 | Deleting expired rows key by key leaves exactly `Cleaned` of the old table. The count bound is kept. |
| RateLimit.WindowAllowance | middleware.ts:59-87 | Over any run of requests and sweeps, none later than a client's reset time, the client's row keeps its reset time. Its count grows by exactly the number of that client's requests let through, and that number is at most 10 minus the starting count. |
| RateLimit.WindowLimit | middleware.ts:5-6 | A request that opens a client's window, followed by any events up to 60 s later, gets at most 10 of that client's requests let through in total. |
| Kuroshiro.SimpleMapping | services/translationService.ts:62-79 | The demonstration table gives a non-empty value for each of its 69 keys (64 of one character, five longer) and nothing for any other key. |
| Kuroshiro.SingleCharMapping | services/translationService.ts:63-77 | Every one-character key of the table is outside ASCII. Each of its values is `?` or starts and ends with a lower-case letter. |
| Kuroshiro.LookupIn | services/translationService.ts:83 | `table[char] \|\| char` is never empty. It is the table's value when that value is present and non-empty, and the character itself when the key is missing. |
| Kuroshiro.RomanizeWith | services/translationService.ts:81-85 | The converted text is never shorter than the input. It is empty exactly when the input is. |
| Kuroshiro.Convert | services/translationService.ts:60-86 | The loop that appends each character's lookup returns `Romanize(text)`. |
| Kuroshiro.DemoTokenize | services/translationService.ts:88-93 | `text.split('')` gives one token per character, in order. |
| Kuroshiro.RomanizeAppend | services/translationService.ts:81-85 | Converting a concatenation converts the two parts independently. |
| Kuroshiro.OnlyOneCharKeysMatter | services/translationService.ts:76-78 | Because the loop looks up single characters, any table that agrees on one-character keys gives the same output. The keys `彼女`, `言っ`, `ほしかった`, `thank` and `you` never take effect. |
| Kuroshiro.AsciiLookupIsIdentity | services/translationService.ts:62-79 | An ASCII character is looked up as itself. |
| Kuroshiro.AsciiUnchanged | services/translationService.ts:81-85 | ASCII text converts to itself. |
| Kuroshiro.TableValuesTrimmed | services/translationService.ts:62-79 | For a character that is not white space, its lookup is unchanged by `trim()`. The `romaji.trim()` of the token loop therefore has no effect in demonstration mode. |
| Kuroshiro.RomanizeSnoc | services/translationService.ts:81-85 | Converting one more character appends that character's lookup. |
| Kuroshiro.RomanizeHit | services/translationService.ts:83 | A listed character appends its table value. |
| Kuroshiro.RomanizeMiss | services/translationService.ts:83 | An unlisted character appends itself. |
| Kuroshiro.ParticleExample | services/translationService.ts:63 | `は` converts to `wa`, not `ha`. |
| Kuroshiro.GreetingExample | services/translationService.ts:63-66 | `こんにちは` converts to `konnichiwa`. |
| Kuroshiro.VowelsUnlisted | services/translationService.ts:62-79 | The vowel kana `あ` and `う` are not in the table. |
| Kuroshiro.UnlistedKanaExample | services/translationService.ts:83 | `ありがとう` converts to `あrigatoう`, because the unlisted vowels pass through. |
| Kuroshiro.LongerKeyExample | services/translationService.ts:76 | `彼女` converts to `彼女`, not `kanojo`. |
| TranslationService.CharacterMapping | services/translationService.ts:182-186 | The fallback has one record per character, in order. Each record reads as itself and is numbered by position, and the records together spell the text. |
| TranslationService.KeptTokens | services/translationService.ts:161-162 | Skipping blank tokens keeps no more tokens than there are, and none of the kept ones is blank. |
| TranslationService.KeptTokensSingle | services/translationService.ts:162 | A single token is kept exactly when its surface form is not blank. |
| TranslationService.KeptTokensAppend | services/translationService.ts:161-162 | Skipping blank tokens in two runs of tokens gives the kept tokens of the first run followed by those of the second, so the loop keeps the tokens' order. |
| TranslationService.KeptTokensFilter | services/translationService.ts:161-162 | Every kept token is one of the tokens, and every token whose surface form is not blank is kept. |
| TranslationService.TokenMappings | services/translationService.ts:158-176 | When the token loop succeeds, it gives one record per kept token, numbered without gaps. |
| TranslationService.TokenMappingsFail | services/translationService.ts:161-176 | The token loop fails if and only if some non-blank token fails to convert. Blank tokens are never converted. |
| TranslationService.TokenMappingsAt | services/translationService.ts:171-175 | Record i holds kept token i's surface form, its conversion trimmed, and index i. |
| TranslationService.TokenMappingsStep | services/translationService.ts:161-175 | One more token adds nothing if it is blank, fails if it does not convert, and otherwise appends its record with the next index. |
| TranslationService.JapaneseMapping | services/translationService.ts:146-188 | The result is always numbered without gaps. It is the per-character fallback when the tools are missing, when tokenizing fails, or when any kept token fails to convert. When the token loop succeeds, the result is exactly what that loop built. |
| TranslationService.JapaneseMappingRecords | services/translationService.ts:155-177 | When the tools are there, tokenizing succeeds and no kept token fails to convert, there is one record per kept token, in order. Each record holds the token's surface form, its conversion trimmed, and its position. |
| TranslationService.CreateJapaneseRomajiMapping | services/translationService.ts:146-188 | The token loop, with `continue` on blank tokens and an early fallback on a failed conversion, returns exactly `JapaneseMapping`. |
| TranslationService.BlankChar | services/translationService.ts:162 | A one-character token is blank exactly when its character is white space. |
| TranslationService.DemoKeptTokens | services/translationService.ts:88-93 | With the demonstration tokenizer, the kept tokens are exactly the non-white-space characters, in order. |
| TranslationService.DemoMapping | services/translationService.ts:58-95 | In demonstration mode the Japanese mapping has one record per non-white-space character, in order. Each record reads through the table and is numbered by position. |
| TranslationService.SplitKeepingWhitespace | services/translationService.ts:193 | `split(/(\s+)/)` always gives an odd number of pieces, `['']` for the empty text. The first piece is empty exactly when the text starts with white space. |
| TranslationService.SplitIsCorrect | services/translationService.ts:193 | The pieces of the split alternate between words with no white space and non-empty maximal white-space runs. Only the first and last words may be empty. The pieces join back to the text. |
| TranslationService.SplitSpells | services/translationService.ts:193 | The pieces of the split join back to the text. |
| TranslationService.SplitAlternates | services/translationService.ts:193 | The pieces of the split alternate between words and maximal white-space runs. |
| TranslationService.SplitIsUnique | services/translationService.ts:193 | Any alternating pieces that join to the text are the split's pieces. Together with `SplitIsCorrect`, this characterizes the split completely. |
| TranslationService.WordMapping | services/translationService.ts:191-205 | There is one record per piece of the split. Each record reads as itself and is numbered in order, and the records spell the text. |
| TranslationService.CreateTextMapping | services/translationService.ts:191-205 | The push loop with a running index returns exactly `WordMapping`. |
| TranslationService.ReplyError | services/translationService.ts:238 | A failed reply's error is the route's `error` when that is present and non-empty, and a generic message otherwise. It is never empty. |
| TranslationService.TranslateText | services/translationService.ts:208-256 | A missing or blank input fails with the no-input message before any request is made. Otherwise the source language defaults to `auto`. A failed call propagates its error, and a non-ok reply fails with `ReplyError`. Target `ja` gives the Japanese mapping of the translation, and any other target gives the word mapping. |

## Left out

- Tokenizing and converting with the real kuroshiro and kuromoji libraries
  are function parameters that may fail, not a model of morphological
  analysis.
- `initializeJapaneseTools` (services/translationService.ts:24-105) is not
  modelled. It means dynamic imports, a browser check and dictionary
  loading. The result is modelled as an `Option`: no tools (initialization
  failed, so every later step throws), the real tools, or the
  demonstration tools (`DEMO_TOOLS`).
- `convertToRomaji` and `tokenizeJapanese` are not modelled separately.
  They only re-run initialization and re-throw, which the `Option` and
  `Outcome` values already capture.
- The kuroshiro conversion options (`romaji`, `spaced`, `hepburn`) belong
  to the external converter and are not modelled.
- `Date.now()` and the `setInterval` that runs the sweep every 10 minutes
  are not modelled. The time is a parameter, and a sweep is an explicit
  event.
- The 429 response's JSON body and `Content-Type` are not modelled. Only
  the status (`TooManyRequests`) and the `Retry-After` value are.
- The Next.js `matcher` configuration is not modelled. The middleware's own
  prefix test is.
- Header lookup is a map from lower-case names. The case-insensitive
  matching of `Headers.get` and its joining of repeated headers are not
  modelled.
- The table is a plain object in the source, so an address equal to an
  inherited property name (`constructor`, `__proto__`, ...) behaves
  differently there. The model treats every address as an ordinary key.
- Characters are Unicode scalar values. `split('')` in the source splits
  UTF-16 code units while `for...of` walks code points. For text outside
  the Basic Multilingual Plane the source's per-character fallback and
  tokens split surrogate pairs, and the model does not.
- `response.json()` failing, and a reply without `translatedText`, are not
  modelled. A reply carries a string.
- Console logging is not modelled.
- Strings.IsBlank is stated as "every character is white space". By
  `Strings.Trim`'s contract, this is the same as `s.trim() === ''`.
- The React UI, the API routes and the Anthropic and text-to-speech
  services are outside this model.
