# restify-i18n locale resolution, in Dafny

This project models the locale middleware of `restify-i18n`. It has two parts.

- **`I18nMiddleware`** (`i18n.dfy`) models `index.js`. The class `I18n` holds the settings
  `default` and `directory`, which `Set` replaces. `Locale` handles one request:
  1. It reads the `accept-language` cookie and the `Accept-Language` header.
  2. It picks a candidate tag: the cookie when it repeats the header, else the header, else
     the default.
  3. It negotiates the candidate against the locale folders listed on disk.
  4. It decides `req.locale.lang`. When the negotiated tag is new, `Supported` checks that the
     tag's folder can be read and writes the `accept-language` cookie.
  5. It assigns `req.locale` and calls `next`.

  The decisions are pure functions (`Candidate`, `Decide`, `SupportedLocale`). `Resolve` is
  the whole decision for one request. The methods are proved against these functions. The
  lemmas state the branch rules, the fallback, the repeat-visit and idempotence properties,
  and an example scenario.
- **`Cookies`** (`cookies.dfy`) models `helpers/cookies.js`. The regular expression
  `(?:^|;)\s?NAME=(.*?)(?:;|$)` (flag `i`) is replaced by a scanner. The scanner tries the
  pattern at each index, leftmost first. It tries the alternatives in the same order as the
  JavaScript engine:
  - `^` before `;`;
  - the branch of `\s?` that consumes a white-space character before the one that does not;
  - the lazy value, which stops at the first `;` or at the end of the input.

  Escaping the name (`EscapeRegex`) is proved to leave a pattern that matches only the name's
  own characters. `Unescape` is JavaScript's `unescape`, including the decoding of a
  surrogate pair written as two `%uXXXX` sequences. It is proved to invert `Escape`
  (JavaScript's `escape`) on every string.

JavaScript `null`/`undefined` is `None`. A header or cookie counts as present when it is
JavaScript-truthy (`Truthy`): present and not empty. So an empty cookie value, as in
`accept-language=`, behaves like no cookie. The response is a log of `setCookie` calls. `Next`
records the request's `locale` field each time it is called. This shows that `next` runs once,
after `req.locale` is assigned.

Two inputs are parameters:
- `Disk`: the folder names the locale directory lists (or `None` when listing it throws), and
  the paths `fs.readdirSync` can read.
- `Negotiator`: the `accept-language` package, as a function of the candidate, the listed
  folders and the default. The source calls `lang.get` with the candidate alone. The third
  argument is a device of the model: it gives `Negotiates` a fallback to name.

In these details the model follows the code where a reader might expect otherwise:
- An empty Cookie header is treated like a missing one (`!!req.headers.cookie`).
- An empty cookie value is not "present".
- When the configured directory cannot be listed, the exception leaves the handler. Then
  nothing is assigned, no cookie is written and `next` is not called (`Locale` returns
  `threw`).
- A held cookie that differs from a negotiated default is neither used nor corrected
  (`StaleCookieKept`).

## Model

| member | source | states |
|---|---|---|
| `Cookies.EscapeRegex` | helpers/cookies.js:2 | the pattern is between one and two times the name's length; `EscapedNameIsLiteral` shows it matches only the name's own characters |
| `Cookies.EscapedNameIsLiteral` | helpers/cookies.js:2 | after escaping, the name read as a pattern stands for exactly its own characters, so it is matched literally |
| `Cookies.ValueEnd` | helpers/cookies.js:4 | the lazy value ends at the first `;` or at the end of the input; no `;` or line terminator lies before that point; it always ends when no line terminator comes before some `;` or the end |
| `Cookies.CaptureAt` | helpers/cookies.js:4 | a capture exists only where `NAME=` stands (case ignored); it is exactly the text after `NAME=` up to the next `;` or the end, and holds no `;` and no line terminator; conversely `NAME=` followed by text without line terminators up to a `;` or the end always gives a capture |
| `Cookies.AfterAnchor` | helpers/cookies.js:4 | `\s?` is greedy: when a white-space character follows the anchor and `NAME=` matches after it, that capture is taken; otherwise the capture without the white space |
| `Cookies.MatchAt` | helpers/cookies.js:4 | a match begins only at index 0 or at a `;`; at index 0 the `^` alternative is preferred to `;`; otherwise, at a `;`, the match is exactly the one after the `;` |
| `Cookies.FirstMatchFrom` | helpers/cookies.js:4-5 | returns an index where the pattern matches, and no earlier index matches; none only when no index matches |
| `Cookies.RawValue` | helpers/cookies.js:4-5 | null exactly when the pattern matches at no index; otherwise the capture of the leftmost match, which contains no `;` |
| `Cookies.NoAnchoredNameMeansNull` | helpers/cookies.js:4-7 | with no `NAME=` at the start or after `;` plus at most one white-space character, the result is null |
| `Cookies.AnchoredNameIsFound` | helpers/cookies.js:4-7 | conversely, in a header without line terminators, any such anchored `NAME=` yields a value |
| `Cookies.WithoutSeparatorOnlyLeadingPair` | helpers/cookies.js:4 | a header without `;` yields null unless it starts with `NAME=` (after at most one white-space character) |
| `Cookies.LongerNameNotMatched` | helpers/cookies.js:4 | `x-accept-language=fr-FR` gives null for the name `accept-language`: a name that only ends with the target does not match |
| `Cookies.ExtractIgnoresNameCase` | helpers/cookies.js:4 | names equal up to ASCII case give the same result |
| `Cookies.Extract` | helpers/cookies.js:1-8 | null exactly when the pattern does not match; otherwise the leftmost capture passed through `unescape`. Its properties are stated by `NoAnchoredNameMeansNull`, `AnchoredNameIsFound`, `FirstPairWins`, `ExtractIgnoresNameCase` and `LeadingPairWins` |
| `Cookies.FirstPairWins` | helpers/cookies.js:4-7 | when a name not starting with white space has its first anchored `NAME=` at `q`, the result is the capture at `q` (the text up to the next `;` or the end) unescaped, whatever comes before or after |
| `Cookies.LeadingPairWins` | helpers/cookies.js:4-7 | a header starting `NAME=v` yields `unescape(v)` whatever pairs follow the next `;`: the first match wins and the value stops at the separator |
| `Cookies.Unescape` | helpers/cookies.js:7 | the output is never longer than the input, and a value without `%` is returned unchanged; its inverse is `Escape` (`UnescapeInvertsEscape`) |
| `Cookies.UnescapeInvertsEscape` | helpers/cookies.js:7 | `unescape(escape(t)) == t` for every string, supplementary characters included (escaped as a surrogate pair) |
| `I18nMiddleware.CookieValue` | index.js:26 | no cookie without a non-empty Cookie header; with one, a cookie exactly when the extractor's pattern matches, and its value is the match unescaped |
| `I18nMiddleware.Candidate` | index.js:27 | the candidate is the header when it is present and the default otherwise; the cookie is taken only when it equals the header, so it never changes the candidate |
| `I18nMiddleware.SupportedLocale` | index.js:41-46 | the locale when its folder is readable, else the default; the result is always a readable locale or the default |
| `I18nMiddleware.Decide` | index.js:35 | a cookie is written exactly when the negotiated tag is neither the default nor the held cookie, and it holds the validated tag that becomes `lang`; otherwise `lang` is the negotiated tag with a cookie held and null without; `lang` is always null, the negotiated tag or the default |
| `I18nMiddleware.Resolve` | index.js:23-36 | the handler throws exactly when the directory cannot be listed; `req.locale` copies the current `default` and `directory`; a written cookie equals `lang` |
| `I18nMiddleware.I18n.constructor` | index.js:7-9 | the settings start as `en-US` and `/i18n/` |
| `I18nMiddleware.I18n.Set` | index.js:19-21 | replaces the named setting and leaves the other unchanged |
| `I18nMiddleware.I18n.Supported` | index.js:41-50 | returns the locale when its folder can be read, else the default, and records one `setCookie('accept-language', result)` |
| `I18nMiddleware.I18n.Locale` | index.js:23-39 | assigns `req.locale` as `Resolve` decides, appends exactly the decided cookie write (or none), and calls `next` once, after the assignment; when listing throws, changes nothing |
| `I18nMiddleware.LangIsSupportedOrDefault` | index.js:29-35 | when the negotiator returns a listed folder or the default, `lang` is null, a listed folder or the default, and a written cookie names a readable locale or the default |
| `I18nMiddleware.NoHeaderNoCookie` | index.js:26-35 | no header and no cookie value (no Cookie header, no `accept-language` pair in it, or an empty one): `lang` is null and no cookie is written, when the default negotiates to itself |
| `I18nMiddleware.HeaderLocaleIsPersisted` | index.js:26-48 | a header naming a readable non-default locale and no cookie value: `lang` is that locale and it is written to the cookie |
| `I18nMiddleware.UnreadableLocaleFallsBack` | index.js:35-48 | a new negotiated locale whose folder cannot be read becomes the default, in `lang` and in the cookie |
| `I18nMiddleware.StaleCookieKept` | index.js:35 | a held cookie when the negotiated tag is the default: `lang` is the default and the cookie is not rewritten |
| `I18nMiddleware.EchoedCookieReadsBack` | index.js:26 | the Cookie header `accept-language=tag` reads back as `tag` when the tag holds no `;`, `%` or line terminator |
| `I18nMiddleware.RepeatVisitWritesNothing` | index.js:26-35 | a cookie holding `V` and the header `V`, with `V` not the default and negotiating to itself: `lang` is `V` and no cookie is written |
| `I18nMiddleware.CookieAmongOthersReadsBack` | index.js:26 | `accept-language=V` after `;` or `; ` among other cookies reads back as `V` when no `accept-language` pair comes earlier |
| `I18nMiddleware.RepeatVisitAmongOtherCookies` | index.js:26-35 | the repeat visit with other cookies before and after `accept-language=V`: `lang` is `V` and no cookie is written |
| `I18nMiddleware.ResolutionIsIdempotent` | index.js:23-49 | a second request that sends back the written tag in both header and cookie gets the same `req.locale` and writes no cookie |
| `I18nMiddleware.FrenchHeaderScenario` | index.js:23-49 | default `en-US`, directory `/i18n/`, `/i18n/fr-FR` readable, header `fr-FR`, no cookie: `lang` is `fr-FR` and the cookie is set to `fr-FR` |

## Left out

- The filesystem: `directories()` (index.js:11-17) and the `readdirSync` probe in `supported` are the `Disk` parameter. The working-directory prefix, `path.join` and the `statSync` filter are not modelled.
- The `accept-language` package (index.js:4, 29-30) is the `Negotiator` parameter. Its matching rules and the global state `lang.languages` sets are not modelled. Only `LangIsSupportedOrDefault` assumes its contract (`Negotiates`): it returns a listed folder or the configured default. The package itself is never given the configured default, so this contract is an assumption of the model, not something the source ensures.
- Module loading through the working-directory path (index.js:5) and the singleton export (index.js:53).
- HTTP plumbing: only the two headers, the `locale` field, the cookie log and the calls of `next` are kept. Cookie options and how a browser echoes a cookie back are not modelled. `EchoedCookieHeader` assumes the value comes back verbatim.
- `I18nMiddleware.I18n.Set`: only the two settings are modelled. In JavaScript any property name is accepted, and would overwrite that property of the object, including its methods.
- Case folding under the `i` flag is ASCII-only. Non-ASCII letters that JavaScript folds are compared exactly.
- `Cookies.Unescape`: a `%uXXXX` naming a surrogate that is not part of a high-then-low pair is left as text, because a Dafny `char` is a Unicode scalar value and cannot hold a lone surrogate. JavaScript yields the lone surrogate code unit. A pair is decoded to its one character, as in JavaScript.
- The directory listing is a set. The order `readdirSync` returns and any repetition are not kept. What the `accept-language` package returns may depend on that order.
