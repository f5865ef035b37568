# Locale resolution of a localised web application

This project models the locale-routing core of a small web application. The
application serves every page under a locale prefix (`/en/...`, `/ar/...`,
`/fr/...`). The modelled core has three parts:

- **The middleware decision.** A request whose path carries no supported
  locale is rewritten to the same path prefixed with a locale. That locale is
  chosen from the request's `Accept-Language` header: the header is split on
  commas, each entry is cut at `;`, trimmed and cut at `-`, and the first
  primary tag that is supported wins. Otherwise the default locale is used.
  Quality weights are ignored. Provided no configured code contains `/`,
  every other request passes through: the code also contains a redirect for
  an unsupported first segment, but no such request can reach it.
- **The server path helpers** `isValidLocale` and `getLocaleFromPath`.
- **The language switcher.** Its path computation replaces segment 1 of the
  current path with the chosen locale. Its label mapping turns a code into a
  translation key.

The framework's responses are reduced to a `Decision`:
`Rewrite(path)`, `Redirect(path)` or `PassThrough`. The configuration
(`languages`, `defaultLng`) comes from a module that is not part of this
model, so every operation takes the configuration as parameters. The lemmas
state what they assume about it:
- `WellFormed`: the default code is supported, and every code is nonempty and
  holds none of `/ , ; -` nor whitespace.
- `SlashFree`: no code contains `/`.

The labels the switcher knows suggest the configuration `en`, `ar`, `fr` with
default `en`. This is `Constants.LANGUAGES` and `Constants.DEFAULT_LNG`, used
by the concrete examples.

The JavaScript string operations the code relies on are modelled in
`JsString`:
- `split` with a one-character separator, which always yields at least one
  piece (`"".split(c)` is `[""]`);
- `join`, `startsWith` and one-argument `slice`;
- `trim`, over the whitespace and line-terminator set of ECMAScript;
- reading an array slot past the end, which yields `undefined` (modelled as
  `None`).

The middleware's own comments state a redirect as intended:
middleware.ts:12 says a path missing its locale needs "redirect or rewrite",
and middleware.ts:21 says a path whose locale is not supported is redirected
to the default. The code does not do the latter. A path such as
`/xx/dashboard` carries no supported code, so the missing-locale branch
rewrites it to `/<detected>/xx/dashboard`. The redirect test is reached only
when the path carries a supported code, and then segment 1 is that code
whenever codes are free of `/`. The model follows the code:
- `LocaleMiddleware.RedirectUnreachable` proves the branch dead;
- `LocaleMiddleware.UnsupportedSegmentRewritten` shows the rewrite;
- `LocaleMiddleware.RedirectNeedsSlashInCode` shows the branch fires once
  a code contains `/`.

Files:
- `js_string.dfy`: module `JsString`;
- `constants.dfy`: module `Constants`;
- `accept_language.dfy`: module `AcceptLanguage`, covering `getLocale`;
- `middleware.dfy`: module `LocaleMiddleware`;
- `i18n_server.dfy`: module `I18nServer`;
- `language_switcher.dfy`: module `LanguageSwitcher`.

## Model

| member | source | states |
|---|---|---|
| JsString.Split | middleware.ts:37 | `s.split(c)` always has at least one piece; its meaning is given by JoinSplit, SplitJoin and SplitPiecesFree |
| JsString.Join | components/LanguageSwitcher.tsx:21 | `parts.join(c)` starts with the first part; SplitJoin and JoinSplit make it the inverse of `split` |
| JsString.StartsWith | middleware.ts:9 | `s.startsWith(prefix)`; used by CarriesCode and characterised through LocaleMiddleware.CarriesCodeIffFirstSegment |
| JsString.Trim | middleware.ts:38 | `s.trim()` is no longer than `s` and neither starts nor ends with whitespace; TrimStartSpec and TrimEndSpec say exactly what is removed |
| JsString.At | middleware.ts:22 | `arr[i]` is defined exactly when `i` is below the length, and is then the element at `i`; otherwise it is `undefined` |
| JsString.Slice | middleware.ts:25 | `s.slice(n)` is what follows the first `n` characters, and is empty past the end |
| JsString.SplitPiecesFree | middleware.ts:37-39 | no piece of `s.split(c)` contains `c` |
| JsString.SplitHead | middleware.ts:38-39 | piece 0 of a split is the text before the first separator |
| JsString.JoinSplit | components/LanguageSwitcher.tsx:19-21 | joining the pieces of `s.split(c)` with `c` gives back `s` |
| JsString.SplitJoin | middleware.ts:36-37 | splitting a join of separator-free pieces gives back those pieces |
| JsString.SplitConcat | middleware.ts:36-37 | the split of `a c b` is the split of `a` followed by the split of `b` |
| JsString.SplitInjective | components/LanguageSwitcher.tsx:19-21 | two strings with the same pieces are equal |
| JsString.SplitNoSeparator | middleware.ts:37 | a string without the separator splits into itself alone |
| JsString.SplitCons | middleware.ts:37 | `a c b`, with no `c` in `a`, splits into `a` followed by the pieces of `b` |
| JsString.TrimStartSpec | middleware.ts:38 | leading trimming removes exactly a whitespace prefix: the rest does not start with whitespace |
| JsString.TrimEndSpec | middleware.ts:38 | trailing trimming removes exactly a whitespace suffix: the rest does not end with whitespace |
| JsString.TrimUnchanged | middleware.ts:38 | a string with no whitespace at either end is its own trim |
| Constants.DefaultConfigWellFormed | components/LanguageSwitcher.tsx:27-33 | the configuration `en`, `ar`, `fr` with default `en` meets every assumption the lemmas make |
| AcceptLanguage.PrimaryTag | middleware.ts:38-39 | the primary tag of one entry holds no `-`; PrimaryTagOfCode says which tag a plain code with a region or parameters gives |
| AcceptLanguage.FirstSupported | middleware.ts:42-46 | what the search finds is a supported code; FirstSupportedSpec gives its position |
| AcceptLanguage.ResolveLocale | middleware.ts:30-50 | `getLocale` returns a member of `languages` or `defaultLng`, and `defaultLng` for an absent or empty header |
| AcceptLanguage.PreferredLanguages | middleware.ts:36-39 | one preference per comma-separated entry, in header order, each the entry's primary tag |
| AcceptLanguage.GetLocale | middleware.ts:30-50 | the search returns a supported code or the default; the default for an absent or empty header; the preference at the first supported position; the default when nothing is supported; and the value `ResolveLocale` describes |
| AcceptLanguage.FirstSupportedSpec | middleware.ts:42-46 | the search finds nothing exactly when no preference is supported, and otherwise returns the preference at the first supported position |
| AcceptLanguage.FirstSupportedUnique | middleware.ts:42-46 | the first supported position is unique |
| AcceptLanguage.FirstSupportedFound | middleware.ts:42-46 | what the search finds is one of the header's preferences |
| AcceptLanguage.FirstSupportedConcat | middleware.ts:42-46 | the search looks at later preferences only when no earlier one is supported |
| AcceptLanguage.ResolveLocaleNonEmpty | middleware.ts:15 | with nonempty codes and default, `getLocale` is never empty, so `\|\| defaultLng` never changes the result |
| AcceptLanguage.PreferencesConcat | middleware.ts:36-39 | two headers joined by a comma give the concatenation of their preferences |
| AcceptLanguage.PreferencesOfEntries | middleware.ts:36-39 | a header joined from comma-free entries gives one primary tag per entry, in order |
| AcceptLanguage.PreferencesOfEntry | middleware.ts:36-39 | a comma-free header is a single preference |
| AcceptLanguage.UnsupportedEntrySkipped | middleware.ts:42-49 | an entry whose primary tag is unsupported, standing between two other entries, does not change the result |
| AcceptLanguage.LeadingUnsupportedEntrySkipped | middleware.ts:42-49 | an unsupported entry in front of a nonempty header does not change the result |
| AcceptLanguage.TrailingUnsupportedEntrySkipped | middleware.ts:42-49 | an unsupported entry after a nonempty header does not change the result |
| AcceptLanguage.EmptyEntrySkipped | middleware.ts:42-49 | an empty entry (`,,`) does not change the result |
| AcceptLanguage.PrimaryTagOfCode | middleware.ts:38-39 | the primary tag of optional whitespace, a plain code, then nothing, a region or parameters, is the code |
| AcceptLanguage.LeadingSupportedEntryWins | middleware.ts:42-46 | a supported first entry wins whatever its parameters and whatever follows |
| AcceptLanguage.RegionsAndWeightsDropped | middleware.ts:36-39 | `a-region,b;q=weight,c` gives the preferences `a`, `b`, `c` |
| AcceptLanguage.PreferencesExample | middleware.ts:36-39 | `fr-CA,en;q=0.8,ar` gives the preferences `fr`, `en`, `ar` |
| AcceptLanguage.LowWeightFirstWins | middleware.ts:42-46 | `en;q=0.1,fr;q=0.9` resolves to `en`: header order beats weight |
| AcceptLanguage.HighWeightFirstWins | middleware.ts:42-46 | `ar;q=0.9,en;q=0.5` resolves to `ar` |
| LocaleMiddleware.PathnameIsMissingLocale | middleware.ts:8-10 | the `every` test; a path that fails it starts with `/`; MissingLocaleIff characterises it |
| LocaleMiddleware.FirstSegment | middleware.ts:22 | `pathname.split('/')[1]`, which holds no `/` when defined; FirstSegmentAfterSlash and CarriesCodeIffFirstSegment characterise it |
| LocaleMiddleware.Middleware | middleware.ts:4-28 | the decision is a rewrite exactly when the path carries no supported code; a rewrite's path is longer than the original, starts with `/` and ends with the original |
| LocaleMiddleware.MissingLocaleIff | middleware.ts:8-10 | for slash-free codes, a path carries a locale iff it is `/L` or starts with `/L/` for some configured `L`, and iff it starts with `/` and its segment 1 is supported |
| LocaleMiddleware.CarriesCodeIffFirstSegment | middleware.ts:8-22 | carrying a slash-free code is the same as starting with `/` and having it as segment 1 |
| LocaleMiddleware.FirstSegmentAfterSlash | middleware.ts:22 | segment 1 of `/t` is the text of `t` before its first `/` |
| LocaleMiddleware.MissingUnderDefaultCodes | middleware.ts:8-10 | under `en`, `ar`, `fr` a path misses its locale iff it carries none of the three |
| LocaleMiddleware.UnsupportedWordMissesLocale | middleware.ts:8-10 | a path whose segment 1 is an unsupported word misses its locale, whatever follows |
| LocaleMiddleware.NearMissesMissLocale | middleware.ts:8-10 | `/english`, `/en-US` and `/EN` miss their locale: matching is exact and case-sensitive |
| LocaleMiddleware.ExactMatchesCarryLocale | middleware.ts:8-10 | `/en`, `/en/` and `/fr/dashboard` carry a locale |
| LocaleMiddleware.RedirectUnreachable | middleware.ts:22-27 | with slash-free codes no path and no header lead to a redirect |
| LocaleMiddleware.PassThroughIffCarries | middleware.ts:8-28 | with slash-free codes a request passes through iff its path carries a supported code |
| LocaleMiddleware.MissingLocaleRewritten | middleware.ts:13-19 | a path missing its locale is rewritten to `/` + getLocale's code + the path, and that code is supported |
| LocaleMiddleware.RewriteWithDetected | middleware.ts:13-19 | a path missing its locale is rewritten under a nonempty detected code |
| LocaleMiddleware.RewriteTargetSupported | middleware.ts:8-19 | a rewritten path carries a locale, and its segment 1 is supported |
| LocaleMiddleware.RewriteIdempotent | middleware.ts:8-19 | feeding a rewritten path back through the middleware, with any header, passes it through |
| LocaleMiddleware.DashboardPathsMissLocale | middleware.ts:8-10 | `/dashboard` and `/xx/dashboard` carry no locale |
| LocaleMiddleware.DashboardRewritten | middleware.ts:13-19 | for any header resolving to `code`, `/dashboard` is rewritten to `/code/dashboard` |
| LocaleMiddleware.UnsupportedSegmentRewritten | middleware.ts:13-27 | `/xx/dashboard` with no header is rewritten to `/en/xx/dashboard`, not redirected |
| LocaleMiddleware.SupportedSegmentPassesThrough | middleware.ts:22-28 | `/fr/dashboard` passes through |
| LocaleMiddleware.RedirectNeedsSlashInCode | middleware.ts:22-27 | with the single code `a/b`, the path `/a/b` is redirected to `/a/b/b`: the branch is live only for a code containing `/` |
| I18nServer.IsValidLocale | lib/i18n-server.ts:56-58 | a locale is valid iff it equals some entry of `languages` |
| I18nServer.GetLocaleFromPath | lib/i18n-server.ts:61-64 | segment 1 when it is supported, the default otherwise; valid whenever the default is |
| I18nServer.GetLocaleFromPathFallbacks | lib/i18n-server.ts:61-64 | `/`, the empty path and a path without `/` give the default |
| I18nServer.GetLocaleFromPathOfWord | lib/i18n-server.ts:61-64 | `/word/rest` gives `word` when it is supported and the default otherwise (so `/xx/about` gives the default) |
| I18nServer.AgreesWithMiddleware | lib/i18n-server.ts:61-64 | for a path starting with `/`, getLocaleFromPath returns segment 1 exactly when the middleware finds a locale in the path |
| LanguageSwitcher.SwitchedPath | components/LanguageSwitcher.tsx:19-21 | the path the switcher computes; SwitchedSegments, SwitchTwice and JoinOfSwitched characterise it |
| LanguageSwitcher.SwitchLanguage | components/LanguageSwitcher.tsx:19-21 | the new path is `SwitchedPath`; for a slash-free code it has `max(n, 2)` segments, segment 1 is the code and every other segment is unchanged |
| LanguageSwitcher.JoinOfSwitched | components/LanguageSwitcher.tsx:19-21 | joining the split path with slot 1 overwritten, or extended, gives `SwitchedPath` |
| LanguageSwitcher.SwitchedSegments | components/LanguageSwitcher.tsx:19-21 | read on the string: segment 1 becomes the code, the count becomes `max(n, 2)`, every other segment is unchanged |
| LanguageSwitcher.SwitchTwice | components/LanguageSwitcher.tsx:19-21 | switching to `a` then to `b` is switching to `b`; switching twice to one code is switching once |
| LanguageSwitcher.SwitchedPathOfSegment | components/LanguageSwitcher.tsx:19-21 | `/word/rest` switches to `/code/rest` |
| LanguageSwitcher.SwitchedPathOfWord | components/LanguageSwitcher.tsx:19-21 | `/word` switches to `/code` |
| LanguageSwitcher.SwitchExamples | components/LanguageSwitcher.tsx:19-21 | `/` and the empty path switch to `/code`; `/en/rest` switches to `/code/rest` |
| LanguageSwitcher.SwitchedPathPassesThrough | components/LanguageSwitcher.tsx:19-21 | from a path starting with `/`, switching to a supported code gives a path that carries a locale, and the middleware passes it through |
| LanguageSwitcher.GetLanguageLabel | components/LanguageSwitcher.tsx:26-37 | `en`, `ar` and `fr` get the keys `common.english`, `common.arabic` and `common.french`; any other code is shown as it is; a label is a key iff the code is `en`, `ar` or `fr`, and each key belongs to exactly one code |
| LanguageSwitcher.LabelsDistinct | components/LanguageSwitcher.tsx:26-37 | different codes ask for different labels: a distinct key, or the code itself; what the translation function makes of a key is not modelled |

## Left out

- `getTranslationResources`, `initI18next` and `getTranslation` (lib/i18n-server.ts:9-53): file reads, JSON parsing and translation-library set-up, which are I/O and a foreign library.
- lib/i18n.ts: client-side configuration of the translation library, a browser language detector and an HTTP backend; it is library configuration and side effects.
- The display code: `i18n.changeLanguage`, `router.push` and the markup in components/LanguageSwitcher.tsx, plus components/I18nProvider.tsx, components/ClientComponent.tsx, app/layout.tsx and app/page.tsx (a framework redirect to the default locale). These are side effects and rendering.
- types/i18next.d.ts: type declarations with no behaviour. The key `common.french` is missing from its `Resources` type; the switcher bypasses the type check with `as any`. The model treats keys as plain strings.
- The module that defines `languages` and `defaultLng` (lib/constants) is not part of this model; both are parameters.
- `NextResponse` and the resolution of `new URL(..., request.url)`, query strings and URL normalisation: a decision carries only the path string.
- The `matcher` configuration (middleware.ts:52-55), which the framework applies before the middleware runs.
- JavaScript strings are sequences of UTF-16 code units, while the model's strings are sequences of Unicode scalar values. `locale.length` (middleware.ts:25) and every index count differently for characters outside the Basic Multilingual Plane, and lone surrogates cannot be represented. The results agree, because every separator is ASCII and the slice counts the same unit on both sides.
- Trimming uses a fixed character set, ECMAScript's WhiteSpace and LineTerminator characters. Unicode details beyond that set are not modelled.
- Weight-based negotiation of section 12.4.2 of RFC 9110, since the code ignores quality values.
- LocaleMiddleware.DashboardRewritten: is stated for any header resolving to a code rather than for one literal header; `ar;q=0.9,en;q=0.5` resolving to `ar` is proved separately by AcceptLanguage.HighWeightFirstWins.
