/** The two pure path helpers of the server-side i18n module
    (lib/i18n-server.ts:55-64). */
module I18nServer {
  import opened JsString
  import opened Constants
  import opened LocaleMiddleware

  /** `isValidLocale` (lines 56-58): `languages.includes(locale)`, exact string
      equality against some entry. */
  function IsValidLocale(locale: string, languages: seq<string>): (valid: bool)
    ensures valid <==> exists k :: 0 <= k < |languages| && languages[k] == locale
  {
    locale in languages
  }

  /** `getLocaleFromPath` (lines 61-64): segment 1 when it is a supported code,
      the default code otherwise (also when segment 1 is `undefined`, since
      `includes(undefined)` is false for a list of strings). */
  function GetLocaleFromPath(pathname: string, languages: seq<string>, defaultLng: string): (r: string)
    ensures FirstSegment(pathname).Some? && FirstSegment(pathname).value in languages ==>
      r == Split(pathname, '/')[1]
    ensures !(|Split(pathname, '/')| > 1 && IsValidLocale(Split(pathname, '/')[1], languages)) ==>
      r == defaultLng
    ensures IsValidLocale(defaultLng, languages) ==> IsValidLocale(r, languages)
  {
    var locale := FirstSegment(pathname);
    if locale.Some? && IsValidLocale(locale.value, languages) then locale.value else defaultLng
  }

  /** `/`, the empty path, a path without `/` and an unsupported first segment
      all fall back to the default code. */
  lemma {:induction false} GetLocaleFromPathFallbacks(languages: seq<string>, defaultLng: string, word: string)
    requires forall k :: 0 <= k < |languages| ==> languages[k] != ""
    requires '/' !in word
    ensures GetLocaleFromPath("/", languages, defaultLng) == defaultLng
    ensures GetLocaleFromPath("", languages, defaultLng) == defaultLng
    ensures GetLocaleFromPath(word, languages, defaultLng) == defaultLng
  {
    assert "/" == [] + ['/'] + [];
    SplitCons([], '/', []);
    SplitNoSeparator([], '/');
    SplitNoSeparator(word, '/');
  }

  /** For `/word/rest`, the result is `word` when it is supported and the
      default code otherwise: `/fr/about` gives `fr`, `/xx/about` the default. */
  lemma {:induction false} GetLocaleFromPathOfWord(word: string, rest: string, languages: seq<string>, defaultLng: string)
    requires '/' !in word
    ensures GetLocaleFromPath("/" + word + "/" + rest, languages, defaultLng) ==
      if word in languages then word else defaultLng
  {
    assert "/" + word + "/" + rest == [] + ['/'] + (word + ['/'] + rest);
    SplitCons([], '/', word + ['/'] + rest);
    SplitCons(word, '/', rest);
  }

  /** For a path beginning with `/`, `getLocaleFromPath` returns segment 1
      exactly when the middleware finds that the path carries a locale, so
      the two agree on which paths are localised. */
  lemma {:induction false} AgreesWithMiddleware(pathname: string, languages: seq<string>, defaultLng: string)
    requires WellFormed(languages, defaultLng)
    requires pathname != [] && pathname[0] == '/'
    ensures !PathnameIsMissingLocale(pathname, languages) <==>
      |Split(pathname, '/')| > 1 && GetLocaleFromPath(pathname, languages, defaultLng) == Split(pathname, '/')[1]
  {
    MissingLocaleIff(pathname, languages);
  }
}
