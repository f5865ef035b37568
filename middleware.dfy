/** The routing decision of `middleware` (middleware.ts:4-28): a path that does
    not carry a supported code is rewritten to one prefixed by the code taken
    from the Accept-Language header; otherwise a redirect branch guards against
    an unsupported first segment, and when it does not fire the request passes
    through unchanged. The framework's response objects are reduced to the
    path they carry. */
module LocaleMiddleware {
  import opened JsString
  import opened Constants
  import opened AcceptLanguage

  datatype Decision = Rewrite(path: string) | Redirect(path: string) | PassThrough

  /** The `languages.every(...)` test of lines 8-10. */
  predicate PathnameIsMissingLocale(pathname: string, languages: seq<string>)
    ensures !PathnameIsMissingLocale(pathname, languages) ==> pathname != [] && pathname[0] == '/'
  {
    forall k :: 0 <= k < |languages| ==>
      !StartsWith(pathname, "/" + languages[k] + "/") && pathname != "/" + languages[k]
  }

  /** `pathname` carries the code `code`: it is `/code` or starts with `/code/`. */
  predicate CarriesCode(pathname: string, code: string)
  {
    pathname == "/" + code || StartsWith(pathname, "/" + code + "/")
  }

  /** `pathname.split('/')[1]`, which is `undefined` when there is no `/`. */
  function FirstSegment(pathname: string): (segment: Option<string>)
    ensures segment.Some? ==> '/' !in segment.value
  {
    SplitPiecesFree(pathname, '/');
    At(Split(pathname, '/'), 1)
  }

  /** `middleware` (lines 4-28). `acceptLanguage` is the header value, `None`
      when the request has none. No branch is removed: the redirect of lines
      22-27 is written as it stands. */
  function Middleware(pathname: string, acceptLanguage: Option<string>, languages: seq<string>, defaultLng: string)
    : (d: Decision)
    ensures d.Rewrite? <==> PathnameIsMissingLocale(pathname, languages)
    ensures d.Rewrite? ==> |pathname| < |d.path| && d.path[0] == '/' && d.path[|d.path| - |pathname|..] == pathname
  {
    if PathnameIsMissingLocale(pathname, languages) then
      var detected := ResolveLocale(acceptLanguage, languages, defaultLng);
      var locale := if detected != "" then detected else defaultLng;
      assert ("/" + locale + pathname)[|locale| + 1..] == pathname;
      Rewrite("/" + locale + pathname)
    else
      var locale := FirstSegment(pathname);
      if locale.Some? && locale.value != "" && locale.value !in languages then
        Redirect("/" + defaultLng + Slice(pathname, |locale.value| + 1))
      else
        PassThrough
  }

  // ---------------------------------------------------------------------
  // Which paths carry a locale
  // ---------------------------------------------------------------------

  /** Segment 1 of `/t` is the text of `t` before its first `/`. */
  lemma {:induction false} FirstSegmentAfterSlash(t: string)
    ensures FirstSegment("/" + t) == Some(t[..FirstIndex(t, '/')])
  {
    assert "/" + t == [] + ['/'] + t;
    SplitCons([], '/', t);
    SplitHead(t, '/');
  }

  /** A path that carries a slash-free code has it as segment 1. */
  lemma {:induction false} CarriesCodeFirstSegment(pathname: string, code: string)
    requires '/' !in code
    requires CarriesCode(pathname, code)
    ensures pathname != [] && pathname[0] == '/' && FirstSegment(pathname) == Some(code)
  {
    var t := pathname[1..];
    assert pathname == "/" + t;
    FirstSegmentAfterSlash(t);
    if pathname == "/" + code {
      assert t == code + [];
      FirstIndexAppend(code, '/', []);
    } else {
      assert t == code + ("/" + t[|code| + 1..]);
      FirstIndexAppend(code, '/', "/" + t[|code| + 1..]);
    }
  }

  /** A path beginning with `/` whose segment 1 is a slash-free code carries it. */
  lemma {:induction false} FirstSegmentCarriesCode(pathname: string, code: string)
    requires '/' !in code
    requires pathname != [] && pathname[0] == '/' && FirstSegment(pathname) == Some(code)
    ensures CarriesCode(pathname, code)
  {
    var t := pathname[1..];
    assert pathname == "/" + t;
    FirstSegmentAfterSlash(t);
    var i := FirstIndex(t, '/');
    assert t[..i] == code;
    if i < |t| {
      assert t[..i + 1] == code + "/";
      assert pathname[..|code| + 2] == "/" + t[..i + 1];
    } else {
      assert t == t[..i];
    }
  }

  /** Carrying a slash-free code is the same thing as having it as segment 1. */
  lemma {:induction false} CarriesCodeIffFirstSegment(pathname: string, code: string)
    requires '/' !in code
    ensures CarriesCode(pathname, code) <==>
      pathname != [] && pathname[0] == '/' && FirstSegment(pathname) == Some(code)
  {
    if CarriesCode(pathname, code) {
      CarriesCodeFirstSegment(pathname, code);
    }
    if pathname != [] && pathname[0] == '/' && FirstSegment(pathname) == Some(code) {
      FirstSegmentCarriesCode(pathname, code);
    }
  }

  /** A path carries a locale exactly when, for some supported code, it is
      `/code` or starts with `/code/`; with slash-free codes, exactly when it
      starts with `/` and its segment 1 is a supported code. Matching is exact,
      so case and suffixes matter. */
  lemma {:induction false} MissingLocaleIff(pathname: string, languages: seq<string>)
    requires SlashFree(languages)
    ensures !PathnameIsMissingLocale(pathname, languages) <==>
      exists k :: 0 <= k < |languages| && CarriesCode(pathname, languages[k])
    ensures !PathnameIsMissingLocale(pathname, languages) <==>
      && pathname != [] && pathname[0] == '/'
      && FirstSegment(pathname).Some? && FirstSegment(pathname).value in languages
  {
    if !PathnameIsMissingLocale(pathname, languages) {
      var k :| 0 <= k < |languages| && CarriesCode(pathname, languages[k]);
      CarriesCodeIffFirstSegment(pathname, languages[k]);
    }
    if pathname != [] && pathname[0] == '/' && FirstSegment(pathname).Some? && FirstSegment(pathname).value in languages {
      var k :| 0 <= k < |languages| && languages[k] == FirstSegment(pathname).value;
      CarriesCodeIffFirstSegment(pathname, languages[k]);
    }
  }

  /** Under the codes en, ar and fr, a path misses its locale exactly when it
      carries none of the three. */
  lemma {:induction false} MissingUnderDefaultCodes(pathname: string)
    ensures PathnameIsMissingLocale(pathname, LANGUAGES) <==>
      !CarriesCode(pathname, "en") && !CarriesCode(pathname, "ar") && !CarriesCode(pathname, "fr")
  {
    assert LANGUAGES[0] == "en" && LANGUAGES[1] == "ar" && LANGUAGES[2] == "fr";
    if !CarriesCode(pathname, "en") && !CarriesCode(pathname, "ar") && !CarriesCode(pathname, "fr") {
      forall k | 0 <= k < |LANGUAGES|
        ensures !StartsWith(pathname, "/" + LANGUAGES[k] + "/") && pathname != "/" + LANGUAGES[k]
      {
        assert !CarriesCode(pathname, LANGUAGES[k]);
      }
    }
  }

  /** `/english`, `/en-US` and `/EN` carry no locale: matching is exact, so
      case and suffixes matter. */
  lemma {:induction false} NearMissesMissLocale()
    ensures PathnameIsMissingLocale("/english", LANGUAGES)
    ensures PathnameIsMissingLocale("/en-US", LANGUAGES)
    ensures PathnameIsMissingLocale("/EN", LANGUAGES)
  {
    assert "/english" == "/" + "english" + [] && "/en-US" == "/" + "en-US" + [] && "/EN" == "/" + "EN" + [];
    UnsupportedWordMissesLocale("english", []);
    UnsupportedWordMissesLocale("en-US", []);
    UnsupportedWordMissesLocale("EN", []);
  }

  /** A path whose segment 1 is a word that is none of en, ar and fr carries
      no locale, whatever follows that word. */
  lemma {:induction false} UnsupportedWordMissesLocale(word: string, tail: string)
    requires '/' !in word && word !in LANGUAGES
    requires tail == [] || tail[0] == '/'
    ensures PathnameIsMissingLocale("/" + word + tail, LANGUAGES)
  {
    DefaultConfigWellFormed();
    WellFormedSlashFree(LANGUAGES, DEFAULT_LNG);
    var t := word + tail;
    assert "/" + word + tail == "/" + t;
    FirstSegmentAfterSlash(t);
    FirstIndexAppend(word, '/', tail);
    assert t[..|word|] == word;
    MissingLocaleIff("/" + t, LANGUAGES);
  }

  /** `/en`, `/en/` and `/fr/dashboard` carry a locale. */
  lemma {:induction false} ExactMatchesCarryLocale()
    ensures !PathnameIsMissingLocale("/en", LANGUAGES)
    ensures !PathnameIsMissingLocale("/en/", LANGUAGES)
    ensures !PathnameIsMissingLocale("/fr/dashboard", LANGUAGES)
  {
    MissingUnderDefaultCodes("/en");
    assert "/en" == "/" + "en";
    MissingUnderDefaultCodes("/en/");
    assert "/en/"[..4] == "/" + "en" + "/";
    MissingUnderDefaultCodes("/fr/dashboard");
    assert "/fr/dashboard"[..4] == "/" + "fr" + "/";
  }

  // ---------------------------------------------------------------------
  // The decision
  // ---------------------------------------------------------------------

  /** The redirect branch of lines 22-27 is dead code: with slash-free codes no
      path and no header lead to it. */
  lemma {:induction false} RedirectUnreachable(pathname: string, acceptLanguage: Option<string>, languages: seq<string>, defaultLng: string)
    requires SlashFree(languages)
    ensures !Middleware(pathname, acceptLanguage, languages, defaultLng).Redirect?
  {
    MissingLocaleIff(pathname, languages);
  }

  /** A request passes through exactly when its path carries a supported code. */
  lemma {:induction false} PassThroughIffCarries(pathname: string, acceptLanguage: Option<string>, languages: seq<string>, defaultLng: string)
    requires SlashFree(languages)
    ensures Middleware(pathname, acceptLanguage, languages, defaultLng) == PassThrough <==>
      exists k :: 0 <= k < |languages| && CarriesCode(pathname, languages[k])
  {
    MissingLocaleIff(pathname, languages);
    RedirectUnreachable(pathname, acceptLanguage, languages, defaultLng);
  }

  /** A path missing its locale is rewritten to `/` + getLocale's code + the
      path; the `|| defaultLng` fallback never changes that code. */
  lemma {:induction false} MissingLocaleRewritten(pathname: string, acceptLanguage: Option<string>, languages: seq<string>, defaultLng: string)
    requires WellFormed(languages, defaultLng)
    requires PathnameIsMissingLocale(pathname, languages)
    ensures Middleware(pathname, acceptLanguage, languages, defaultLng)
         == Rewrite("/" + ResolveLocale(acceptLanguage, languages, defaultLng) + pathname)
    ensures ResolveLocale(acceptLanguage, languages, defaultLng) in languages
  {
    ResolveLocaleNonEmpty(acceptLanguage, languages, defaultLng);
  }

  /** A rewritten path starts with a supported code as its segment 1. */
  lemma {:induction false} RewriteTargetSupported(pathname: string, acceptLanguage: Option<string>, languages: seq<string>, defaultLng: string)
    requires WellFormed(languages, defaultLng)
    requires pathname == [] || pathname[0] == '/'
    requires Middleware(pathname, acceptLanguage, languages, defaultLng).Rewrite?
    ensures var target := Middleware(pathname, acceptLanguage, languages, defaultLng).path;
      FirstSegment(target).Some? && FirstSegment(target).value in languages
      && !PathnameIsMissingLocale(target, languages)
  {
    MissingLocaleRewritten(pathname, acceptLanguage, languages, defaultLng);
    var code := ResolveLocale(acceptLanguage, languages, defaultLng);
    var target := "/" + code + pathname;
    assert '/' !in code;
    if pathname == [] {
      assert target == "/" + code;
    } else {
      assert target[..|code| + 2] == "/" + code + "/";
    }
    assert CarriesCode(target, code);
    CarriesCodeIffFirstSegment(target, code);
    MissingLocaleIff(target, languages);
  }

  /** Idempotence: feeding a rewritten path back through the middleware, with
      any header, lets it pass through. */
  lemma {:induction false} RewriteIdempotent(pathname: string, acceptLanguage: Option<string>, again: Option<string>,
                          languages: seq<string>, defaultLng: string)
    requires WellFormed(languages, defaultLng)
    requires pathname == [] || pathname[0] == '/'
    requires Middleware(pathname, acceptLanguage, languages, defaultLng).Rewrite?
    ensures Middleware(Middleware(pathname, acceptLanguage, languages, defaultLng).path, again, languages, defaultLng)
         == PassThrough
  {
    RewriteTargetSupported(pathname, acceptLanguage, languages, defaultLng);
    var target := Middleware(pathname, acceptLanguage, languages, defaultLng).path;
    RedirectUnreachable(target, again, languages, defaultLng);
  }

  // ---------------------------------------------------------------------
  // Concrete requests, for the configuration en, ar, fr with default en
  // ---------------------------------------------------------------------

  /** Paths with an ordinary first word carry no locale. */
  lemma {:induction false} DashboardPathsMissLocale()
    ensures PathnameIsMissingLocale("/dashboard", LANGUAGES)
    ensures PathnameIsMissingLocale("/xx/dashboard", LANGUAGES)
  {
    assert "/dashboard" == "/" + "dashboard" + [];
    UnsupportedWordMissesLocale("dashboard", []);
    assert "/xx/dashboard" == "/" + "xx" + "/dashboard";
    UnsupportedWordMissesLocale("xx", "/dashboard");
  }

  /** An unprefixed path is rewritten with the header's first supported code:
      for any header getLocale resolves to `code`, `/dashboard` becomes
      `/code/dashboard`; with `ar;q=0.9,en;q=0.5`, which resolves to `ar`
      (HighWeightFirstWins), that is `/ar/dashboard`. */
  lemma {:induction false} DashboardRewritten(acceptLanguage: Option<string>, code: string)
    requires ResolveLocale(acceptLanguage, LANGUAGES, DEFAULT_LNG) == code && code != ""
    ensures Middleware("/dashboard", acceptLanguage, LANGUAGES, DEFAULT_LNG) == Rewrite("/" + code + "/dashboard")
  {
    DashboardPathsMissLocale();
    RewriteWithDetected("/dashboard", acceptLanguage, LANGUAGES, DEFAULT_LNG, code);
  }

  /** A path missing its locale is rewritten under the code getLocale detects,
      when that code is not empty. */
  lemma {:induction false} RewriteWithDetected(pathname: string, acceptLanguage: Option<string>,
                                               languages: seq<string>, defaultLng: string, code: string)
    requires PathnameIsMissingLocale(pathname, languages)
    requires ResolveLocale(acceptLanguage, languages, defaultLng) == code && code != ""
    ensures Middleware(pathname, acceptLanguage, languages, defaultLng) == Rewrite("/" + code + pathname)
  {
  }

  /** An unsupported first segment is not redirected: `/xx/dashboard` is
      rewritten under the detected code, here the default. */
  lemma {:induction false} UnsupportedSegmentRewritten()
    ensures Middleware("/xx/dashboard", None, LANGUAGES, DEFAULT_LNG) == Rewrite("/en/xx/dashboard")
  {
    DashboardPathsMissLocale();
  }

  /** A supported first segment passes through. */
  lemma {:induction false} SupportedSegmentPassesThrough()
    ensures Middleware("/fr/dashboard", None, LANGUAGES, DEFAULT_LNG) == PassThrough
  {
    DefaultConfigWellFormed();
    ExactMatchesCarryLocale();
    RedirectUnreachable("/fr/dashboard", None, LANGUAGES, DEFAULT_LNG);
  }

  /** The redirect branch is live only for a code with a `/` in it: with the
      single code `a/b`, the path `/a/b` carries it, its segment 1 `a` is not
      supported, and the request is redirected. */
  lemma {:induction false} RedirectNeedsSlashInCode()
    ensures Middleware("/a/b", None, ["a/b"], "a/b") == Redirect("/a/b/b")
  {
    assert "/a/b" == "/" + ["a/b"][0];
    assert !PathnameIsMissingLocale("/a/b", ["a/b"]);
    assert "/a/b" == [] + ['/'] + ("a" + ['/'] + "b");
    SplitCons([], '/', "a" + ['/'] + "b");
    SplitCons("a", '/', "b");
    assert FirstSegment("/a/b") == Some("a");
    assert Slice("/a/b", 2) == "/b";
  }
}
