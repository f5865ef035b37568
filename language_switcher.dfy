/** The path computation and the label mapping of the language switcher
    (components/LanguageSwitcher.tsx): switching to a code replaces segment 1
    of the current path, and each button is labelled by a translation key
    chosen from its code. */
module LanguageSwitcher {
  import opened JsString
  import opened Constants
  import opened LocaleMiddleware

  /** The path `switchLanguage` navigates to, described on the string itself:
      the text up to and including the first `/`, then `locale`, then whatever
      followed segment 1 (from its closing `/` on). A path without any `/` has
      no segment 1, so `/` and `locale` are appended. */
  function SwitchedPath(pathname: string, locale: string): (r: string)
  {
    var i := FirstIndex(pathname, '/');
    if i == |pathname| then pathname + "/" + locale
    else
      var rest := pathname[i + 1..];
      pathname[..i + 1] + locale + rest[FirstIndex(rest, '/')..]
  }

  /** The path computation of `switchLanguage` (lines 19-21): split on `/`,
      overwrite slot 1 (which extends the array by one when the path has no
      `/`), and join again. */
  method SwitchLanguage(pathname: string, locale: string) returns (newPath: string)
    ensures newPath == SwitchedPath(pathname, locale)
    ensures '/' !in locale ==>
      var before, after := Split(pathname, '/'), Split(newPath, '/');
      && |after| == (if |before| < 2 then 2 else |before|)
      && after[1] == locale
      && forall k :: 0 <= k < |after| && k != 1 ==> after[k] == before[k]
  {
    var segments := Split(pathname, '/');
    ghost var before := segments;
    if |segments| > 1 {
      segments := segments[1 := locale];
    } else {
      segments := segments + [locale];
    }
    newPath := Join(segments, '/');
    JoinOfSwitched(pathname, locale, before, segments);
    if '/' !in locale {
      SwitchedSegments(pathname, locale);
    }
  }

  /** Joining the split path with slot 1 overwritten gives `SwitchedPath`. */
  lemma {:induction false} JoinOfSwitched(pathname: string, locale: string, before: seq<string>, after: seq<string>)
    requires before == Split(pathname, '/')
    requires after == if |before| > 1 then before[1 := locale] else before + [locale]
    ensures Join(after, '/') == SwitchedPath(pathname, locale)
  {
    var i := FirstIndex(pathname, '/');
    if i == |pathname| {
      assert after == [pathname] + [locale];
      JoinCons(pathname, [locale], '/');
    } else {
      var head, rest := pathname[..i], pathname[i + 1..];
      SplitAtFirst(pathname, '/');
      OverwriteSecond(head, Split(rest, '/'), locale);
      SwitchedPathShape(pathname, locale);
      JoinOfShape(SwitchedPath(pathname, locale), head, locale, rest, after);
    }
  }

  /** Joining the head, the code and the later pieces of `rest` gives the
      head, `/`, the code and what followed the first piece of `rest`. */
  lemma {:induction false} JoinOfShape(p: string, head: string, locale: string, rest: string, after: seq<string>)
    requires after == [head] + ([locale] + Split(rest, '/')[1..])
    requires p == head + ['/'] + (locale + rest[FirstIndex(rest, '/')..])
    ensures Join(after, '/') == p
  {
    JoinCons(head, [locale] + Split(rest, '/')[1..], '/');
    JoinOfReplacedHead(rest, locale);
  }

  /** Overwriting slot 1 of `[head] + r` replaces the head of `r`. */
  lemma {:induction false} OverwriteSecond(head: string, r: seq<string>, locale: string)
    requires |r| >= 1
    ensures ([head] + r)[1 := locale] == [head] + ([locale] + r[1..])
  {
  }

  /** Replacing the first piece of `rest` by `locale` and joining keeps
      everything from the first `/` of `rest` on. */
  lemma {:induction false} JoinOfReplacedHead(rest: string, locale: string)
    ensures Join([locale] + Split(rest, '/')[1..], '/') == locale + rest[FirstIndex(rest, '/')..]
  {
    var j := FirstIndex(rest, '/');
    if j == |rest| {
      assert Split(rest, '/')[1..] == [];
      assert [locale] + Split(rest, '/')[1..] == [locale];
      assert rest[j..] == [];
    } else {
      var tail := Split(rest[j + 1..], '/');
      assert Split(rest, '/')[1..] == tail by {
        SplitAtFirst(rest, '/');
      }
      calc {
        Join([locale] + tail, '/');
      == { JoinCons(locale, tail, '/'); }
        locale + "/" + Join(tail, '/');
      == { JoinSplit(rest[j + 1..], '/'); }
        locale + "/" + rest[j + 1..];
      == { assert rest[j..] == "/" + rest[j + 1..]; }
        locale + rest[j..];
      }
    }
  }

  /** Splitting `locale` followed by what came after the first piece of
      `rest` gives `locale` in place of that first piece. */
  lemma {:induction false} SplitOfReplacedHead(rest: string, locale: string)
    requires '/' !in locale
    ensures Split(locale + rest[FirstIndex(rest, '/')..], '/') == [locale] + Split(rest, '/')[1..]
  {
    var j := FirstIndex(rest, '/');
    if j == |rest| {
      assert locale + rest[j..] == locale;
      SplitNoSeparator(locale, '/');
    } else {
      SplitAtFirst(rest, '/');
      assert locale + rest[j..] == locale + ['/'] + rest[j + 1..];
      SplitCons(locale, '/', rest[j + 1..]);
    }
  }

  /** The segments before and after switching a path without any `/`. */
  lemma {:induction false} SwitchedSegmentsOfWord(pathname: string, locale: string)
    requires '/' !in pathname && '/' !in locale
    ensures Split(pathname, '/') == [pathname]
    ensures Split(SwitchedPath(pathname, locale), '/') == [pathname, locale]
  {
    SplitNoSeparator(pathname, '/');
    FirstIndexAbsent(pathname, '/');
    assert SwitchedPath(pathname, locale) == pathname + ['/'] + locale;
    SplitCons(pathname, '/', locale);
    SplitNoSeparator(locale, '/');
  }

  /** A path with a `/` switches to its head piece, `/`, the code and what
      followed segment 1. */
  lemma {:induction false} SwitchedPathShape(pathname: string, locale: string)
    requires FirstIndex(pathname, '/') < |pathname|
    ensures var i := FirstIndex(pathname, '/'); var rest := pathname[i + 1..];
      SwitchedPath(pathname, locale) == pathname[..i] + ['/'] + (locale + rest[FirstIndex(rest, '/')..])
  {
    var i := FirstIndex(pathname, '/');
    assert pathname[..i + 1] == pathname[..i] + ['/'];
  }

  /** A string made of a separator-free head, `/`, the code and what followed
      the first piece of `rest` splits into the head, the code and the later
      pieces of `rest`. */
  lemma {:induction false} SegmentsOfShape(p: string, head: string, locale: string, rest: string)
    requires '/' !in head && '/' !in locale
    requires p == head + ['/'] + (locale + rest[FirstIndex(rest, '/')..])
    ensures Split(p, '/') == [head] + ([locale] + Split(rest, '/')[1..])
  {
    SplitCons(head, '/', locale + rest[FirstIndex(rest, '/')..]);
    SplitOfReplacedHead(rest, locale);
  }

  /** The segments after switching a path with a `/`: the head piece is
      kept and the first piece after it is replaced. */
  lemma {:induction false} SwitchedSegmentsOfPath(pathname: string, locale: string)
    requires '/' !in locale
    requires FirstIndex(pathname, '/') < |pathname|
    ensures var i := FirstIndex(pathname, '/');
      Split(SwitchedPath(pathname, locale), '/')
         == [pathname[..i]] + ([locale] + Split(pathname[i + 1..], '/')[1..])
  {
    var i := FirstIndex(pathname, '/');
    FirstIndexIsFirst(pathname, '/');
    SwitchedPathShape(pathname, locale);
    SegmentsOfShape(SwitchedPath(pathname, locale), pathname[..i], locale, pathname[i + 1..]);
  }

  /** Replacing the second of `[head] + r` keeps the length and every other slot. */
  lemma {:induction false} ReplaceSecond(head: string, r: seq<string>, locale: string)
    requires |r| >= 1
    ensures var before, after := [head] + r, [head] + ([locale] + r[1..]);
      && |after| == |before| && after[1] == locale
      && forall k :: 0 <= k < |after| && k != 1 ==> after[k] == before[k]
  {
  }

  /** Nothing but segment 1 changes: the switched path has `max(n, 2)`
      segments where the old one had `n`, segment 1 is the new code and every
      other segment is the old one. */
  lemma {:induction false} SwitchedSegments(pathname: string, locale: string)
    requires '/' !in locale
    ensures var before, after := Split(pathname, '/'), Split(SwitchedPath(pathname, locale), '/');
      && |after| == (if |before| < 2 then 2 else |before|)
      && after[1] == locale
      && forall k :: 0 <= k < |after| && k != 1 ==> after[k] == before[k]
  {
    var i := FirstIndex(pathname, '/');
    if i == |pathname| {
      FirstIndexIsFirst(pathname, '/');
      assert pathname[..i] == pathname;
      SwitchedSegmentsOfWord(pathname, locale);
    } else {
      SplitAtFirst(pathname, '/');
      SwitchedSegmentsOfPath(pathname, locale);
      ReplaceSecond(pathname[..i], Split(pathname[i + 1..], '/'), locale);
    }
  }

  /** Switching to `a` and then to `b` lands where switching to `b` directly
      does; in particular switching twice to one code is switching once. */
  lemma {:induction false} SwitchTwice(pathname: string, a: string, b: string)
    requires '/' !in a && '/' !in b
    ensures SwitchedPath(SwitchedPath(pathname, a), b) == SwitchedPath(pathname, b)
  {
    var once := SwitchedPath(pathname, a);
    SwitchedSegments(pathname, a);
    SwitchedSegments(once, b);
    SwitchedSegments(pathname, b);
    var s1, s2 := Split(SwitchedPath(once, b), '/'), Split(SwitchedPath(pathname, b), '/');
    assert s1 == s2;
    SplitInjective(SwitchedPath(once, b), SwitchedPath(pathname, b), '/');
  }

  /** A path starting with `/` switches to `/`, the code, and what followed
      segment 1. */
  lemma {:induction false} SwitchedPathAtSlash(p: string, locale: string)
    requires p != [] && p[0] == '/'
    ensures SwitchedPath(p, locale) == "/" + locale + p[1..][FirstIndex(p[1..], '/')..]
  {
    assert FirstIndex(p, '/') == 0;
    assert p[..1] == "/";
  }

  /** Switching `/word/rest` replaces `word` and keeps `/rest`. */
  lemma {:induction false} SwitchedPathOfSegment(p: string, word: string, rest: string, locale: string)
    requires '/' !in word
    requires p == "/" + word + "/" + rest
    ensures SwitchedPath(p, locale) == "/" + locale + "/" + rest
  {
    var r, tail := word + "/" + rest, "/" + rest;
    assert p[0] == '/' && p[1..] == r;
    SwitchedPathAtSlash(p, locale);
    assert r == word + tail && tail[0] == '/';
    FirstIndexAppend(word, '/', tail);
    assert r[|word|..] == tail;
  }

  /** Switching `/word` gives `/locale`. */
  lemma {:induction false} SwitchedPathOfWord(word: string, locale: string)
    requires '/' !in word
    ensures SwitchedPath("/" + word, locale) == "/" + locale
  {
    var p := "/" + word;
    assert p[0] == '/' && p[1..] == word;
    SwitchedPathAtSlash(p, locale);
    FirstIndexAbsent(word, '/');
    assert word[|word|..] == [];
  }

  /** The root and the empty path switch to `/locale`, as does `/word`;
      `/en/rest` switches to `/locale/rest`. */
  lemma {:induction false} SwitchExamples(locale: string, rest: string)
    ensures SwitchedPath("/", locale) == "/" + locale
    ensures SwitchedPath("", locale) == "/" + locale
    ensures '/' !in rest ==> SwitchedPath("/" + rest, locale) == "/" + locale
    ensures SwitchedPath("/en/" + rest, locale) == "/" + locale + "/" + rest
  {
    assert "/" == "/" + [];
    SwitchedPathOfWord([], locale);
    assert FirstIndex("", '/') == 0;
    assert "" + "/" + locale == "/" + locale;
    if '/' !in rest {
      SwitchedPathOfWord(rest, locale);
    }
    assert "/en/" + rest == "/" + "en" + "/" + rest;
    SwitchedPathOfSegment("/en/" + rest, "en", rest, locale);
  }

  /** The buttons offer only supported codes, so from any path beginning with
      `/` the switcher navigates to a path that carries a locale, and the
      middleware lets it pass through. */
  lemma {:induction false} SwitchedPathPassesThrough(pathname: string, locale: string, acceptLanguage: Option<string>,
                                  languages: seq<string>, defaultLng: string)
    requires SlashFree(languages)
    requires locale in languages
    requires pathname != [] && pathname[0] == '/'
    ensures !PathnameIsMissingLocale(SwitchedPath(pathname, locale), languages)
    ensures Middleware(SwitchedPath(pathname, locale), acceptLanguage, languages, defaultLng) == PassThrough
  {
    var target := SwitchedPath(pathname, locale);
    SwitchedSegments(pathname, locale);
    assert FirstIndex(pathname, '/') == 0;
    assert target[0] == '/';
    MissingLocaleIff(target, languages);
    RedirectUnreachable(target, acceptLanguage, languages, defaultLng);
  }

  /** What a button shows: the translation of a key, or the code itself. */
  datatype Label = Translated(key: string) | Verbatim(code: string)

  /** `getLanguageLabel` (lines 26-37): the key of `en`, `ar` or `fr`, and any
      other code shown as it is. */
  function GetLanguageLabel(locale: string): (shown: Label)
    ensures shown.Translated? <==> locale == "en" || locale == "ar" || locale == "fr"
    ensures shown == Translated("common.english") <==> locale == "en"
    ensures shown == Translated("common.arabic") <==> locale == "ar"
    ensures shown == Translated("common.french") <==> locale == "fr"
    ensures shown.Verbatim? ==> shown.code == locale
  {
    if locale == "en" then Translated("common.english")
    else if locale == "ar" then Translated("common.arabic")
    else if locale == "fr" then Translated("common.french")
    else Verbatim(locale)
  }

  /** Different codes ask for different labels: a distinct key, or the code
      itself. (What the translation function makes of a key is not modelled.) */
  lemma {:induction false} LabelsDistinct(a: string, b: string)
    requires a != b
    ensures GetLanguageLabel(a) != GetLanguageLabel(b)
  {
  }
}
