/** The Accept-Language handling of `getLocale` (middleware.ts:30-50): the
    header is split on `,`, each entry is cut at its first `;` (dropping the
    quality value and any other parameter), trimmed, and cut at its first `-`
    (keeping the primary subtag); the first tag, in header order, that is a
    supported code wins, and otherwise the default code is used. The header
    field is the one of section 12.5.4 of RFC 9110 and the primary subtag that
    of section 2.2.1 of RFC 5646; the weights of section 12.4.2 of RFC 9110
    are deliberately not consulted. */
module AcceptLanguage {
  import opened JsString
  import opened Constants

  /** `lang.split(';')[0].trim().split('-')[0]` for one comma-separated entry. */
  function PrimaryTag(entry: string): (tag: string)
    ensures '-' !in tag
  {
    var cut := Trim(Split(entry, ';')[0]);
    SplitPiecesFree(cut, '-');
    Split(cut, '-')[0]
  }

  /** The preference list of lines 36-39: one primary tag per entry, in header order. */
  function PreferredLanguages(header: string): (prefs: seq<string>)
    ensures |prefs| == |Split(header, ',')|
    ensures forall i :: 0 <= i < |prefs| ==> prefs[i] == PrimaryTag(Split(header, ',')[i])
  {
    var entries := Split(header, ',');
    seq(|entries|, i requires 0 <= i < |entries| => PrimaryTag(entries[i]))
  }

  /** The first preference that is a supported code, if any (the loop of lines 42-46). */
  function FirstSupported(prefs: seq<string>, languages: seq<string>): (found: Option<string>)
    ensures found.Some? ==> found.value in languages
  {
    if prefs == [] then None
    else if prefs[0] in languages then Some(prefs[0])
    else FirstSupported(prefs[1..], languages)
  }

  /** `k` is the position of the first supported preference. */
  predicate IsFirstSupported(prefs: seq<string>, languages: seq<string>, k: nat)
  {
    && k < |prefs|
    && prefs[k] in languages
    && forall j :: 0 <= j < k ==> prefs[j] !in languages
  }

  /** A header for which `if (acceptLanguage)` holds: present and nonempty. */
  predicate HasHeader(acceptLanguage: Option<string>)
  {
    acceptLanguage.Some? && acceptLanguage.value != ""
  }

  /** The value `getLocale` returns for the header `acceptLanguage`
      (`None` when the request has no Accept-Language header). */
  function ResolveLocale(acceptLanguage: Option<string>, languages: seq<string>, defaultLng: string): (r: string)
    ensures r in languages || r == defaultLng
    ensures !HasHeader(acceptLanguage) ==> r == defaultLng
  {
    if HasHeader(acceptLanguage) then
      match FirstSupported(PreferredLanguages(acceptLanguage.value), languages)
      case Some(lang) => lang
      case None => defaultLng
    else defaultLng
  }

  /** `getLocale` (middleware.ts:30-50): a linear search with early return. */
  method GetLocale(acceptLanguage: Option<string>, languages: seq<string>, defaultLng: string)
    returns (lang: string)
    ensures lang in languages || lang == defaultLng
    ensures !HasHeader(acceptLanguage) ==> lang == defaultLng
    ensures HasHeader(acceptLanguage) ==>
      var prefs := PreferredLanguages(acceptLanguage.value);
      && (forall k :: 0 <= k < |prefs| && IsFirstSupported(prefs, languages, k) ==> lang == prefs[k])
      && ((forall j :: 0 <= j < |prefs| ==> prefs[j] !in languages) ==> lang == defaultLng)
    ensures lang == ResolveLocale(acceptLanguage, languages, defaultLng)
  {
    if HasHeader(acceptLanguage) {
      var preferredLanguages := PreferredLanguages(acceptLanguage.value);
      FirstSupportedSpec(preferredLanguages, languages);
      var i := 0;
      while i < |preferredLanguages|
        invariant 0 <= i <= |preferredLanguages|
        invariant forall j :: 0 <= j < i ==> preferredLanguages[j] !in languages
      {
        if preferredLanguages[i] in languages {
          assert IsFirstSupported(preferredLanguages, languages, i);
          lang := preferredLanguages[i];
          forall k | 0 <= k < |preferredLanguages| && IsFirstSupported(preferredLanguages, languages, k)
            ensures lang == preferredLanguages[k]
          {
            FirstSupportedUnique(preferredLanguages, languages, i, k);
          }
          return;
        }
        i := i + 1;
      }
    }
    lang := defaultLng;
  }

  // ---------------------------------------------------------------------
  // The search
  // ---------------------------------------------------------------------

  /** There is at most one first supported position. */
  lemma {:induction false} FirstSupportedUnique(prefs: seq<string>, languages: seq<string>, i: nat, k: nat)
    requires IsFirstSupported(prefs, languages, i) && IsFirstSupported(prefs, languages, k)
    ensures i == k
  {
  }

  /** `FirstSupported` yields nothing exactly when no preference is supported,
      and otherwise the preference at the first supported position. */
  lemma {:induction false} FirstSupportedSpec(prefs: seq<string>, languages: seq<string>)
    ensures FirstSupported(prefs, languages) == None <==>
      forall j :: 0 <= j < |prefs| ==> prefs[j] !in languages
    ensures forall k :: 0 <= k < |prefs| && IsFirstSupported(prefs, languages, k) ==>
      FirstSupported(prefs, languages) == Some(prefs[k])
  {
    if prefs != [] && prefs[0] !in languages {
      var tail := prefs[1..];
      FirstSupportedSpec(tail, languages);
      forall k | 0 <= k < |prefs| && IsFirstSupported(prefs, languages, k)
        ensures FirstSupported(prefs, languages) == Some(prefs[k])
      {
        assert k > 0;
        assert IsFirstSupported(tail, languages, k - 1);
      }
      if forall j :: 0 <= j < |tail| ==> tail[j] !in languages {
        forall j | 0 <= j < |prefs| ensures prefs[j] !in languages {
          if j > 0 { assert prefs[j] == tail[j - 1]; }
        }
      }
    }
  }

  /** The search over a concatenation looks in the second part only when the
      first has no supported preference. */
  lemma {:induction false} FirstSupportedConcat(a: seq<string>, b: seq<string>, languages: seq<string>)
    ensures FirstSupported(a + b, languages) ==
      if FirstSupported(a, languages).Some? then FirstSupported(a, languages) else FirstSupported(b, languages)
    decreases |a|
  {
    if a == [] {
      assert a + b == b;
    } else {
      assert (a + b)[1..] == a[1..] + b;
      FirstSupportedConcat(a[1..], b, languages);
    }
  }

  /** What `FirstSupported` finds is one of the preferences. */
  lemma {:induction false} FirstSupportedFound(prefs: seq<string>, languages: seq<string>)
    ensures FirstSupported(prefs, languages).Some? ==> FirstSupported(prefs, languages).value in prefs
  {
    if prefs != [] && prefs[0] !in languages {
      FirstSupportedFound(prefs[1..], languages);
    }
  }

  /** With nonempty codes and a nonempty default, `getLocale` never returns
      the empty string, so the `|| defaultLng` of middleware.ts:15 is inert. */
  lemma {:induction false} ResolveLocaleNonEmpty(acceptLanguage: Option<string>, languages: seq<string>, defaultLng: string)
    requires defaultLng != ""
    requires forall k :: 0 <= k < |languages| ==> languages[k] != ""
    ensures ResolveLocale(acceptLanguage, languages, defaultLng) != ""
  {
  }

  // ---------------------------------------------------------------------
  // Header structure
  // ---------------------------------------------------------------------

  /** Two headers joined by a comma give the concatenation of their preferences. */
  lemma {:induction false} PreferencesConcat(h1: string, h2: string)
    ensures PreferredLanguages(h1 + "," + h2) == PreferredLanguages(h1) + PreferredLanguages(h2)
  {
    SplitConcat(h1, ',', h2);
  }

  /** A header built by joining comma-free entries yields one primary tag per
      entry, in order. */
  lemma {:induction false} PreferencesOfEntries(entries: seq<string>)
    requires |entries| >= 1
    requires forall k :: 0 <= k < |entries| ==> ',' !in entries[k]
    ensures |PreferredLanguages(Join(entries, ','))| == |entries|
    ensures forall k :: 0 <= k < |entries| ==> PreferredLanguages(Join(entries, ','))[k] == PrimaryTag(entries[k])
  {
    SplitJoin(entries, ',');
  }

  /** An entry whose primary tag is not supported, standing between two other
      entries, has no effect on the result. */
  lemma {:induction false} UnsupportedEntrySkipped(h1: string, entry: string, h2: string, languages: seq<string>, defaultLng: string)
    requires ',' !in entry
    requires PrimaryTag(entry) !in languages
    ensures ResolveLocale(Some(h1 + "," + entry + "," + h2), languages, defaultLng)
         == ResolveLocale(Some(h1 + "," + h2), languages, defaultLng)
  {
    SplitNoSeparator(entry, ',');
    assert PreferredLanguages(entry) == [PrimaryTag(entry)];
    assert h1 + "," + entry + "," + h2 == h1 + "," + (entry + "," + h2);
    PreferencesConcat(h1, entry + "," + h2);
    PreferencesConcat(entry, h2);
    PreferencesConcat(h1, h2);
    var p1, p2 := PreferredLanguages(h1), PreferredLanguages(h2);
    FirstSupportedConcat(p1, [PrimaryTag(entry)] + p2, languages);
    FirstSupportedConcat(p1, p2, languages);
    assert ([PrimaryTag(entry)] + p2)[1..] == p2;
  }

  /** An unsupported entry in front of a nonempty header is skipped. */
  lemma {:induction false} LeadingUnsupportedEntrySkipped(entry: string, h: string, languages: seq<string>, defaultLng: string)
    requires ',' !in entry
    requires PrimaryTag(entry) !in languages
    requires h != ""
    ensures ResolveLocale(Some(entry + "," + h), languages, defaultLng)
         == ResolveLocale(Some(h), languages, defaultLng)
  {
    PreferencesConcat(entry, h);
    PreferencesOfEntry(entry);
    FirstSupportedConcat([PrimaryTag(entry)], PreferredLanguages(h), languages);
  }

  /** An unsupported entry after a nonempty header is skipped. */
  lemma {:induction false} TrailingUnsupportedEntrySkipped(h: string, entry: string, languages: seq<string>, defaultLng: string)
    requires ',' !in entry
    requires PrimaryTag(entry) !in languages
    requires h != ""
    ensures ResolveLocale(Some(h + "," + entry), languages, defaultLng)
         == ResolveLocale(Some(h), languages, defaultLng)
  {
    PreferencesConcat(h, entry);
    PreferencesOfEntry(entry);
    FirstSupportedConcat(PreferredLanguages(h), [PrimaryTag(entry)], languages);
    assert [PrimaryTag(entry)][1..] == [];
  }

  /** An empty entry (two adjacent commas) is skipped when no code is empty. */
  lemma {:induction false} EmptyEntrySkipped(h1: string, h2: string, languages: seq<string>, defaultLng: string)
    requires forall k :: 0 <= k < |languages| ==> languages[k] != ""
    ensures ResolveLocale(Some(h1 + ",," + h2), languages, defaultLng)
         == ResolveLocale(Some(h1 + "," + h2), languages, defaultLng)
  {
    SplitNoSeparator("", ';');
    SplitNoSeparator("", '-');
    assert PrimaryTag("") == "";
    assert h1 + ",," + h2 == h1 + "," + "" + "," + h2;
    UnsupportedEntrySkipped(h1, "", h2, languages, defaultLng);
  }

  // ---------------------------------------------------------------------
  // The primary tag of one entry
  // ---------------------------------------------------------------------

  /** Leading whitespace before a non-whitespace character is all `TrimStart` removes. */
  lemma {:induction false} TrimStartAfterWhitespace(ws: string, y: string)
    requires AllWhitespace(ws)
    requires y != [] && !IsWhitespace(y[0])
    ensures TrimStart(ws + y) == y
    decreases |ws|
  {
    if ws == [] {
      assert ws + y == y;
    } else {
      assert (ws + y)[1..] == ws[1..] + y;
      TrimStartAfterWhitespace(ws[1..], y);
    }
  }

  /** `TrimEnd` keeps every character up to the last non-whitespace one. */
  lemma {:induction false} TrimEndKeeps(y: string, n: nat)
    requires n < |y| && !IsWhitespace(y[n])
    ensures n < |TrimEnd(y)| && TrimEnd(y)[..n + 1] == y[..n + 1]
  {
    TrimEndSpec(y);
    var t := TrimEnd(y);
    assert y[..n + 1] == t[..n + 1];
  }

  /** The first piece of `a b` split on `c` is `a` when `a` has no `c` and `b`
      is empty or begins with `c`. */
  lemma {:induction false} SplitHeadBefore(a: string, b: string, c: char)
    requires c !in a
    requires b == [] || b[0] == c
    ensures Split(a + b, c)[0] == a
  {
    if b == [] {
      assert a + b == a;
      SplitNoSeparator(a, c);
    } else {
      assert a + b == a + [c] + b[1..];
      SplitCons(a, c, b[1..]);
    }
  }

  /** The first piece of `a b` split on `c`, when `a` has no `c`, is `a`
      followed by the first piece of `b`. */
  lemma {:induction false} SplitHeadAfter(a: string, b: string, c: char)
    requires c !in a
    ensures Split(a + b, c)[0] == a + Split(b, c)[0]
  {
    FirstIndexAppend(a, c, b);
    SplitHead(a + b, c);
    SplitHead(b, c);
    assert (a + b)[..|a| + FirstIndex(b, c)] == a + b[..FirstIndex(b, c)];
  }

  /** Cutting at the first `c` what is empty or starts with `c` or `d` leaves
      something empty or starting with `d`. */
  lemma {:induction false} HeadAfterCut(rest: string, c: char, d: char)
    requires c != d
    requires rest == [] || rest[0] == c || rest[0] == d
    ensures var h := Split(rest, c)[0]; h == [] || h[0] == d
  {
    SplitHead(rest, c);
    if rest != [] && rest[0] == d {
      assert FirstIndex(rest, c) == 1 + FirstIndex(rest[1..], c);
    }
  }

  /** A code with no whitespace at its end, followed by nothing or by `d`
      and more, keeps the code as the first piece on `d` after `TrimEnd`. */
  lemma {:induction false} TagOfTrimmed(code: string, h: string, d: char)
    requires code != [] && d !in code
    requires !IsWhitespace(code[|code| - 1]) && !IsWhitespace(d)
    requires h == [] || h[0] == d
    ensures Split(TrimEnd(code + h), d)[0] == code
  {
    if h == [] {
      assert code + h == code;
      SplitHeadBefore(code, [], d);
      assert code + [] == code;
    } else {
      var y := code + h;
      assert y[|code|] == d;
      TrimEndKeeps(y, |code|);
      var t := TrimEnd(y);
      assert t[..|code| + 1] == code + [d];
      assert t == code + t[|code|..];
      SplitHeadBefore(code, t[|code|..], d);
    }
  }

  /** A plain code has none of the characters it would be cut at. */
  lemma {:induction false} PlainCodeCuts(ws: string, code: string)
    requires AllWhitespace(ws)
    requires IsPlainCode(code)
    ensures ';' !in ws + code
    ensures !IsWhitespace(code[0]) && !IsWhitespace(code[|code| - 1])
  {
    forall k | 0 <= k < |ws + code| ensures (ws + code)[k] != ';' {
      if k < |ws| {
        assert IsWhitespace(ws[k]);
      } else {
        assert (ws + code)[k] == code[k - |ws|];
        assert code[k - |ws|] in code;
      }
    }
  }

  /** The primary tag of an entry made of optional whitespace, a plain code and
      then nothing, a region (`-…`) or parameters (`;…`, such as `;q=0.8`)
      is the code itself: regions and quality values never matter. */
  lemma {:induction false} PrimaryTagOfCode(ws: string, code: string, rest: string)
    requires AllWhitespace(ws)
    requires IsPlainCode(code)
    requires rest == [] || rest[0] == '-' || rest[0] == ';'
    ensures PrimaryTag(ws + code + rest) == code
  {
    PlainCodeCuts(ws, code);
    var h := Split(rest, ';')[0];
    HeadAfterCut(rest, ';', '-');
    calc {
      Split(ws + code + rest, ';')[0];
    == { assert ws + code + rest == (ws + code) + rest; SplitHeadAfter(ws + code, rest, ';'); }
      (ws + code) + h;
    }
    assert (ws + code) + h == ws + (code + h);
    TrimStartAfterWhitespace(ws, code + h);
    TagOfTrimmed(code, h, '-');
  }

  // ---------------------------------------------------------------------
  // What the search returns for weighted headers
  // ---------------------------------------------------------------------

  /** The first entry wins whenever its primary tag is supported, whatever the
      weights of it and of the entries after it. */
  lemma {:induction false} LeadingSupportedEntryWins(code: string, params: string, rest: string, languages: seq<string>, defaultLng: string)
    requires IsPlainCode(code) && code in languages
    requires params == [] || params[0] == '-' || params[0] == ';'
    requires ',' !in params
    ensures ResolveLocale(Some(code + params + "," + rest), languages, defaultLng) == code
  {
    var entry := code + params;
    assert ',' !in entry by {
      forall k | 0 <= k < |entry| ensures entry[k] != ',' {
        if k < |code| {
          assert entry[k] == code[k];
          assert code[k] in code;
        } else {
          assert entry[k] == params[k - |code|];
          assert params[k - |code|] in params;
        }
      }
    }
    assert ([] + code + params) == entry;
    PrimaryTagOfCode([], code, params);
    SplitCons(entry, ',', rest);
    assert code + params + "," + rest == entry + [','] + rest;
  }

  /** A comma-free header is one entry. */
  lemma {:induction false} PreferencesOfEntry(entry: string)
    requires ',' !in entry
    ensures PreferredLanguages(entry) == [PrimaryTag(entry)]
  {
    SplitNoSeparator(entry, ',');
  }

  /** A header of three comma-free entries yields their three primary tags. */
  lemma {:induction false} PreferencesOfThree(e1: string, e2: string, e3: string)
    requires ',' !in e1 && ',' !in e2 && ',' !in e3
    ensures PreferredLanguages(e1 + "," + e2 + "," + e3) == [PrimaryTag(e1), PrimaryTag(e2), PrimaryTag(e3)]
  {
    calc {
      PreferredLanguages(e1 + "," + e2 + "," + e3);
    == { PreferencesConcat(e1 + "," + e2, e3); PreferencesConcat(e1, e2); }
      PreferredLanguages(e1) + PreferredLanguages(e2) + PreferredLanguages(e3);
    == { PreferencesOfEntry(e1); PreferencesOfEntry(e2); PreferencesOfEntry(e3); }
      [PrimaryTag(e1)] + [PrimaryTag(e2)] + [PrimaryTag(e3)];
    }
  }

  /** The primary tags of `a-region`, `b;q=weight` and `c`. */
  lemma {:induction false} TagsOfThree(a: string, region: string, b: string, weight: string, c: string)
    requires IsPlainCode(a) && IsPlainCode(b) && IsPlainCode(c)
    ensures PrimaryTag(a + ("-" + region)) == a
    ensures PrimaryTag(b + (";q=" + weight)) == b
    ensures PrimaryTag(c) == c
  {
    assert [] + a + ("-" + region) == a + ("-" + region);
    PrimaryTagOfCode([], a, "-" + region);
    assert [] + b + (";q=" + weight) == b + (";q=" + weight);
    PrimaryTagOfCode([], b, ";q=" + weight);
    assert [] + c + [] == c;
    PrimaryTagOfCode([], c, []);
  }

  /** Regions and quality values are dropped and header order is kept: a
      header `a-region,b;q=weight,c` yields the preferences `a`, `b`, `c`. */
  lemma {:induction false} RegionsAndWeightsDropped(a: string, region: string, b: string, weight: string, c: string)
    requires IsPlainCode(a) && IsPlainCode(b) && IsPlainCode(c)
    requires ',' !in region && ',' !in weight
    ensures PreferredLanguages(a + "-" + region + "," + b + ";q=" + weight + "," + c) == [a, b, c]
  {
    var e1, e2 := a + ("-" + region), b + (";q=" + weight);
    assert a + "-" + region + "," + b + ";q=" + weight + "," + c == e1 + "," + e2 + "," + c;
    PreferencesOfThree(e1, e2, c);
    TagsOfThree(a, region, b, weight, c);
  }

  /** The header `fr-CA,en;q=0.8,ar` yields the preferences `fr`, `en`, `ar`. */
  lemma {:induction false} PreferencesExample()
    ensures PreferredLanguages("fr-CA,en;q=0.8,ar") == ["fr", "en", "ar"]
  {
    assert "fr-CA,en;q=0.8,ar" == "fr" + "-" + "CA" + "," + "en" + ";q=" + "0.8" + "," + "ar";
    RegionsAndWeightsDropped("fr", "CA", "en", "0.8", "ar");
  }

  /** Header order beats quality: a low-weighted first entry still wins. */
  lemma {:induction false} LowWeightFirstWins()
    ensures ResolveLocale(Some("en;q=0.1,fr;q=0.9"), LANGUAGES, DEFAULT_LNG) == "en"
  {
    DefaultConfigWellFormed();
    assert LANGUAGES[0] == "en";
    assert "en;q=0.1,fr;q=0.9" == "en" + ";q=0.1" + "," + "fr;q=0.9";
    LeadingSupportedEntryWins("en", ";q=0.1", "fr;q=0.9", LANGUAGES, DEFAULT_LNG);
  }

  /** The first entry wins here too, agreeing with its higher weight by coincidence. */
  lemma {:induction false} HighWeightFirstWins()
    ensures ResolveLocale(Some("ar;q=0.9,en;q=0.5"), LANGUAGES, DEFAULT_LNG) == "ar"
  {
    DefaultConfigWellFormed();
    assert LANGUAGES[1] == "ar";
    assert "ar;q=0.9,en;q=0.5" == "ar" + ";q=0.9" + "," + "en;q=0.5";
    LeadingSupportedEntryWins("ar", ";q=0.9", "en;q=0.5", LANGUAGES, DEFAULT_LNG);
  }
}
