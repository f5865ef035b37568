/** The locale configuration. The module that defines `languages` and
    `defaultLng` (lib/constants) is not part of this model, so every operation
    takes both as parameters and the lemmas state what they assume of them. */
module Constants {
  import opened JsString

  /** The codes the language switcher labels; the configuration these suggest. */
  const LANGUAGES: seq<string> := ["en", "ar", "fr"]
  const DEFAULT_LNG: string := "en"

  /** No supported code contains `/`, so a code is always one whole path segment. */
  predicate SlashFree(languages: seq<string>)
  {
    forall k :: 0 <= k < |languages| ==> '/' !in languages[k]
  }

  /** A code cannot be confused with the pieces of an Accept-Language entry:
      it is nonempty and holds none of `/ , ; -` nor whitespace. */
  predicate IsPlainCode(code: string)
  {
    && code != []
    && '/' !in code && ',' !in code && ';' !in code && '-' !in code
    && forall k :: 0 <= k < |code| ==> !IsWhitespace(code[k])
  }

  /** The assumptions the lemmas make about the configuration. */
  predicate WellFormed(languages: seq<string>, defaultLng: string)
  {
    && defaultLng in languages
    && forall k :: 0 <= k < |languages| ==> IsPlainCode(languages[k])
  }

  /** A well-formed configuration has slash-free codes. */
  lemma {:induction false} WellFormedSlashFree(languages: seq<string>, defaultLng: string)
    requires WellFormed(languages, defaultLng)
    ensures SlashFree(languages)
  {
  }

  /** The configuration the repository's labels suggest is well formed. */
  lemma {:induction false} DefaultConfigWellFormed()
    ensures WellFormed(LANGUAGES, DEFAULT_LNG)
  {
    assert LANGUAGES[0] == DEFAULT_LNG;
  }
}
