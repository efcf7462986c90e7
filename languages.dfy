/**
 * The two fixed language tables and their lookups (`language_short`, `language_coding`).
 * Both probe the table first with the lower-cased token and then with the token as
 * given. Since the name table's keys are upper-case and the coding table's keys are
 * lower-case, the first lookup is in effect exact and the second case-insensitive.
 */
module Languages {
  import opened Wrappers
  import opened PyStrings

  /** Display names, keyed by upper-case codes. */
  const Names: map<string, string> :=
    map["SK" := "Slovak", "ENG" := "English", "DE" := "German", "CZ" := "Czech"]

  /** Subtitle character sets, keyed by lower-case codes. */
  const Codings: map<string, string> :=
    map["sk" := "CP1250", "eng" := "UTF-8", "de" := "UTF-8", "cz" := "CP1250"]

  /** `table.get(key, None)` */
  function Get(table: map<string, string>, key: string): (r: Option<string>)
    ensures r.Some? <==> key in table
    ensures r.Some? ==> r.value == table[key]
  {
    if key in table then Some(table[key]) else None
  }

  /** Probe with `lang.lower()`, and when that misses, with `lang` itself. */
  function LowerThenExact(table: map<string, string>, lang: string): Option<string> {
    var tmp := Get(table, Lower(lang));
    if tmp.None? then Get(table, lang) else tmp
  }

  /** `language_short(lang)` */
  function LanguageShort(lang: string): Option<string> {
    LowerThenExact(Names, lang)
  }

  /** `language_coding(lang)` */
  function LanguageCoding(lang: string): Option<string> {
    LowerThenExact(Codings, lang)
  }

  predicate HasUpper(s: string) {
    exists i :: 0 <= i < |s| && 'A' <= s[i] <= 'Z'
  }

  predicate AllLower(s: string) {
    forall i :: 0 <= i < |s| ==> 'a' <= s[i] <= 'z'
  }

  /**
   * `language_short` is an exact, case-sensitive lookup: a lower-cased token never
   * equals one of the upper-case keys, so only the second probe can hit.
   */
  lemma LanguageShortIsExact(lang: string)
    ensures LanguageShort(lang) == Get(Names, lang)
  {
    assert forall k :: k in Names ==> HasUpper(k) by {
      assert "SK"[0] == 'S' && "ENG"[0] == 'E' && "DE"[0] == 'D' && "CZ"[0] == 'C';
    }
    LowerHasNoCapitals(lang);
    assert !HasUpper(Lower(lang));
  }

  /**
   * `language_coding` is a case-insensitive lookup: every key is lower-case, so a
   * token that hits with its own spelling hits with its lower-cased spelling as well.
   */
  lemma LanguageCodingIgnoresCase(lang: string)
    ensures LanguageCoding(lang) == Get(Codings, Lower(lang))
  {
    assert forall k :: k in Codings ==> AllLower(k);
    if lang in Codings {
      assert AllLower(lang);
      LowerHasNoCapitals(lang);
    }
  }

  /** Two spellings that lower-case alike get the same character set. */
  lemma LanguageCodingCaseInsensitive(a: string, b: string)
    requires Lower(a) == Lower(b)
    ensures LanguageCoding(a) == LanguageCoding(b)
  {
    LanguageCodingIgnoresCase(a);
    LanguageCodingIgnoresCase(b);
  }

  /** The display names of the four codes, written in upper case. */
  lemma LanguageShortOfKnownCodes()
    ensures LanguageShort("SK") == Some("Slovak")
    ensures LanguageShort("ENG") == Some("English")
    ensures LanguageShort("DE") == Some("German")
    ensures LanguageShort("CZ") == Some("Czech")
  {
    LanguageShortIsExact("SK");
    LanguageShortIsExact("ENG");
    LanguageShortIsExact("DE");
    LanguageShortIsExact("CZ");
  }

  /** Any other spelling, lower-case codes included, has no display name; no error is raised. */
  lemma LanguageShortMisses(lang: string)
    ensures LanguageShort(lang) == None <==> lang !in {"SK", "ENG", "DE", "CZ"}
  {
    LanguageShortIsExact(lang);
  }

  /** The character sets, for every spelling of a token. */
  lemma LanguageCodingValues(lang: string)
    ensures LanguageCoding(lang) == Some("CP1250") <==> Lower(lang) == "sk" || Lower(lang) == "cz"
    ensures LanguageCoding(lang) == Some("UTF-8") <==> Lower(lang) == "eng" || Lower(lang) == "de"
    ensures LanguageCoding(lang) == None <==> Lower(lang) !in {"sk", "eng", "de", "cz"}
  {
    LanguageCodingIgnoresCase(lang);
  }

  /** A few spellings: mixed case, and the KELVIN SIGN, which lower-cases to `k`. */
  lemma LanguageCodingExamples()
    ensures LanguageShort("eng") == None
    ensures LanguageCoding("Eng") == Some("UTF-8")
    ensures LanguageCoding("cZ") == Some("CP1250")
    ensures LanguageCoding("S\U{212A}") == Some("CP1250")
    ensures LanguageCoding("fr") == None
  {
    LanguageShortMisses("eng");
    assert Lower("Eng") == "eng";
    LanguageCodingValues("Eng");
    assert Lower("cZ") == "cz";
    LanguageCodingValues("cZ");
    assert Lower("S\U{212A}") == "sk";
    LanguageCodingValues("S\U{212A}");
    assert Lower("fr") == "fr";
    LanguageCodingValues("fr");
  }
}
