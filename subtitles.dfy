/**
 * Subtitle discovery (`find_subtitles`): every file next to the video whose name is
 * the video's path without extension, then anything, then `.srt`, becomes one
 * subtitle triple of display language, language token and file path.
 */
module Subtitles {
  import opened Wrappers
  import opened PyStrings
  import opened PosixPath
  import opened Languages

  /** The `[language_short(token), token, filename]` list built per subtitle file. */
  datatype Subtitle = Subtitle(language: Option<string>, token: string, file: string)

  /**
   * `entry` is one of the paths `glob.glob(base + '*.srt')` returns: it is `base`,
   * then anything without a slash, then `.srt`; and, as `glob` hides dot files from a
   * pattern that does not itself start with a dot, it is not hidden unless the base is.
   */
  predicate MatchesSrtGlob(base: string, entry: string) {
    |base| + 4 <= |entry| && StartsWith(entry, base) && EndsWith(entry, ".srt") &&
    '/' !in entry[|base|..|entry| - 4] &&
    (StartsWith(BaseName(base), ".") || !StartsWith(BaseName(entry), "."))
  }

  /** `glob.glob(base + '*.srt')` over the entries `listing` of the video's directory, in listing order. */
  function GlobSrt(base: string, listing: seq<string>): (files: seq<string>)
    ensures forall f :: f in files ==> f in listing && MatchesSrtGlob(base, f)
    ensures forall f :: f in listing && MatchesSrtGlob(base, f) ==> f in files
  {
    if listing == [] then []
    else (if MatchesSrtGlob(base, listing[0]) then [listing[0]] else []) + GlobSrt(base, listing[1..])
  }

  /** `filename[len(path):-4]`: what lies between the base and the last four characters. */
  function RawToken(base: string, name: string): string {
    Slice(name, |base|, -4)
  }

  predicate IsDot(c: char) {
    c == '.'
  }

  predicate AllDots(s: string) {
    forall k :: 0 <= k < |s| ==> IsDot(s[k])
  }

  /** `filename[len(path):-4].strip().strip('.')` */
  function Token(base: string, name: string): string {
    Strip(Strip(RawToken(base, name), IsSpace), IsDot)
  }

  /** `s` is the triple `find_subtitles` builds for the file `name`. */
  predicate SubtitleFor(s: Subtitle, base: string, name: string) {
    var token := Token(base, name);
    s.file == name &&
    if token == [] then s.language == Some("English") && s.token == "ENG"
    else s.language == LanguageShort(token) && s.token == token
  }

  /** The token assumed for a subtitle file whose name carries none. */
  const DefaultToken: string := "ENG"

  /** The triple for one file, computed as the loop body of `find_subtitles` does. */
  function SubtitleOf(base: string, name: string): Subtitle {
    var language := Token(base, name);
    if language == [] then Subtitle(LanguageShort(DefaultToken), DefaultToken, name)
    else Subtitle(LanguageShort(language), language, name)
  }

  /** `subs` holds one triple per matching file, in match order. */
  predicate SubtitlesFound(subs: seq<Subtitle>, base: string, listing: seq<string>) {
    var files := GlobSrt(base, listing);
    |subs| == |files| && forall i :: 0 <= i < |subs| ==> SubtitleFor(subs[i], base, files[i])
  }

  /** `find_subtitles(path)`, with `listing` standing for the directory `glob` reads. */
  method FindSubtitles(path: string, listing: seq<string>) returns (languages: seq<Subtitle>)
    ensures SubtitlesFound(languages, path, listing)
  {
    var files := GlobSrt(path, listing);
    languages := [];
    for i := 0 to |files|
      invariant |languages| == i
      invariant forall k :: 0 <= k < i ==> languages[k] == SubtitleOf(path, files[k])
    {
      var filename := files[i];
      var language := Token(path, filename);
      if language == [] {
        languages := languages + [Subtitle(LanguageShort(DefaultToken), DefaultToken, filename)];
      } else {
        languages := languages + [Subtitle(LanguageShort(language), language, filename)];
      }
      assert languages[i] == SubtitleOf(path, filename);
    }
    ComputedTriplesAreFound(languages, path, listing);
  }

  lemma ComputedTriplesAreFound(subs: seq<Subtitle>, base: string, listing: seq<string>)
    requires var files := GlobSrt(base, listing);
      |subs| == |files| && forall k :: 0 <= k < |subs| ==> subs[k] == SubtitleOf(base, files[k])
    ensures SubtitlesFound(subs, base, listing)
  {
    LanguageShortOfKnownCodes();
  }

  /** For a matching file the raw token is exactly the text between the base and `.srt`. */
  lemma RawTokenOfMatch(base: string, name: string)
    requires MatchesSrtGlob(base, name)
    ensures name == base + RawToken(base, name) + ".srt"
  {
    BetweenBaseAndSrt(base, name);
  }

  lemma BetweenBaseAndSrt(base: string, name: string)
    requires |base| + 4 <= |name| && StartsWith(name, base) && EndsWith(name, ".srt")
    ensures name == base + RawToken(base, name) + ".srt"
  {
    assert RawToken(base, name) == name[|base|..|name| - 4];
    assert name == name[..|base|] + name[|base|..|name| - 4] + name[|name| - 4..];
  }

  /** A token that is not empty neither starts nor ends with a dot. */
  lemma TokenHasNoEdgeDots(base: string, name: string)
    ensures var t := Token(base, name); t == [] || (t[0] != '.' && t[|t| - 1] != '.')
  {
  }

  /** The token is empty exactly when the raw token, once stripped of whitespace, is all dots. */
  lemma TokenEmpty(base: string, name: string)
    ensures Token(base, name) == [] <==> AllDots(Strip(RawToken(base, name), IsSpace))
  {
    StripToEmpty(Strip(RawToken(base, name), IsSpace), IsDot);
  }

  /** A name with no token between the base and `.srt` is taken to be in English. */
  lemma NoTokenMeansEnglish(base: string, s: Subtitle)
    requires SubtitleFor(s, base, base + ".srt")
    ensures s == Subtitle(Some("English"), "ENG", base + ".srt")
  {
    var name := base + ".srt";
    assert RawToken(base, name) == [];
  }

  /** A recognised token keeps its spelling as token and gets its display name. */
  lemma TokenExamples()
    ensures Token("/m/a", "/m/a.ENG.srt") == "ENG"
    ensures Token("/m/a", "/m/a.srt") == ""
    ensures Token("/m/a", "/m/a. eng ..srt") == " eng "
  {
    assert RawToken("/m/a", "/m/a.ENG.srt") == ".ENG";
    assert Strip(".ENG", IsSpace) == ".ENG";
    assert RawToken("/m/a", "/m/a. eng ..srt") == ". eng .";
    assert Strip(". eng .", IsSpace) == ". eng .";
  }
}
