/**
 * Conversion of one video (`convert_video`) and the batch driver (`analyze_path`).
 * The mux process is replaced by its exit code, and the directories the source
 * creates or removes are recorded in the outcome instead of being touched.
 */
module Convert {
  import opened Wrappers
  import opened PyStrings
  import opened PosixPath
  import opened Discovery
  import opened Subtitles
  import opened Mux

  /** The status line printed for a video. */
  datatype Tag = Done | Errr | Skip

  /** Everything one call of `convert_video` decides. */
  datatype Outcome = Outcome(
    output: string,            // the file mkvmerge is told to write
    subtitles: seq<Subtitle>,  // what find_subtitles returned
    command: seq<string>,      // the one command run
    tag: Tag,                  // [DONE], [ERRR] or [SKIP]
    ensured: seq<string>,      // directories created when missing, in order
    removed: Option<string>,   // directory removed recursively, if any
    result: bool)              // the value returned

  /** `os.path.dirname(path) + "/"` */
  function MainDir(path: string): string {
    DirName(path) + "/"
  }

  /** `converted_dir + file_name + '_.mkv'` */
  function OutputName(path: string): string {
    MainDir(path) + "converted/" + BaseName(SplitExt(path).0) + "_.mkv"
  }

  /** `convert_video(path)`, for the directory entries `listing` and the exit code of mkvmerge. */
  method ConvertVideo(path: string, listing: seq<string>, exitCode: int) returns (o: Outcome)
    ensures o.output == OutputName(path)
    ensures SubtitlesFound(o.subtitles, SplitExt(path).0, listing)
    ensures IsMuxCommand(o.command, path, o.output, o.subtitles)
    ensures o.tag == if o.subtitles == [] then Skip else if exitCode == 0 then Done else Errr
    ensures o.ensured == [MainDir(path) + "converted/"] +
      match o.tag
      case Done => []
      case Errr => [MainDir(path) + "wrong_formatting/"]
      case Skip => [MainDir(path) + "no_subtitles/"]
    ensures o.removed == if o.tag == Done then Some(DirName(path)) else None
    ensures o.result == (exitCode == 0)
  {
    var mainDir := DirName(path) + "/";
    var convertedDir := mainDir + "converted/";
    var withoutSubDir := mainDir + "no_subtitles/";
    var errorDir := mainDir + "wrong_formatting/";
    var ensured := [convertedDir];

    var pathWithoutExt := SplitExt(path).0;
    var fileName := BaseName(pathWithoutExt);
    var outputFilename := convertedDir + fileName + "_.mkv";
    var subs := FindSubtitles(pathWithoutExt, listing);

    var command, tag, removed, c;
    if |subs| != 0 {
      command := CreateCommand(path, outputFilename, subs);
      c := exitCode;
      if c == 0 {
        tag := Done;
        removed := None;
        DirNameOfRoot(path);
        if !(DirName(pathWithoutExt) == mainDir) {
          removed := Some(DirName(pathWithoutExt));
        }
      } else {
        tag := Errr;
        removed := None;
        ensured := ensured + [errorDir];
      }
    } else {
      command := CreateCommand(path, outputFilename, subs);
      c := exitCode;
      tag := Skip;
      removed := None;
      ensured := ensured + [withoutSubDir];
    }
    o := Outcome(outputFilename, subs, command, tag, ensured, removed, c == 0);
  }

  /**
   * The guard before `rmtree` never fails: the directory of the path without its
   * extension is the directory of the path, which lacks the slash `main_dir` ends with.
   */
  lemma RemovalGuardAlwaysHolds(path: string)
    ensures DirName(SplitExt(path).0) != MainDir(path)
  {
    DirNameOfRoot(path);
  }

  /** The output lies in `converted/` beside the video and is named `<file name without extension>_.mkv`. */
  lemma OutputNameParts(path: string)
    ensures StartsWith(OutputName(path), DirName(path) + "/converted/")
    ensures BaseName(OutputName(path)) == BaseName(SplitExt(path).0) + "_.mkv"
  {
    ConvertedName(DirName(path), BaseName(SplitExt(path).0));
  }

  lemma ConvertedName(dir: string, stem: string)
    requires '/' !in stem
    ensures StartsWith(dir + "/" + "converted/" + stem + "_.mkv", dir + "/converted/")
    ensures BaseName(dir + "/" + "converted/" + stem + "_.mkv") == stem + "_.mkv"
  {
    var d := dir + "/converted/";
    assert dir + "/" + "converted/" + stem + "_.mkv" == d + (stem + "_.mkv");
    assert d[|d| - 1] == '/';
    BaseNameAfterSlash(d, stem + "_.mkv");
  }

  /**
   * A successful conversion deletes its own output: the directory `rmtree` removes is
   * the video's directory, and the output lies in its `converted/` subdirectory.
   */
  lemma OutputInsideRemoved(path: string)
    requires DirName(path) != []
    ensures Inside(OutputName(path), DirName(path))
  {
    InsideAfterSlash(DirName(path), "converted/" + BaseName(SplitExt(path).0) + "_.mkv");
  }

  lemma InsideAfterSlash(d: string, rest: string)
    requires d != []
    ensures Inside(d + "/" + rest, d)
  {
    var p := d + "/" + rest;
    assert p[..|d|] == d && p[|d|] == '/';
  }

  /** The end-to-end example: `/m/a.avi` is converted to `/m/converted/a_.mkv`. */
  lemma OutputNameExample()
    ensures OutputName("/m/a.avi") == "/m/converted/a_.mkv"
  {
    SplitExtExample();
    BaseNameExample();
    DirNameExample();
  }

  lemma SplitExtExample()
    ensures SplitExt("/m/a.avi") == ("/m/a", ".avi")
  {
    var p := "/m/a.avi";
    RFindIs(p, '/', 2);
    RFindIs(p, '.', 4);
    assert p[3] != '.';
    assert HasNonDot(p, 3, 4);
    assert p[..4] == "/m/a" && p[4..] == ".avi";
  }

  lemma BaseNameExample()
    ensures BaseName("/m/a") == "a"
  {
    RFindIs("/m/a", '/', 2);
  }

  lemma DirNameExample()
    ensures DirName("/m/a.avi") == "/m"
  {
    var p := "/m/a.avi";
    RFindIs(p, '/', 2);
    assert p[..3] == "/m/";
    assert "/m/"[1] != '/';
    assert StripRight("/m/", IsSlash) == "/m";
  }

  /** `p` lies below the directory `d` (which may itself end in `/`, as `/` does). */
  predicate Inside(p: string, d: string) {
    d != [] && StartsWith(p, d) && |d| < |p| && (d[|d| - 1] == '/' || p[|d|] == '/')
  }

  /** `p` lies inside one of the directories `gone`, so `os.path.isfile(p)` no longer holds. */
  predicate InsideAny(p: string, gone: seq<string>) {
    exists d :: d in gone && Inside(p, d)
  }

  /** What `analyze_path` learns from converting `p`: its output name, subtitles and result. */
  predicate Reports(o: Outcome, p: string, listingOf: string -> seq<string>, exitOf: string -> int) {
    o.output == OutputName(p) &&
    SubtitlesFound(o.subtitles, SplitExt(p).0, listingOf(p)) &&
    o.result == (exitOf(p) == 0)
  }

  /** Converting `p` removes its directory: it has subtitles and mkvmerge succeeds. */
  predicate RemovesDirectory(p: string, listingOf: string -> seq<string>, exitOf: string -> int) {
    GlobSrt(SplitExt(p).0, listingOf(p)) != [] && exitOf(p) == 0
  }

  /**
   * The videos `analyze_path` hands to `convert_video`, in order: those that are files
   * in the initial tree and do not lie in a directory removed by an earlier conversion.
   */
  ghost function Converted(movies: seq<string>, isFile: string -> bool, removes: string -> bool,
                           gone: seq<string>): seq<string>
  {
    if movies == [] then []
    else
      var p := movies[0];
      if isFile(p) && !InsideAny(p, gone) then
        [p] + Converted(movies[1..], isFile, removes, gone + if removes(p) then [DirName(p)] else [])
      else Converted(movies[1..], isFile, removes, gone)
  }

  /** One step of the schedule: the next video is converted, and a removal recorded, or it is passed over. */
  lemma ConvertedStep(movies: seq<string>, i: nat, isFile: string -> bool, removes: string -> bool,
                      gone: seq<string>, converted: seq<string>, total: seq<string>)
    requires i < |movies| && total == converted + Converted(movies[i..], isFile, removes, gone)
    ensures var p := movies[i];
      total ==
      if isFile(p) && !InsideAny(p, gone) then
        (converted + [p]) + Converted(movies[i + 1..], isFile, removes, gone + if removes(p) then [DirName(p)] else [])
      else converted + Converted(movies[i + 1..], isFile, removes, gone)
  {
    assert movies[i..][0] == movies[i];
    assert movies[i..][1..] == movies[i + 1..];
  }

  /** `a` is `b` with some elements left out, the rest in their order. */
  predicate IsSubsequence(a: seq<string>, b: seq<string>)
    decreases |b|
  {
    if a == [] then true
    else if b == [] then false
    else (a[0] == b[0] && IsSubsequence(a[1..], b[1..])) || IsSubsequence(a, b[1..])
  }

  /** The videos converted are some of the discovered ones, in discovery order. */
  lemma {:induction false} ConvertedInOrder(movies: seq<string>, isFile: string -> bool, removes: string -> bool,
                                            gone: seq<string>)
    ensures IsSubsequence(Converted(movies, isFile, removes, gone), movies)
    decreases |movies|
  {
    if movies != [] {
      var p := movies[0];
      if isFile(p) && !InsideAny(p, gone) {
        var rest := Converted(movies[1..], isFile, removes, gone + if removes(p) then [DirName(p)] else []);
        ConvertedInOrder(movies[1..], isFile, removes, gone + if removes(p) then [DirName(p)] else []);
        assert ([p] + rest)[1..] == rest;
      } else {
        ConvertedInOrder(movies[1..], isFile, removes, gone);
      }
    }
  }

  /** The directories removed by converting `converted`, one per video that removes its directory. */
  ghost function RemovedDirs(converted: seq<string>, removes: string -> bool): seq<string> {
    if converted == [] then []
    else (if removes(converted[0]) then [DirName(converted[0])] else []) + RemovedDirs(converted[1..], removes)
  }

  /**
   * Converting the videos `a` and then `b` converts those of `a` that qualify, then
   * those of `b` that qualify once the directories removed during `a` are gone.
   */
  lemma {:induction false} ConvertedAppend(a: seq<string>, b: seq<string>, isFile: string -> bool,
                                           removes: string -> bool, gone: seq<string>)
    ensures var first := Converted(a, isFile, removes, gone);
      Converted(a + b, isFile, removes, gone) ==
      first + Converted(b, isFile, removes, gone + RemovedDirs(first, removes))
    decreases |a|
  {
    if a == [] {
      assert a + b == b && gone + [] == gone;
    } else {
      var p := a[0];
      assert (a + b)[0] == p && (a + b)[1..] == a[1..] + b;
      if isFile(p) && !InsideAny(p, gone) {
        var gone' := gone + if removes(p) then [DirName(p)] else [];
        ConvertedAppend(a[1..], b, isFile, removes, gone');
        var rest := Converted(a[1..], isFile, removes, gone');
        assert ([p] + rest)[0] == p && ([p] + rest)[1..] == rest;
        assert gone + RemovedDirs([p] + rest, removes) == gone' + RemovedDirs(rest, removes);
      } else {
        ConvertedAppend(a[1..], b, isFile, removes, gone);
      }
    }
  }

  /**
   * The `i`-th discovered video is converted exactly when it is a file and lies in no
   * directory removed by converting one of the videos before it.
   */
  lemma ConvertedDecision(movies: seq<string>, i: nat, isFile: string -> bool, removes: string -> bool)
    requires i < |movies|
    ensures var before, p := Converted(movies[..i], isFile, removes, []), movies[i];
      Converted(movies[..i + 1], isFile, removes, []) ==
      before + (if isFile(p) && !InsideAny(p, RemovedDirs(before, removes)) then [p] else [])
  {
    var p := movies[i];
    ConvertedAppend(movies[..i], [p], isFile, removes, []);
    assert movies[..i] + [p] == movies[..i + 1];
    var before := Converted(movies[..i], isFile, removes, []);
    ConvertedSingle(p, isFile, removes, [] + RemovedDirs(before, removes));
    assert [] + RemovedDirs(before, removes) == RemovedDirs(before, removes);
  }

  lemma ConvertedSingle(p: string, isFile: string -> bool, removes: string -> bool, gone: seq<string>)
    ensures Converted([p], isFile, removes, gone) == if isFile(p) && !InsideAny(p, gone) then [p] else []
  {
    assert [p][1..] == [];
  }

  /** Videos appended to a batch never change what is converted among the earlier ones. */
  lemma ConvertedPrefix(a: seq<string>, b: seq<string>, isFile: string -> bool, removes: string -> bool)
    ensures Converted(a, isFile, removes, []) <= Converted(a + b, isFile, removes, [])
  {
    ConvertedAppend(a, b, isFile, removes, []);
  }

  /** The files among `movies`, in order. */
  ghost function FilesOf(movies: seq<string>, isFile: string -> bool): seq<string> {
    if movies == [] then []
    else (if isFile(movies[0]) then [movies[0]] else []) + FilesOf(movies[1..], isFile)
  }

  /** When no conversion removes a directory, every discovered file is converted. */
  lemma {:induction false} NoRemovalConvertsEveryFile(movies: seq<string>, isFile: string -> bool,
                                                      removes: string -> bool)
    requires forall p :: !removes(p)
    ensures Converted(movies, isFile, removes, []) == FilesOf(movies, isFile)
    decreases |movies|
  {
    if movies != [] {
      NoRemovalConvertsEveryFile(movies[1..], isFile, removes);
      assert !InsideAny(movies[0], []);
      var none: seq<string> := [];
      assert none + [] == none;
    }
  }

  /**
   * `analyze_path(path)`: `walk` is what `os.walk` yields, `isFile` says which paths are
   * files before the batch starts, and `listingOf` and `exitOf` give, per video, the
   * entries `glob` reads and the exit code of its mkvmerge run.
   */
  method AnalyzePath(walk: seq<Folder>, isFile: string -> bool,
                     listingOf: string -> seq<string>, exitOf: string -> int)
    returns (converted: seq<string>, outcomes: seq<Outcome>)
    ensures converted == Converted(Discovered(walk), isFile, p => RemovesDirectory(p, listingOf, exitOf), [])
    ensures |outcomes| == |converted|
    ensures forall i :: 0 <= i < |outcomes| ==> Reports(outcomes[i], converted[i], listingOf, exitOf)
  {
    var movies := GetAllMovies(walk);
    ghost var removes := p => RemovesDirectory(p, listingOf, exitOf);
    ghost var total := Converted(movies, isFile, removes, []);
    converted, outcomes := [], [];
    var gone: seq<string> := [];
    assert movies[0..] == movies;
    for i := 0 to |movies|
      invariant total == converted + Converted(movies[i..], isFile, removes, gone)
      invariant |outcomes| == |converted|
      invariant forall k :: 0 <= k < |outcomes| ==> Reports(outcomes[k], converted[k], listingOf, exitOf)
    {
      var absolutePath := movies[i];
      ConvertedStep(movies, i, isFile, removes, gone, converted, total);
      if isFile(absolutePath) && !InsideAny(absolutePath, gone) {
        var o := ConvertVideo(absolutePath, listingOf(absolutePath), exitOf(absolutePath));
        ghost var next := gone + if removes(absolutePath) then [DirName(absolutePath)] else [];
        assert o.removed.Some? <==> removes(absolutePath);
        assert Reports(o, absolutePath, listingOf, exitOf);
        converted, outcomes := converted + [absolutePath], outcomes + [o];
        if o.removed.Some? {
          gone := gone + [o.removed.value];
        }
        assert gone == next;
      }
    }
    assert movies[|movies|..] == [];
  }
}
