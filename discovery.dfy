/**
 * Video discovery (`GetAllMovies`): a walk of the directory tree, given as the
 * sequence of folders `os.walk` visits with the file names in each, is turned into
 * the list of paths of the files that look like movies, in walk order.
 */
module Discovery {
  import opened PyStrings
  import opened PosixPath

  /** One step of the walk: a folder and the names of the files directly inside it. */
  datatype Folder = Folder(path: string, files: seq<string>)

  /** One file met during the walk. */
  datatype Entry = Entry(folder: string, name: string)

  /** The extensions searched for, in the order the `if`/`elif` chain tries them. */
  const VideoExtensions: seq<string> := [".mkv", ".avi", ".mp4", ".m4v"]

  /**
   * The test applied to every file name: not hidden, and one of the extensions occurs
   * in it somewhere (`find` is a case-sensitive substring search, not a suffix test).
   */
  predicate IsMovieName(name: string) {
    !StartsWith(name, ".") &&
    (Find(name, ".mkv") != -1 || Find(name, ".avi") != -1 ||
     Find(name, ".mp4") != -1 || Find(name, ".m4v") != -1)
  }

  /** The path recorded for an entry: the folder joined with the file name. */
  function PathOf(e: Entry): string {
    Join(e.folder, e.name)
  }

  /** The entries of one folder, in the order of its file names. */
  function EntriesOf(f: Folder): seq<Entry> {
    seq(|f.files|, j requires 0 <= j < |f.files| => Entry(f.path, f.files[j]))
  }

  /** Every file of the walk, folder by folder. */
  function Entries(walk: seq<Folder>): seq<Entry> {
    if walk == [] then [] else Entries(walk[..|walk| - 1]) + EntriesOf(walk[|walk| - 1])
  }

  /** The paths of the entries that pass the test, in entry order. */
  function Kept(es: seq<Entry>): seq<string> {
    if es == [] then []
    else
      var last := es[|es| - 1];
      Kept(es[..|es| - 1]) + (if IsMovieName(last.name) then [PathOf(last)] else [])
  }

  /** The entries of one more folder follow those of the folders before it. */
  lemma EntriesSnoc(walk: seq<Folder>, i: nat)
    requires i < |walk|
    ensures Entries(walk[..i + 1]) == Entries(walk[..i]) + EntriesOf(walk[i])
  {
    assert walk[..i + 1][..i] == walk[..i];
  }

  /** Appending one entry appends its path when, and only when, it is kept. */
  lemma KeptSnoc(es: seq<Entry>, e: Entry)
    ensures Kept(es + [e]) == Kept(es) + (if IsMovieName(e.name) then [PathOf(e)] else [])
  {
    assert (es + [e])[..|es|] == es;
  }

  /** What `GetAllMovies` returns for a walk. */
  function Discovered(walk: seq<Folder>): seq<string> {
    Kept(Entries(walk))
  }

  /** How many entries before position `k` were kept: the slot entry `k` gets. */
  function Rank(es: seq<Entry>, k: nat): nat
    requires k <= |es|
  {
    |Kept(es[..k])|
  }

  /** `os.walk` driven loop of `GetAllMovies`, with the `if`/`elif` chain of the source. */
  method GetAllMovies(walk: seq<Folder>) returns (filePaths: seq<string>)
    ensures filePaths == Discovered(walk)
  {
    filePaths := [];
    for i := 0 to |walk|
      invariant filePaths == Discovered(walk[..i])
    {
      var folder, files := walk[i].path, walk[i].files;
      ghost var es := EntriesOf(walk[i]);
      ghost var base := filePaths;
      assert es[..0] == [];
      for j := 0 to |files|
        invariant filePaths == base + Kept(es[..j])
      {
        var filename := files[j];
        KeptPrefixStep(es, j);
        assert es[j] == Entry(folder, filename);
        ghost var before := filePaths;
        ghost var added := if IsMovieName(filename) then [Join(folder, filename)] else [];
        if !StartsWith(filename, ".") {
          if Find(filename, ".mkv") != -1 {
            filePaths := filePaths + [Join(folder, filename)];
          } else if Find(filename, ".avi") != -1 {
            filePaths := filePaths + [Join(folder, filename)];
          } else if Find(filename, ".mp4") != -1 {
            filePaths := filePaths + [Join(folder, filename)];
          } else if Find(filename, ".m4v") != -1 {
            filePaths := filePaths + [Join(folder, filename)];
          }
        }
        assert filePaths == before + added;
        assert before + added == base + (Kept(es[..j]) + added);
      }
      assert es[..|files|] == es;
      DiscoveredStep(walk, i);
    }
    assert walk[..|walk|] == walk;
  }

  /** Keeping distributes over concatenation. */
  lemma {:induction false} KeptAppend(a: seq<Entry>, b: seq<Entry>)
    ensures Kept(a + b) == Kept(a) + Kept(b)
    decreases |b|
  {
    if b == [] {
      assert a + b == a;
    } else {
      var init := b[..|b| - 1];
      assert (a + b)[..|a + b| - 1] == a + init;
      KeptAppend(a, init);
    }
  }

  /** Keeping one more entry of a sequence appends its path when, and only when, it passes. */
  lemma KeptPrefixStep(es: seq<Entry>, j: nat)
    requires j < |es|
    ensures Kept(es[..j + 1]) == Kept(es[..j]) + (if IsMovieName(es[j].name) then [PathOf(es[j])] else [])
  {
    assert es[..j + 1] == es[..j] + [es[j]];
    KeptSnoc(es[..j], es[j]);
  }

  /** The movies of one more folder follow those discovered before it. */
  lemma DiscoveredStep(walk: seq<Folder>, i: nat)
    requires i < |walk|
    ensures Discovered(walk[..i + 1]) == Discovered(walk[..i]) + Kept(EntriesOf(walk[i]))
  {
    EntriesSnoc(walk, i);
    KeptAppend(Entries(walk[..i]), EntriesOf(walk[i]));
  }

  /**
   * A name is kept exactly when it does not start with a dot and contains one of the
   * four extensions as a substring anywhere.
   */
  lemma IsMovieNameIff(name: string)
    ensures IsMovieName(name) <==>
      (name == [] || name[0] != '.') &&
      exists e :: e in VideoExtensions && Contains(name, e)
  {
    HasExtensionIff(name);
    if name != [] {
      assert StartsWith(name, ".") <==> name[..1] == [name[0]] == ".";
    }
  }

  /** The four `find` tests together say that one of the extensions occurs in the name. */
  lemma HasExtensionIff(name: string)
    ensures (Find(name, ".mkv") != -1 || Find(name, ".avi") != -1 ||
             Find(name, ".mp4") != -1 || Find(name, ".m4v") != -1) <==>
      exists e :: e in VideoExtensions && Contains(name, e)
  {
    FindFindsContained(name, ".mkv");
    FindFindsContained(name, ".avi");
    FindFindsContained(name, ".mp4");
    FindFindsContained(name, ".m4v");
    ListedExtensions(name);
  }

  lemma ListedExtensions(name: string)
    ensures (exists e :: e in VideoExtensions && Contains(name, e)) <==>
      Contains(name, ".mkv") || Contains(name, ".avi") || Contains(name, ".mp4") || Contains(name, ".m4v")
  {
    if exists e :: e in VideoExtensions && Contains(name, e) {
      var e :| e in VideoExtensions && Contains(name, e);
      assert e == ".mkv" || e == ".avi" || e == ".mp4" || e == ".m4v";
    }
    assert VideoExtensions[0] == ".mkv" && VideoExtensions[1] == ".avi";
    assert VideoExtensions[2] == ".mp4" && VideoExtensions[3] == ".m4v";
  }

  /** The substring test in action: an extension in the middle of the name counts. */
  lemma ExtensionAnywhereCounts()
    ensures IsMovieName("x.avifoo")
    ensures IsMovieName("notavi.txt.avifoo")
  {
    assert "x.avifoo"[..1][0] == 'x';
    assert OccursAt("x.avifoo", ".avi", 1);
    assert "notavi.txt.avifoo"[..1][0] == 'n';
    assert OccursAt("notavi.txt.avifoo", ".avi", 10);
  }

  /** A hidden file is never kept, whatever extension it carries. */
  lemma HiddenNeverCounts(name: string)
    requires StartsWith(name, ".")
    ensures !IsMovieName(name)
  {
  }

  /** The test is case-sensitive: a name without small letters, such as `MOVIE.AVI`, is never kept. */
  lemma UpperCaseDoesNotCount(name: string)
    requires forall k :: 0 <= k < |name| ==> !('a' <= name[k] <= 'z')
    ensures !IsMovieName(name)
  {
    NotContained(name, ".mkv", 'm');
    NotContained(name, ".avi", 'a');
    NotContained(name, ".mp4", 'm');
    NotContained(name, ".m4v", 'm');
  }

  /** A subtitle file whose only dot starts `.srt`, such as `movie.srt`, is not a movie. */
  lemma SubtitleDoesNotCount(name: string)
    requires EndsWith(name, ".srt") && forall k :: 0 <= k < |name| - 4 ==> name[k] != '.'
    ensures !IsMovieName(name)
  {
    NotAfterOnlyDot(name, ".mkv");
    NotAfterOnlyDot(name, ".avi");
    NotAfterOnlyDot(name, ".mp4");
    NotAfterOnlyDot(name, ".m4v");
  }

  /** An extension whose second character is not `s` does not occur in such a name. */
  lemma NotAfterOnlyDot(name: string, ext: string)
    requires EndsWith(name, ".srt") && forall k :: 0 <= k < |name| - 4 ==> name[k] != '.'
    requires |ext| == 4 && ext[0] == '.' && ext[1] != 's'
    ensures Find(name, ext) == -1
  {
    forall i | 0 <= i
      ensures !OccursAt(name, ext, i)
    {
      if i + 4 <= |name| && name[i] == '.' {
        assert name[|name| - 4..][1] == 's';
        assert name[i..i + 4][1] == name[i + 1];
      }
    }
    FindFindsContained(name, ext);
  }

  /** A pattern holding a character that the string lacks is not found in it. */
  lemma NotContained(s: string, t: string, c: char)
    requires c in t && c !in s
    ensures Find(s, t) == -1
  {
  }


  /** Keeping extends to the right: a kept entry gets one more slot than the entries before it. */
  lemma {:induction false} RankGrows(es: seq<Entry>, a: nat, b: nat)
    requires a <= b <= |es|
    ensures Rank(es, a) <= Rank(es, b)
    ensures a < b && IsMovieName(es[a].name) ==> Rank(es, a) < Rank(es, b)
    decreases b
  {
    if a < b {
      RankGrows(es, a, b - 1);
      assert es[..b][..b - 1] == es[..b - 1];
      if a == b - 1 {
        assert es[..b][b - 1] == es[a];
      }
    }
  }

  /** A kept entry's path sits in the result at the entry's slot. */
  lemma {:induction false} KeptAt(es: seq<Entry>, k: nat)
    requires k < |es| && IsMovieName(es[k].name)
    ensures Rank(es, k) < |Kept(es)| && Kept(es)[Rank(es, k)] == PathOf(es[k])
    decreases |es|
  {
    var init := es[..|es| - 1];
    if k == |es| - 1 {
      assert init == es[..k];
    } else {
      KeptAt(init, k);
      assert init[..k] == es[..k];
    }
  }

  /** Every path of the result is the path of the kept entry whose slot it occupies. */
  lemma {:induction false} KeptFrom(es: seq<Entry>, j: nat)
    requires j < |Kept(es)|
    ensures exists k :: 0 <= k < |es| && IsMovieName(es[k].name) && Rank(es, k) == j && Kept(es)[j] == PathOf(es[k])
    decreases |es|
  {
    var init := es[..|es| - 1];
    var last := es[|es| - 1];
    var tail := if IsMovieName(last.name) then [PathOf(last)] else [];
    assert Kept(es) == Kept(init) + tail;
    if j < |Kept(init)| {
      KeptFrom(init, j);
      var k :| 0 <= k < |init| && IsMovieName(init[k].name) && Rank(init, k) == j && Kept(init)[j] == PathOf(init[k]);
      RankInInit(es, k);
      assert Kept(es)[j] == Kept(init)[j] && es[k] == init[k];
    } else {
      var k := |es| - 1;
      assert Rank(es, k) == |Kept(init)| by { assert init == es[..k]; }
      assert j == |Kept(init)| && tail == [PathOf(es[k])];
    }
  }

  lemma RankInInit(es: seq<Entry>, k: nat)
    requires k < |es| - 1
    ensures Rank(es, k) == Rank(es[..|es| - 1], k)
  {
    assert es[..|es| - 1][..k] == es[..k];
  }

  /** The positions of the entries whose names pass the test. */
  function KeptIndices(es: seq<Entry>): set<int> {
    set k | 0 <= k < |es| && IsMovieName(es[k].name)
  }

  /** The result holds one path per entry that passes the test, no more and no fewer. */
  lemma {:induction false} KeptLength(es: seq<Entry>)
    ensures |Kept(es)| == |KeptIndices(es)|
  {
    if es == [] {
      assert KeptIndices(es) == {};
    } else {
      var init, n := es[..|es| - 1], |es| - 1;
      KeptLength(init);
      KeptIndicesSnoc(es);
      assert n !in KeptIndices(init);
    }
  }

  lemma KeptIndicesSnoc(es: seq<Entry>)
    requires es != []
    ensures var n := |es| - 1;
      KeptIndices(es) == KeptIndices(es[..n]) + if IsMovieName(es[n].name) then {n} else {}
  {
    var init, n := es[..|es| - 1], |es| - 1;
    var before, now := KeptIndices(init), KeptIndices(es);
    assert forall k :: k in now && k != n <==> k in before by {
      forall k | 0 <= k < n ensures es[k] == init[k] { }
    }
    if IsMovieName(es[n].name) {
      assert now == before + {n};
    } else {
      assert now == before;
    }
  }

  /** A path is kept exactly when some kept entry has that path. */
  lemma KeptMembership(es: seq<Entry>, p: string)
    ensures p in Kept(es) <==> exists k :: 0 <= k < |es| && IsMovieName(es[k].name) && PathOf(es[k]) == p
  {
    if p in Kept(es) {
      var j :| 0 <= j < |Kept(es)| && Kept(es)[j] == p;
      KeptFrom(es, j);
    }
    if exists k :: 0 <= k < |es| && IsMovieName(es[k].name) && PathOf(es[k]) == p {
      var k :| 0 <= k < |es| && IsMovieName(es[k].name) && PathOf(es[k]) == p;
      KeptAt(es, k);
    }
  }

  /** A path is discovered exactly when some file of the walk passes the test and has that path. */
  lemma DiscoveredMembership(walk: seq<Folder>, p: string)
    ensures p in Discovered(walk) <==>
      exists k :: 0 <= k < |Entries(walk)| && IsMovieName(Entries(walk)[k].name) && PathOf(Entries(walk)[k]) == p
  {
    var es := Entries(walk);
    KeptMembership(es, p);
    assert Discovered(walk) == Kept(es);
  }

  /** File `j` of folder `i` is the entry right after the files of the folders before it. */
  lemma {:induction false} EntryOfFile(walk: seq<Folder>, i: nat, j: nat)
    requires i < |walk| && j < |walk[i].files|
    ensures |Entries(walk[..i])| + j < |Entries(walk)|
    ensures Entries(walk)[|Entries(walk[..i])| + j] == Entry(walk[i].path, walk[i].files[j])
    decreases |walk|
  {
    var init := walk[..|walk| - 1];
    if i == |walk| - 1 {
      assert init == walk[..i];
    } else {
      EntryOfFile(init, i, j);
      assert init[..i] == walk[..i];
    }
  }
}
