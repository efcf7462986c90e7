/**
 * Construction of the `mkvmerge` argument list (`create_command`): the tool, the
 * output and the input, then one group of seven arguments per subtitle, every group
 * tagged with track `0`.
 */
module Mux {
  import opened Wrappers
  import opened PyStrings
  import opened Languages
  import opened Subtitles

  /** `'%s' % v`: a missing value is rendered as the text `None`. */
  function Render(v: Option<string>): string {
    match v
    case None => "None"
    case Some(x) => x
  }

  /** The seven arguments appended for one subtitle. */
  function Group(s: Subtitle): seq<string> {
    ["--language", "0:" + Render(s.language),
     "--sub-charset", "0:" + Render(LanguageCoding(s.token)),
     "--track-name", "0:" + s.token,
     s.file]
  }

  /** `cmd` is the fixed four-argument prefix followed by the group of each subtitle, in order. */
  predicate IsMuxCommand(cmd: seq<string>, input: string, output: string, subs: seq<Subtitle>) {
    |cmd| == 4 + 7 * |subs| &&
    cmd[..4] == ["mkvmerge", "-o", output, input] &&
    forall i :: 0 <= i < |subs| ==> cmd[4 + 7 * i..4 + 7 * i + 7] == Group(subs[i])
  }

  /** `create_command(input_filename, output_filename, subtitles, type)`; `type` is unused. */
  method CreateCommand(inputFilename: string, outputFilename: string, subtitles: seq<Subtitle>)
    returns (command: seq<string>)
    ensures IsMuxCommand(command, inputFilename, outputFilename, subtitles)
  {
    command := ["mkvmerge"];
    command := command + ["-o"];
    command := command + [outputFilename];
    command := command + [inputFilename];
    for i := 0 to |subtitles|
      invariant IsMuxCommand(command, inputFilename, outputFilename, subtitles[..i])
    {
      var subtitle := subtitles[i];
      ghost var before := command;
      command := command + ["--language"];
      command := command + ["0:" + Render(subtitle.language)];
      command := command + ["--sub-charset"];
      command := command + ["0:" + Render(LanguageCoding(subtitle.token))];
      command := command + ["--track-name"];
      command := command + ["0:" + subtitle.token];
      command := command + [subtitle.file];
      assert command == before + Group(subtitle);
      assert subtitles[..i + 1] == subtitles[..i] + [subtitle];
      AppendGroup(before, inputFilename, outputFilename, subtitles[..i], subtitle);
    }
    assert subtitles[..|subtitles|] == subtitles;
  }

  /** Appending a subtitle's group to a command for some subtitles gives the command for one more. */
  lemma AppendGroup(cmd: seq<string>, input: string, output: string, subs: seq<Subtitle>, s: Subtitle)
    requires IsMuxCommand(cmd, input, output, subs)
    ensures IsMuxCommand(cmd + Group(s), input, output, subs + [s])
  {
    var next, more := cmd + Group(s), subs + [s];
    assert next[..4] == cmd[..4];
    forall i | 0 <= i < |more| ensures next[4 + 7 * i..4 + 7 * i + 7] == Group(more[i]) {
      if i < |subs| {
        assert more[i] == subs[i];
        assert cmd[4 + 7 * i..4 + 7 * i + 7] == Group(subs[i]);
        assert next[4 + 7 * i..4 + 7 * i + 7] == cmd[4 + 7 * i..4 + 7 * i + 7];
      } else {
        assert next[4 + 7 * i..4 + 7 * i + 7] == next[|cmd|..];
      }
    }
  }

  /** The layout determines the command: two commands with it for the same inputs are equal. */
  lemma MuxCommandIsUnique(c1: seq<string>, c2: seq<string>, input: string, output: string, subs: seq<Subtitle>)
    requires IsMuxCommand(c1, input, output, subs) && IsMuxCommand(c2, input, output, subs)
    ensures c1 == c2
  {
    forall k | 0 <= k < |c1| ensures c1[k] == c2[k] {
      if k < 4 {
        assert c1[k] == c1[..4][k] && c2[k] == c2[..4][k];
      } else {
        var i, r := (k - 4) / 7, (k - 4) % 7;
        assert 4 + 7 * i + r == k && 0 <= i < |subs|;
        assert c1[4 + 7 * i..4 + 7 * i + 7] == Group(subs[i]) == c2[4 + 7 * i..4 + 7 * i + 7];
        assert c1[k] == c1[4 + 7 * i..4 + 7 * i + 7][r];
        assert c2[k] == c2[4 + 7 * i..4 + 7 * i + 7][r];
      }
    }
  }

  /**
   * Every group carries its options in the same order, every option value targets
   * track `0`, and the group ends with the subtitle's file.
   */
  lemma EveryGroupTargetsTrackZero(cmd: seq<string>, input: string, output: string, subs: seq<Subtitle>, i: nat)
    requires IsMuxCommand(cmd, input, output, subs) && i < |subs|
    ensures cmd[4 + 7 * i] == "--language" && StartsWith(cmd[4 + 7 * i + 1], "0:")
    ensures cmd[4 + 7 * i + 2] == "--sub-charset" && StartsWith(cmd[4 + 7 * i + 3], "0:")
    ensures cmd[4 + 7 * i + 4] == "--track-name" && cmd[4 + 7 * i + 5] == "0:" + subs[i].token
    ensures cmd[4 + 7 * i + 6] == subs[i].file
  {
    var b, g := 4 + 7 * i, Group(subs[i]);
    var block := cmd[b..b + 7];
    assert block == g;
    assert cmd[b] == block[0] && cmd[b + 1] == block[1] && cmd[b + 2] == block[2];
    assert cmd[b + 3] == block[3] && cmd[b + 4] == block[4] && cmd[b + 5] == block[5];
    assert cmd[b + 6] == block[6];
    TrackZero(Render(subs[i].language));
    TrackZero(Render(LanguageCoding(subs[i].token)));
  }

  lemma TrackZero(v: string)
    ensures StartsWith("0:" + v, "0:")
  {
    assert ("0:" + v)[..2] == "0:";
  }

  /** An unknown language or character set reaches the command as `0:None`. */
  lemma UnresolvedBecomesNone(s: Subtitle)
    ensures s.language == None ==> Group(s)[1] == "0:None"
    ensures LanguageCoding(s.token) == None ==> Group(s)[3] == "0:None"
  {
  }

  /** Without subtitles the command is the prefix alone. */
  lemma CommandWithoutSubtitles(cmd: seq<string>, input: string, output: string)
    requires IsMuxCommand(cmd, input, output, [])
    ensures cmd == ["mkvmerge", "-o", output, input]
  {
    assert cmd == cmd[..4];
  }

  /** One English subtitle: the command the end-to-end example expects. */
  lemma CommandForOneEnglishSubtitle(cmd: seq<string>)
    requires IsMuxCommand(cmd, "/m/a.avi", "/m/converted/a_.mkv", [Subtitle(Some("English"), "ENG", "/m/a.ENG.srt")])
    ensures cmd == ["mkvmerge", "-o", "/m/converted/a_.mkv", "/m/a.avi",
                    "--language", "0:English", "--sub-charset", "0:UTF-8", "--track-name", "0:ENG",
                    "/m/a.ENG.srt"]
  {
    LanguageCodingValues("ENG");
    assert Lower("ENG") == "eng";
    var expected := ["mkvmerge", "-o", "/m/converted/a_.mkv", "/m/a.avi",
                     "--language", "0:English", "--sub-charset", "0:UTF-8", "--track-name", "0:ENG",
                     "/m/a.ENG.srt"];
    var subs := [Subtitle(Some("English"), "ENG", "/m/a.ENG.srt")];
    assert cmd[4 + 7 * 0..4 + 7 * 0 + 7] == Group(subs[0]);
    assert LanguageCoding("ENG") == Some("UTF-8");
    assert "0:" + "English" == "0:English" && "0:" + "UTF-8" == "0:UTF-8" && "0:" + "ENG" == "0:ENG";
    assert Group(subs[0]) == expected[4..];
    assert cmd == cmd[..4] + cmd[4..11];
  }
}
