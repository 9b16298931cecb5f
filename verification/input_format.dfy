/**
 * `input_format`: decides from an input path whether the tool reads a raw
 * HEVC stream from standard input, a raw HEVC file, or a Matroska file, or
 * reports why the input cannot be used.
 */
module Input {
  import opened Wrappers
  import opened Strings
  import opened Extension
  import opened PathName

  /** Where the elementary stream comes from. */
  datatype Format = RawStdin | Raw | Matroska

  /** The three error messages, verbatim. */
  const MissingInput := "Missing input."
  const NoSuchFile := "Input file doesn't exist."
  const InvalidFileType := "Invalid input file type."

  /** An absent file name is treated as the empty string. */
  function NameOf(fileName: Option<string>): (name: string)
    ensures name == "" <==> fileName == None || fileName == Some("")
    ensures fileName.Some? ==> name == fileName.value
  {
    match fileName
    case Some(n) => n
    case None => ""
  }

  /** The name selects a Matroska input when it contains `mkv` anywhere. */
  predicate NamesMatroska(name: string)
  {
    Contains(name, "mkv")
  }

  /**
   * Classifies a final file-name component (`None` when the path has none)
   * together with whether the path names an existing regular file.  The
   * branches are tried in order: `-`, accepted extension on an existing file,
   * empty name, missing file, anything else.
   */
  function InputFormat(fileName: Option<string>, isFile: bool): (r: Result<Format, string>)
    ensures r == Ok(RawStdin) <==> NameOf(fileName) == "-"
    ensures r.Ok? && r.value != RawStdin ==> isFile && MatchesExt(NameOf(fileName))
    ensures r.Err? ==> r.error in {MissingInput, NoSuchFile, InvalidFileType}
  {
    var name := NameOf(fileName);
    if name == "-" then
      Ok(RawStdin)
    else if MatchesExt(name) && isFile then
      if NamesMatroska(name) then Ok(Matroska) else Ok(Raw)
    else if name == "" then
      Err(MissingInput)
    else if !isFile then
      Err(NoSuchFile)
    else
      Err(InvalidFileType)
  }

  /** `input_format` on a whole path: the file name is taken from the path first. */
  function InputFormatOfPath(path: string, isFile: bool): (r: Result<Format, string>)
    ensures r == Err(MissingInput) <==> FileName(path).None?
  {
    ShortNamesNeverMatch("");
    InputFormat(FileName(path), isFile)
  }

  // The five cases of the decision, each stated on its own, without the
  // order in which `InputFormat` tests them.

  predicate StdinCase(name: string) { name == "-" }

  predicate AcceptedCase(name: string, isFile: bool)
  {
    name != "-" && MatchesExt(name) && isFile
  }

  predicate MissingCase(name: string) { name == "" }

  predicate AbsentCase(name: string, isFile: bool)
  {
    name != "" && name != "-" && !isFile
  }

  predicate InvalidCase(name: string, isFile: bool)
  {
    name != "" && name != "-" && isFile && !MatchesExt(name)
  }

  /** Every input falls in exactly one of the five cases. */
  lemma CasesPartition(name: string, isFile: bool)
    ensures StdinCase(name) || AcceptedCase(name, isFile) || MissingCase(name)
            || AbsentCase(name, isFile) || InvalidCase(name, isFile)
    ensures !(StdinCase(name) && AcceptedCase(name, isFile))
    ensures !(StdinCase(name) && MissingCase(name))
    ensures !(AcceptedCase(name, isFile) && MissingCase(name))
    ensures !(AcceptedCase(name, isFile) && AbsentCase(name, isFile))
    ensures !(AcceptedCase(name, isFile) && InvalidCase(name, isFile))
    ensures !(AbsentCase(name, isFile) && InvalidCase(name, isFile))
    ensures !(StdinCase(name) && AbsentCase(name, isFile))
    ensures !(StdinCase(name) && InvalidCase(name, isFile))
    ensures !(MissingCase(name) && AbsentCase(name, isFile))
    ensures !(MissingCase(name) && InvalidCase(name, isFile))
  {
    if name == "" {
      ShortNamesNeverMatch(name);
    }
  }

  /** The three error messages differ, so an error names its case. */
  lemma MessagesDistinct()
    ensures MissingInput != NoSuchFile
    ensures MissingInput != InvalidFileType
    ensures NoSuchFile != InvalidFileType
  {
    assert MissingInput[0] != NoSuchFile[0];
    assert MissingInput[0] != InvalidFileType[0];
    assert NoSuchFile[2] != InvalidFileType[2];
  }

  /** Each case has its own outcome: `InputFormat` agrees with the unordered
      description of the decision, in both directions. */
  lemma {:induction false} InputFormatMatchesCases(fileName: Option<string>, isFile: bool)
    ensures var name, r := NameOf(fileName), InputFormat(fileName, isFile);
      && (r == Ok(RawStdin) <==> StdinCase(name))
      && (r == Ok(Raw) || r == Ok(Matroska) <==> AcceptedCase(name, isFile))
      && (r == Err(MissingInput) <==> MissingCase(name))
      && (r == Err(NoSuchFile) <==> AbsentCase(name, isFile))
      && (r == Err(InvalidFileType) <==> InvalidCase(name, isFile))
  {
    var name := NameOf(fileName);
    CasesPartition(name, isFile);
    MessagesDistinct();
  }

  /** `-` means standard input, whatever the file system says. */
  lemma DashIsStdin(isFile: bool)
    ensures InputFormat(Some("-"), isFile) == Ok(RawStdin)
  {
  }

  /** Among accepted names, Matroska exactly when `mkv` occurs anywhere in the
      name, even when the matching extension is `.hevc` or `.265`. */
  lemma AcceptedSplitsOnMkv(name: string, isFile: bool)
    requires AcceptedCase(name, isFile)
    ensures InputFormat(Some(name), isFile) == Ok(Matroska) <==> Contains(name, "mkv")
    ensures InputFormat(Some(name), isFile) == Ok(Raw) <==> !Contains(name, "mkv")
  {
  }

  /** A `.mkv` extension on an existing file always selects Matroska. */
  lemma MkvExtensionIsMatroska(name: string, i: nat)
    requires OccursAt(name, i, ".mkv")
    ensures InputFormat(Some(name), true) == Ok(Matroska)
  {
    assert name[i..i + 4][0] == '.';
    assert name[i + 1..i + 4] == name[i..i + 4][1..];
    assert ExtAt(name, i);
    assert OccursAt(name, i + 1, "mkv");
  }

  /** A Raw result always rests on a `.hevc` or `.?265` match, never `.mkv`. */
  lemma RawMeansHevcMatch(name: string, isFile: bool)
    requires InputFormat(Some(name), isFile) == Ok(Raw)
    ensures exists i | 0 <= i < |name| ::
      name[i] == '.' &&
      (|| OccursAt(name, i + 1, "hevc")
       || OccursAt(name, i + 1, "265")
       || (i + 1 < |name| && name[i + 1] != '\n' && OccursAt(name, i + 2, "265")))
  {
    MatchWithoutMkv(name);
  }

  /** A matching file name stays accepted when text is added around it. */
  lemma AcceptedUnanchored(a: string, name: string, b: string, isFile: bool)
    requires AcceptedCase(name, isFile)
    ensures InputFormat(Some(a + name + b), isFile).Ok?
    ensures InputFormat(Some(a + name + b), isFile) != Ok(RawStdin)
  {
    MatchUnanchored(a, name, b);
    MatchNeedsFourChars(name);
  }

  /** No file name, or an empty one, is "Missing input." whatever `isFile` is. */
  lemma MissingNameIsMissingInput(isFile: bool)
    ensures InputFormat(None, isFile) == Err(MissingInput)
    ensures InputFormat(Some(""), isFile) == Err(MissingInput)
  {
    ShortNamesNeverMatch("");
  }

  /** A name other than `-` on a path that is not a file gets "Input file
      doesn't exist.", even when its extension matches. */
  lemma NotAFileIsNoSuchFile(name: string)
    requires name != "" && name != "-"
    ensures InputFormat(Some(name), false) == Err(NoSuchFile)
  {
  }

  /** An existing file whose name does not match the pattern has the wrong type. */
  lemma UnmatchedFileIsInvalid(name: string)
    requires name != "" && name != "-" && !MatchesExt(name)
    ensures InputFormat(Some(name), true) == Err(InvalidFileType)
  {
  }

  /** A path whose last component is `-`, in any directory, reads standard input. */
  lemma DashInAnyDirectoryIsStdin(dir: string, isFile: bool)
    ensures InputFormatOfPath("-", isFile) == Ok(RawStdin)
    ensures InputFormatOfPath(dir + "/-", isFile) == Ok(RawStdin)
  {
    assert dir + "/-" == dir + "/" + "-";
    FileNameOfChild(dir, "-");
  }

  /** The paths `""`, `/` and any path ending in `..` have no file name. */
  lemma DirectoryPathsAreMissing(dir: string, isFile: bool)
    ensures InputFormatOfPath(dir + "/..", isFile) == Err(MissingInput)
    ensures InputFormatOfPath("", isFile) == Err(MissingInput)
    ensures InputFormatOfPath("/", isFile) == Err(MissingInput)
  {
    FileNameOfParent(dir);
    assert Split("") == [""];
    assert Split("/") == [""] + Split("");
    assert Components(["", ""]) == [];
  }

  // Concrete names showing the quirks of the decision.

  /** `mkv` decides Matroska even when the matched extension is `.hevc` or `.265`. */
  lemma MkvAnywhereExamples()
    ensures InputFormat(Some("a.mkv.hevc"), true) == Ok(Matroska)
    ensures InputFormat(Some("mkvfoo.265"), true) == Ok(Matroska)
  {
    assert ExtAt("a.mkv.hevc", 1);
    assert OccursAt("a.mkv.hevc", 2, "mkv");
    assert ExtAt("mkvfoo.265", 6);
    assert OccursAt("mkvfoo.265", 0, "mkv");
  }

  /** An extension in the middle of the name is enough; `.h265` matches through `.?265`. */
  lemma InnerExtensionExample()
    ensures InputFormat(Some("clip.h265.bak"), true) == Ok(Raw)
  {
    var s := "clip.h265.bak";
    assert s[5] == 'h' && s[6..9] == "265";
    assert OccursAt(s, 6, "265");
    assert ExtAt(s, 4);
    forall i | 0 <= i <= |s|
      ensures !OccursAt(s, i, "mkv")
    {
      if i + 3 <= |s| {
        assert s[i..i + 3][0] == s[i] != 'm';
      }
    }
  }

  /** The optional character of `.?265` cannot be a line feed. */
  lemma LineFeedExample()
    ensures InputFormat(Some("a.\n265"), true) == Err(InvalidFileType)
  {
    var s := "a.\n265";
    forall i | 0 <= i < |s|
      ensures !ExtAt(s, i)
    {
      if i == 1 {
        assert s[2..5][0] == s[2..6][0] == s[2] == '\n';
      } else {
        assert s[i] != '.';
      }
    }
  }
}
