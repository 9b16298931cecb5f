# dovi_tool input classification, in Dafny

`dovi_tool` reads Dolby Vision metadata out of HEVC streams. Before any
stream is opened, `input_format` (src/main.rs) decides where the stream comes
from, by looking only at the input path:

- a file name of `-` means a raw HEVC stream on standard input (`RawStdin`);
- a file name matching the regular expression `\.(hevc|.?265|mkv)` on a path
  that is an existing file is read as a file: as Matroska (`Matroska`) when
  the name contains `mkv` anywhere, otherwise as a raw HEVC file (`Raw`);
- otherwise it fails with one of three messages, tried in this order:
  `Missing input.` for an empty name, `Input file doesn't exist.` for a path
  that is not a file, and `Invalid input file type.` for the rest.

The model is a pure function. The file-system query `is_file()` is a boolean
parameter. The file name is an `Option<string>`, as `Path::file_name` returns
it.

Modules, one per concern:

- `Wrappers` (wrappers.dfy): `Option` and `Result`.
- `Strings` (strings.dfy): substring occurrence, i.e. `str::contains`.
- `Regex` (regex.dfy): a small regular-expression syntax with a declarative
  span semantics. Rust's `.` is any character except a line feed. It is just
  enough to write the pattern on line 64 literally.
- `Extension` (extension.dfy): the hand-coded predicate `MatchesExt`, and a
  proof that it accepts exactly what the literal pattern matches anywhere in
  the name. Also a left-to-right search for the first match.
- `PathName` (path.dfy): `Path::file_name` for Unix paths. The path is split
  at `/`, empty and `.` pieces are dropped, and the last remaining piece is
  the file name unless it is `..` or there is none.
- `Input` (input_format.dfy): the `Format` datatype, `InputFormat`, its
  whole-path form, and the properties of the decision.

Quirks of the code that the model proves as stated:

- The pattern is not anchored. `clip.h265.bak` on an existing file is `Raw`.
- Matroska is chosen by `mkv` anywhere in the name. Both `a.mkv.hevc` and
  `mkvfoo.265` are `Matroska`.
- A path whose last component is `-` reads standard input in any directory,
  for example `videos/-`.
- A name with a line feed before `265` (`a.` + line feed + `265`) does not
  match `.?265`.

The help text of `--crop` (src/main.rs:27) says it cannot be combined with
mode 0. Nothing in src/main.rs enforces this, so the model has no such rule.

## Model

| member | source | states |
|---|---|---|
| Regex.LitSpan | src/main.rs:64 | a literal word of the pattern matches a slice exactly when the slice spells the word |
| Extension.PatternIsMatchesExt | src/main.rs:64 | the literal pattern of line 64 matches somewhere in a name exactly when the hand-coded test `ExtAt` holds at some index, in both directions |
| Extension.MatchesExt | src/main.rs:72 | the `is_match` test holds exactly when the literal pattern of line 64 matches some slice of the name |
| Extension.FindExtension | src/main.rs:72 | the search finds no match exactly when no match exists; otherwise it returns a match position with no match before it |
| Extension.ShortNamesNeverMatch | src/main.rs:64 | a name shorter than four characters never matches, so `""` and `-` never do |
| Extension.MatchUnanchored | src/main.rs:64 | a name that matches still matches with any text added before or after it |
| Extension.MatchWithoutMkv | src/main.rs:64 | a match in a name without `mkv` goes through `.hevc`, `.265`, or `.` + a character other than a line feed + `265` |
| Strings.Contains | src/main.rs:73 | the left-to-right search for `mkv` succeeds exactly when `mkv` occurs at some index of the name |
| PathName.Split | src/main.rs:65 | splitting a path at separators yields at least one piece |
| PathName.JoinSplit | src/main.rs:65 | joining the pieces of a path with separators gives the path back |
| PathName.Components | src/main.rs:65 | every kept component is a piece of the path that is neither empty nor `.`, and every such piece is kept |
| PathName.ComponentsOfPiece | src/main.rs:65 | a single piece is kept exactly when it is neither empty nor `.` |
| PathName.ComponentsAppend | src/main.rs:65 | order is kept: the components of two runs of pieces are those of the first followed by those of the second |
| PathName.FileName | src/main.rs:65-68 | a file name, when present, is non-empty, not `.` or `..`, and has no separator |
| PathName.FileNameOfChild | src/main.rs:65-66 | a plain name is the file name of itself and of any `dir/name` |
| PathName.FileNameIgnoresTrailing | src/main.rs:65-66 | a trailing `/` or `/.` does not change the file name |
| PathName.FileNameOfParent | src/main.rs:65-67 | a path ending in `..` has no file name |
| Input.NameOf | src/main.rs:65-68 | the name is empty exactly when there is no file name or it is empty, and is the file name otherwise |
| Input.InputFormat | src/main.rs:63-85 | `RawStdin` exactly for the name `-`; `Raw` or `Matroska` only for an existing file whose name matches the pattern; every error is one of the three messages |
| Input.InputFormatOfPath | src/main.rs:63-79 | on a whole path, `Missing input.` is reported exactly when the path has no file name |
| Input.CasesPartition | src/main.rs:70-84 | the five cases (dash, accepted file, empty name, not a file, wrong type) cover every input, and no two of them overlap |
| Input.MessagesDistinct | src/main.rs:78-84 | the three error messages are pairwise different |
| Input.InputFormatMatchesCases | src/main.rs:70-84 | each of the five cases gets its own outcome, and each outcome arises only from its case |
| Input.DashIsStdin | src/main.rs:70-71 | the name `-` gives `RawStdin` whether or not the path is a file |
| Input.AcceptedSplitsOnMkv | src/main.rs:72-77 | an accepted name gives `Matroska` exactly when it contains `mkv`, and `Raw` exactly when it does not |
| Input.MkvExtensionIsMatroska | src/main.rs:72-74 | an existing file with `.mkv` in its name is `Matroska` |
| Input.RawMeansHevcMatch | src/main.rs:72-77 | a `Raw` result always rests on a `.hevc`, `.265`, or `.` + a character other than a line feed + `265` match |
| Input.AcceptedUnanchored | src/main.rs:64-77 | an accepted name stays accepted as a file with any text added around it |
| Input.MissingNameIsMissingInput | src/main.rs:65-79 | no file name, or an empty one, gives `Missing input.` whether or not the path is a file |
| Input.NotAFileIsNoSuchFile | src/main.rs:72-81 | a name other than `""` and `-` on a non-file gives `Input file doesn't exist.`, even with a matching extension |
| Input.UnmatchedFileIsInvalid | src/main.rs:72-83 | an existing file whose name is not `""` or `-` and does not match gives `Invalid input file type.` |
| Input.DashInAnyDirectoryIsStdin | src/main.rs:65-71 | the paths `-` and `dir/-` both give `RawStdin` |
| Input.DirectoryPathsAreMissing | src/main.rs:65-79 | the paths `""`, `/` and `dir/..` give `Missing input.` |
| Input.MkvAnywhereExamples | src/main.rs:72-77 | `a.mkv.hevc` and `mkvfoo.265` on existing files are `Matroska` |
| Input.InnerExtensionExample | src/main.rs:64-77 | `clip.h265.bak` on an existing file is `Raw` |
| Input.LineFeedExample | src/main.rs:64-83 | `a.` + line feed + `265` on an existing file gives `Invalid input file type.` |

## Left out

- Command-line parsing (`Opt`, src/main.rs:13-33) and subcommand dispatch in `main` (src/main.rs:35-61): library plumbing. The demuxer, RPU extractor and editor they call are not part of this model.
- The `Format` type is declared in a module that is not part of this model. Only its three variants used here are modelled.
- `Path::is_file` (lines 72 and 80) is a boolean parameter. The two calls are one value in the model. A file that appears or disappears between the two calls is not modelled.
- The panic of `to_str().unwrap()` on a non-UTF-8 file name (line 66): names are Dafny strings, so they are always valid text.
- `Path::file_name` is modelled for Unix paths only. Windows prefixes and `\` separators are not modelled.
- The general regex engine (line 64): only the operators of this one pattern are modelled. Rust's `is_match` only asks whether a match exists, so match priority is not modelled.
