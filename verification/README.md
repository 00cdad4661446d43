# whisper-transcriber: normaliser and output path, in Dafny

The program transcribes audio files with a pretrained speech model and writes
the text to the console or to a `.txt` file. Everything except two pure
functions is input/output around the model. This project models those two
functions:

- `get_segments` is the text normaliser. It turns a transcription result
  (the full text plus an ordered list of segments) into one string. In
  continuous mode it strips the full text, optionally deletes every character
  outside `[\w\s\-']`, and lower-cases the rest. In segmented mode it does
  the same to each segment and skips segments that are blank after stripping.
  The surviving pieces are joined with line feeds.
- `get_rl_path` builds the output path. It joins the working directory
  (`os.path.join`) with the input name minus its last extension
  (`os.path.splitext`), plus `.txt`.

Modules:

- `Text` (`text.dfy`) holds the character classes and `strip`, the
  punctuation deletion and `lower` over ASCII.
- `Lines` (`lines.dfy`) holds `"\n".join` and its inverse, splitting at line
  feeds.
- `Transcription` (`transcription.dfy`) holds the transcription record,
  `GetSegments`, the loop of the segmented branch, and their properties.
- `Paths` (`paths.dfy`) holds `splitext`, `join` and `GetRlPath` after
  Python's POSIX `posixpath` module.

Three behaviours of the code worth knowing, each proved in the model:

- `get_rl_path` does not reduce its input to a base name. A relative
  directory prefix survives: the directory driver passes
  `os.path.join(directory, filename)`, so its outputs land under
  `cwd/directory/`. An absolute input name makes `os.path.join` discard the
  working directory, so the `.txt` file lands beside the audio file.
- Normalising is not idempotent without punctuation, because nothing strips
  again after the deletion. `"Yes ."` becomes `"yes "`, and a second pass
  gives `"yes"`. Idempotence holds in continuous mode with punctuation kept.
- A segment that is not blank but is all punctuation is kept as an empty
  line. The blank test runs before the deletion.

## Model

| member | source | states |
|---|---|---|
| Text.Strip | generate_transcr.py:42 | the result has no whitespace at either end, and it is empty exactly when the input is all whitespace |
| Text.StripIsInfix | generate_transcr.py:49 | stripping keeps one contiguous block of the input, and everything cut off on either side is whitespace |
| Text.StripKeepsTrimmed | generate_transcr.py:42 | a string with no whitespace at either end is left unchanged by stripping |
| Text.StripIdempotent | generate_transcr.py:42 | stripping a stripped string changes nothing |
| Text.Lower | generate_transcr.py:45 | same length; every character is lowered on its own, an upper-case ASCII letter becoming its lower-case partner and every other character staying; no upper-case letter left; whitespace and allowed-class membership kept at every position |
| Text.LowerIdempotent | generate_transcr.py:53 | lower-casing twice is lower-casing once |
| Text.LowerAppend | generate_transcr.py:53 | lower-casing distributes over concatenation |
| Text.RemovePunctuation | generate_transcr.py:44 | every character of the result is a word character, whitespace, `-` or `'`, and the result is no longer than the input |
| Text.RemovePunctuationIsSubseq | generate_transcr.py:52 | the deletion only deletes: its result is a subsequence of its input |
| Text.RemovePunctuationKeepsAllowed | generate_transcr.py:44 | every allowed character occurs in the result as often as in the input, and no disallowed character occurs at all |
| Text.RemovePunctuationFixesAllowed | generate_transcr.py:52 | a string of allowed characters only is left unchanged |
| Text.RemovePunctuationIdempotent | generate_transcr.py:44 | deleting twice is deleting once |
| Text.RemovePunctuationAppend | generate_transcr.py:52 | the deletion distributes over concatenation |
| Text.LowerRemovePunctuationCommute | generate_transcr.py:44-45 | lower-casing and the deletion commute, so the order of lines 44 and 45 does not matter |
| Text.StripLowerCommute | generate_transcr.py:42-45 | stripping and lower-casing commute |
| Lines.JoinLines | generate_transcr.py:55 | joining no pieces gives the empty string and one piece gives that piece; otherwise the result starts with the first piece and holds at least one character per separator; SplitJoin and JoinSplit show that splitting at line feeds inverts it |
| Lines.SplitJoin | generate_transcr.py:55 | splitting the join of a non-empty list of pieces without line feeds gives the pieces back |
| Lines.JoinSplit | generate_transcr.py:55 | joining the split of any string gives the string back |
| Lines.JoinLinesLength | generate_transcr.py:55 | the joined length is the sum of the piece lengths plus one separator between each pair of neighbours |
| Transcription.Clean | generate_transcr.py:51-53 | the cleaned piece has no upper-case letter; with punctuation kept it has the stripped text's length, otherwise only allowed characters and no more characters |
| Transcription.SegmentLines | generate_transcr.py:49-54 | a segment contributes nothing exactly when its text is blank, otherwise one piece, its cleaned stripped text |
| Transcription.Pieces | generate_transcr.py:47-54 | at most one piece per segment, no upper-case letters, only allowed characters when punctuation is removed |
| Transcription.PiecesAllBlank | generate_transcr.py:49-50 | when every segment is blank, no piece is collected at all |
| Transcription.GetSegments | generate_transcr.py:40-55 | output has no upper-case letter; without punctuation only allowed characters (line feed included); continuous output no longer than the stripped text, and exactly as long with punctuation kept; segmented output empty when every segment is blank |
| Transcription.CollectSegments | generate_transcr.py:47-55 | the loop of the segmented branch, with its append and final join, computes the same string as `GetSegments` |
| Transcription.NonBlankIndices | generate_transcr.py:48-50 | the indices of the non-blank segments, strictly increasing and complete |
| Transcription.PiecesByIndex | generate_transcr.py:47-54 | the k-th collected piece is the cleaned text of the k-th non-blank segment, and there are as many pieces as non-blank segments |
| Transcription.PiecesAppend | generate_transcr.py:48-54 | collecting over two runs of segments is collecting over each run and concatenating |
| Transcription.SegmentedLines | generate_transcr.py:47-55 | when some segment is non-blank and no segment text holds a line feed, the output splits into one line per non-blank segment, in input order, each that segment's cleaned text |
| Transcription.PunctuationOnlySegmentKept | generate_transcr.py:49-54 | a non-blank segment made only of punctuation contributes one empty piece when punctuation is removed |
| Transcription.PunctuationOnlyLeavesEmptyLine | generate_transcr.py:49-55 | a spoken segment followed by a punctuation-only one gives the spoken line and a trailing line feed |
| Transcription.RemovePunctuationOfWords | generate_transcr.py:52 | two runs of allowed characters, each followed by punctuation, keep just the two runs |
| Transcription.AllowedThenPunctuation | generate_transcr.py:52 | a run of allowed characters followed by punctuation keeps just the run |
| Transcription.ContinuousWithPunct | generate_transcr.py:41-45 | with punctuation kept, continuous output is the stripped text lower-cased character for character, with nothing removed |
| Transcription.CleanOnlyDeletes | generate_transcr.py:51-53 | every piece is a subsequence of the lower-cased stripped input and holds each allowed character of it as often |
| Transcription.ContinuousWithPunctIdempotent | generate_transcr.py:41-45 | with punctuation kept, normalising the continuous output again changes nothing |
| Transcription.NotIdempotentWithoutPunct | generate_transcr.py:41-45 | without punctuation, `"Yes ."` normalises to `"yes "` and then to `"yes"`, so the pipeline is not idempotent |
| Transcription.HelloWorldExample | generate_transcr.py:40-55 | `"Hello, World!"` as one segment gives `"hello world"` by default and `"hello, world!"` in continuous mode with punctuation kept |
| Transcription.LastAfterBlanks | generate_transcr.py:47-54 | when every segment before the last is blank, the collected lines are exactly the last segment's contribution |
| Transcription.BlankSegmentsExample | generate_transcr.py:47-55 | segments `""`, `"  "`, `"Yes."` give the single line `"yes"` |
| Paths.SplitExt | generate_transcr.py:60 | stem plus extension is the input; the extension is empty or one dot followed by no dot and no separator |
| Paths.Stem | generate_transcr.py:60 | `os.path.splitext(filename)[0]` is a prefix of the name, and for a non-empty name it is non-empty and starts with the same character, so the stem is absolute exactly when the name is |
| Paths.SplitExtIff | generate_transcr.py:60 | an extension is found exactly when some dot in the last component has a non-dot character before it in that component |
| Paths.SplitExtLastComponent | generate_transcr.py:60 | only the last path component decides the extension; the directory part passes through unchanged |
| Paths.LeadingDotsNoExtension | generate_transcr.py:60 | a last component of leading dots and then no dot, such as `.bashrc`, has no extension |
| Paths.SimpleNameSplits | generate_transcr.py:60 | `base.ext` with no other dot splits into `base` and `.ext` |
| Paths.PathJoin | generate_transcr.py:60 | the second part always ends the result; an absolute second part is the whole result; otherwise the first part is a prefix, exactly one extra character is added precisely when the first part is non-empty and does not end in `/`, and whenever the first part is non-empty a `/` stands right before the second part |
| Paths.GetRlPath | generate_transcr.py:58-60 | the result ends in `.txt`; for a relative name it starts with the working directory; for an absolute name it is the name minus its extension plus `.txt` |
| Paths.GetRlPathRelative | generate_transcr.py:58-60 | for a relative name, the result is cwd, a separator, the name minus only its last extension, and `.txt` |
| Paths.GetRlPathKeepsDirectory | generate_transcr.py:58-60 | for any working directory, a directory prefix in the name survives into the result: only the last component loses its extension |
| Paths.DirectoryOutputPath | generate_transcr.py:93-101 | for any working directory and any directory argument, including one ending in `/`, an empty one or an absolute one, the directory driver's output for a listed file is cwd joined with the directory joined with the file's stem plus `.txt` |
| Paths.DirectoryOutputUnderDirectory | generate_transcr.py:93-101 | so every output of the directory driver starts with cwd joined with the directory |
| Paths.JoinKeepsJoinPrefix | generate_transcr.py:60 | joining `a` with (`d` joined with a relative, non-empty `x`) starts with `a` joined with `d` |
| Paths.ExampleSong | generate_transcr.py:58-60 | `song.mp3` in a working directory `cwd` gives `cwd/song.txt` |
| Paths.ExampleDotFile | generate_transcr.py:58-60 | `.bashrc` in `cwd` gives `cwd/.bashrc.txt` |
| Paths.ExampleDoubleExtension | generate_transcr.py:58-60 | `a.tar.gz` in `cwd` gives `cwd/a.tar.txt` |
| Paths.ExampleAbsolute | generate_transcr.py:58-60 | for any absolute directory `dir`, `dir/song.mp3` gives `dir/song.txt`, whatever the working directory |

## Left out

- Model loading, meaning the `torch.load` patch and `whisper.load_model` (generate_transcr.py:36-37), and the `model.transcribe` calls (lines 71, 95). These belong to an external library. The transcription result is an input datatype instead.
- The drivers' input/output (lines 63-107): the `isfile`/`isdir` checks and their messages, opening and writing files, printing, and `os.listdir` with its unspecified order and `.mp3` filter. Only the path the directory driver builds is modelled.
- The argparse command line and the `__main__` dispatch (lines 110-143).
- `os.getcwd()` becomes the `cwd` parameter of `GetRlPath`.
- Missing `"text"`, `"segments"` or segment `"text"` keys raise `KeyError` in Python. The record here always has its fields.
- Non-ASCII characters: Python's `\w`, `\s`, `str.strip` and `str.lower` follow Unicode. The model restricts them to ASCII. A non-ASCII character is in no class and is left unchanged by lowering, so for example an accented letter is deleted here where Python keeps it. Python's `lower` can also change a string's length for some non-ASCII characters, which this model does not show.
- `os.path` is modelled for POSIX only. The Windows `ntpath` rules (backslash separators, drive letters) are not.
- Transcription.SegmentedLines: stated only when no segment text holds a line feed. A line feed inside a segment survives stripping and, being whitespace, the deletion, so that segment's piece would span several lines.
- Paths.GetRlPathRelative: stated for a working directory that is non-empty and does not end in a separator. `os.getcwd()` returns `/` only at the root, where `os.path.join` adds no second separator. `Paths.GetRlPathKeepsDirectory` and `Paths.DirectoryOutputPath` cover every working directory, `/` included, in terms of `Paths.PathJoin`.
- Paths.ExampleSong: stated, like `Paths.GetRlPathRelative`, for a working directory that is non-empty and does not end in a separator.
- Paths.ExampleDotFile: stated for the same working directories as `Paths.ExampleSong`.
- Paths.ExampleDoubleExtension: stated for the same working directories as `Paths.ExampleSong`.
