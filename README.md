# text_to_word in Dafny

A model of `text_to_word.py`, a command-line tool that turns plain-text files
into Word documents, one paragraph per line. The model covers four parts:

- **`convert_text_to_docx`** (module `Converter`). It returns None when the
  input is not a file. It chooses the output path: the given one, or the input
  with its extension replaced by `.docx`. It then reads the text, adds one
  paragraph per newline-separated line (an empty paragraph for a blank line),
  saves the document and returns the output path. Any failure after the path
  is chosen returns None.
- **The text-to-paragraph mapping** (module `Text`): Python's
  `str.split('\n')`, `str.strip()` with Python's whitespace set, and the
  blank-line rule. The loop that builds the document is a method, proved equal
  to the paragraph function `Paragraphs`.
- **The path arithmetic** (module `PyPath`): POSIX `os.path.basename`,
  `os.path.splitext` (including its rule that leading dots do not start an
  extension) and `os.path.join`. `basename` and `splitext` are built on
  `str.rfind`; `join` looks at the first character of the name and the last
  character of the directory.
- **`batch_convert` and the command-line count check** (module `Batch`).
  - The glob expansion loop keeps specifiers in order and drops those that
    match nothing.
  - When nothing is expanded, the batch returns early.
  - The output directory is created when it is given and missing.
  - Each output path is resolved by precedence: an explicit output, then the
    output directory, then the default.
  - Each file is converted in turn. The paths the conversions return are
    collected when they are truthy.
  - `main` rejects an output list whose length differs from the number of
    input specifiers.

The file system, glob and the document library appear only as the recorded
answers of an `Env`:

- `glob`, `isFile` and `pathExists` answer for `glob.glob`,
  `os.path.isfile` and `os.path.exists`;
- `contents` is the text `read()` returns, or None when opening, reading or
  decoding raises;
- `saves` says whether `doc.save` of the given paragraphs to the given path
  succeeds.

Each imperative routine of the source is a method: `BuildDocument`,
`ConvertTextToDocx`, `ExpandSpecifiers`, `BatchConvert` and `RunCommandLine`.
Each is proved against a function (`Paragraphs`, `Convert`, `Expand`,
`Batch`), and the lemmas state the properties of those functions.

Python truthiness is modelled as written:

- `if result:` holds only for a returned path that is not `""`.
- `if output_files` holds only for a given, non-empty list.
- `if output_dir` holds only for a given, non-empty string.

Three consequences of the code are worth knowing:

- **Trailing newline.** `split('\n')` keeps the final empty piece, so a
  trailing newline gives a final empty paragraph: `"Hello\n\nWorld\n"` gives
  four paragraphs, `"Hello"`, `""`, `"World"` and `""`
  (`Text.TrailingNewline`, `Text.BlankAndTrailingLines`).
- **Missing literal file.** `glob.glob` of a literal path that does not exist
  returns `[]`, so the path never reaches the expanded list: an existing
  `a.txt` with a missing `b.txt` reports "1 of 1"
  (`Batch.MissingLiteralNotCounted`).
- **Count check against expanded files.** The command line compares the number
  of outputs with the number of input *specifiers*, while `batch_convert`
  matches outputs to *expanded files* by position. The two agree when each
  specifier matches exactly one file (`Batch.AlignedWhenEachMatchesOne`). A
  specifier that matches two files shifts later outputs onto the wrong files,
  and the last files fall back to their default names
  (`Batch.MisalignedOutputs`). A specifier that matches nothing shifts them the
  other way: later files take earlier outputs and the last outputs go unused
  (`Batch.UnmatchedShiftsOutputs`). The model keeps this behaviour as written.

## Model

| member | source | states |
|---|---|---|
| PyPath.RFind | text_to_word.py:100-101 | the index found holds the character, and no later index does; -1 means the character is absent |
| PyPath.Basename | text_to_word.py:100 | `os.path.basename`: what follows the last '/' (the whole path when there is none); `BasenameSplits` states its decomposition |
| PyPath.BasenameSplits | text_to_word.py:100 | a path is its directory part followed by its base name; the base name holds no '/', and the directory part is empty or ends with '/' |
| PyPath.SplitExt | text_to_word.py:27 | `os.path.splitext`: cut at the last '.' when it follows the last '/' and some character other than '.' lies between them, else no extension; `SplitExtJoinsBack` and `SplitExtFindsExtensionIff` state it |
| PyPath.Stem | text_to_word.py:101 | `os.path.splitext(p)[0]`, the path without its extension; `StemAfterDir` and `StemKeepsDir` state it |
| PyPath.SplitExtJoinsBack | text_to_word.py:27 | `splitext` loses nothing: root + extension is the path; an extension is empty or one '.' followed by no '.' and no '/' |
| PyPath.SplitExtFindsExtensionIff | text_to_word.py:101 | `splitext` finds an extension exactly when the base name has some '.' after a character other than '.' (so `.bashrc` and `..` have none) |
| PyPath.StemOfName | text_to_word.py:101 | the extension-less name of a base name still holds no '/' |
| PyPath.DirThenName | text_to_word.py:100 | a directory part followed by a plain name splits back into exactly that directory part and that base name |
| PyPath.StemAfterDir | text_to_word.py:105 | after a directory part, `splitext` cuts only the name: the stem of dir + name is dir + the stem of name |
| PyPath.StemKeepsDir | text_to_word.py:100-105 | stripping the extension of a full path keeps its directory, and its base name is the stem of the input's base name |
| PyPath.Join | text_to_word.py:103 | `os.path.join(a, b)`: `b` when it starts with '/', else `a + b` when `a` is empty or ends with '/', else `a + '/' + b`; `JoinSplitsBack` states it |
| PyPath.JoinSplitsBack | text_to_word.py:103 | `os.path.join(dir, name)` for a plain name is the directory (with '/' added when missing) followed by the name, and splits back into the two |
| Text.Split | text_to_word.py:45 | `split('\n')` gives at least one piece, and no piece holds a newline |
| Text.SplitCount | text_to_word.py:45 | there is one more piece than the text has newlines |
| Text.JoinSplit | text_to_word.py:45 | joining the pieces with newlines gives the text back |
| Text.SplitJoin | text_to_word.py:45 | splitting newline-free pieces joined by newlines gives those pieces back |
| Text.TrimLeading | text_to_word.py:46 | the result is a suffix of the line; every character dropped is whitespace, and the result is empty or starts with non-whitespace |
| Text.TrimTrailing | text_to_word.py:46 | the result is a prefix of the line; every character dropped is whitespace, and the result is empty or ends with non-whitespace |
| Text.IsSpace | text_to_word.py:46 | the characters `str.isspace()` accepts and `str.strip()` removes: U+0009-U+000D, U+001C-U+0020, U+0085, U+00A0, U+1680, U+2000-U+200A, U+2028, U+2029, U+202F, U+205F, U+3000 |
| Text.Strip | text_to_word.py:46 | `str.strip()`: leading, then trailing, whitespace removed; `StripEmptyIff` states when it is empty |
| Text.StripEmptyIff | text_to_word.py:46 | `line.strip() == ''` exactly when every character of the line is whitespace |
| Text.Paragraph | text_to_word.py:46-51 | the paragraph text added for one line: "" for a blank line, else the line as it is |
| Text.Paragraphs | text_to_word.py:45-51 | one paragraph per piece of `split('\n')`, in order; `ParagraphsOfText` and `BuildDocument` state it |
| Text.ParagraphsOfText | text_to_word.py:45-51 | the document has newlines + 1 paragraphs; paragraph i is "" when line i is blank, else line i verbatim, leading and trailing spaces included |
| Text.BuildDocument | text_to_word.py:45-51 | the loop adding `add_paragraph()` or `add_paragraph(line)` per line builds exactly `Paragraphs(text)` |
| Text.TrailingNewline | text_to_word.py:45 | a trailing newline adds one final empty line and so one final empty paragraph |
| Text.BlankAndTrailingLines | text_to_word.py:45-51 | "A\n\nB\n" with non-blank A and B gives four paragraphs: A, "", B, "" |
| Text.ParagraphsOfLines | text_to_word.py:45-51 | the paragraphs of newline-free lines joined by newlines are those lines, each blanked when blank |
| Converter.DefaultOutput | text_to_word.py:26-28 | `splitext(input)[0] + ".docx"`; `DefaultOutputShape` states its shape |
| Converter.OutputFor | text_to_word.py:26-28 | the given output path, or the default output when none is given |
| Converter.Convert | text_to_word.py:21-60 | the outcome of one conversion: NotFound, Failed at the chosen path, or Saved with the paragraphs; `ConvertOutcome` states it |
| Converter.DefaultOutputShape | text_to_word.py:26-28 | the default output ends in ".docx", lies in the input's directory, is named after the input's base name without extension, and gives the input back once ".docx" is replaced by the old extension |
| Converter.ConvertOutcome | text_to_word.py:21-60 | a non-file input gives None with nothing else done; a path is returned exactly when the input is a file, its text is read and the save succeeds, and then it is the chosen output path; the saved document has newlines + 1 paragraphs, blank lines as "" |
| Converter.DefaultConversionPath | text_to_word.py:26-28 | a successful conversion without an output path returns the ".docx" path beside the input, named after its stem |
| Converter.ConvertTextToDocx | text_to_word.py:8-60 | the method performs `Convert`: NotFound exactly when the input is not a file; otherwise the outcome carries the given output path, or the default one when none is given |
| Batch.Expand | text_to_word.py:75-81 | the glob matches of every specifier, concatenated in order; `ExpandConcat`, `ExpandMembership` and `ExpandEmptyIff` state it |
| Batch.ExpandConcat | text_to_word.py:75-81 | expanding a list of specifiers is expanding its parts and concatenating, in order |
| Batch.UnmatchedContributesNothing | text_to_word.py:78-81 | a specifier that matches nothing leaves the expanded list as if it were absent |
| Batch.ExpandMembership | text_to_word.py:75-81 | a path is in the expanded list exactly when some specifier's glob matches it |
| Batch.ExpandEmptyIff | text_to_word.py:75-85 | the expanded list is empty exactly when every specifier matches nothing |
| Batch.ExpandSpecifiers | text_to_word.py:75-81 | the expansion loop builds exactly `Expand(specs)` |
| Batch.HasExplicit | text_to_word.py:95 | `output_files and i < len(output_files)`: the list is given, not empty, and has an entry at i |
| Batch.HasDir | text_to_word.py:102 | `if output_dir`: the directory is given and is not "" |
| Batch.ResolveOutput | text_to_word.py:95-105 | the output path of expanded file i: `output_files[i]` when the list is truthy and long enough, else `join(output_dir, stem + ".docx")` when `output_dir` is truthy, else the default output; `ResolveOutputPrecedence` states it |
| Batch.ResolveOutputPrecedence | text_to_word.py:95-105 | an explicit output at position i is used verbatim; otherwise, with an output directory, the output lies in that directory and has the default output's base name; otherwise it is the default output beside the input, the same path `convert_text_to_docx` picks |
| Batch.Outputs | text_to_word.py:93-105 | the resolved output path of every expanded file, one per file, in order |
| Batch.Outcomes | text_to_word.py:93-108 | the conversion of every expanded file to its resolved output, one per file, in order |
| Batch.Succeeded | text_to_word.py:109 | `if result:`: a path was returned and it is not "" |
| Batch.Collected | text_to_word.py:108-110 | the returned paths of the succeeded conversions, appended in order; `CollectedAtSuccesses` states it |
| Batch.SuccessIndices | text_to_word.py:108-110 | the positions of the conversions that succeeded, strictly increasing, each one valid, and all of them |
| Batch.CollectedAtSuccesses | text_to_word.py:92-110 | the collected list holds, in order, the output of each succeeded conversion and nothing else |
| Batch.CollectedOutputs | text_to_word.py:93-110 | a collected path is the resolved output of its file, at the succeeded positions |
| Batch.Batch | text_to_word.py:62-113 | the report of a batch run: nothing when nothing expands, else the collected paths, the expanded count and whether the directory is created; `BatchConvertedAreSuccesses` and `NothingExpanded` state it |
| Batch.BatchConvertedAreSuccesses | text_to_word.py:92-113 | the returned list is the resolved outputs at the succeeded positions, in order; the "of M" count is the number of expanded files and bounds the "N" count |
| Batch.NothingExpanded | text_to_word.py:83-85 | the run attempts nothing exactly when every specifier matches nothing, and then it returns [] and creates no directory |
| Batch.BatchConvert | text_to_word.py:62-113 | the method performs `Batch`: expansion, the early return, directory creation when given and missing, and one conversion per expanded file |
| Batch.OutputCountAccepted | text_to_word.py:127 | the command line's check: no output list, an empty one, or one as long as the specifier list |
| Batch.RunCommandLine | text_to_word.py:126-131 | the run stops before any batch work exactly when a non-empty output list differs in length from the specifier list; otherwise it is the batch run |
| Batch.AlignedWhenEachMatchesOne | text_to_word.py:93-97 | when each specifier matches exactly one file and the count check passes, output i goes to the file of specifier i |
| Batch.MisalignedOutputs | text_to_word.py:93-97 | when one specifier matches two files, the check passes for two outputs, yet the second output goes to the first specifier's second file and the second specifier's file gets its default name |
| Batch.UnmatchedShiftsOutputs | text_to_word.py:75-97 | when the first of two specifiers matches nothing, the check passes for two outputs, yet the second specifier's file takes the first output and the second output is never used |
| Batch.MissingLiteralNotCounted | text_to_word.py:75-85 | a missing literal file is dropped by glob and never counted: one good file and one missing give "1 of 1" and the good file's default output |
| Batch.OneLineConversion | text_to_word.py:44-56 | a file of one non-blank line saves a one-paragraph document holding that line and returns the output path |

## Left out

- Document formatting is not modelled: the Calibri 11 pt "Normal" style and the `.docx` encoding. A document is its list of paragraph texts.
- `doc.save` is not modelled. It is the `saves` answer of the `Env`.
- Reading the file is not modelled. `contents` stands for `open(..., encoding='utf-8').read()`, including its universal-newline translation ("\r\n" and "\r" become "\n" before the split). A decoding error, a read error and an exception from the document library all become the one outcome `Failed`, and the exception text is not kept.
- `glob.glob` pattern matching and the order of its matches are not modelled; they are the `glob` answer of the `Env`.
- `os.path.isfile` and `os.path.exists` are not modelled; they are `Env` answers.
- The answers of the `Env` are fixed for the whole run. A file written by an earlier conversion does not change what later checks see.
- `os.makedirs` appears only as the `createdDir` flag of the report. Its failure, which would raise out of `batch_convert`, is not modelled.
- The printed messages are not modelled: errors, warnings, the success line and the summary line. The summary's two numbers are the `converted` length and the `attempted` count of `Report`.
- `argparse` parsing is not modelled. Its result is the parameters of `RunCommandLine`; `-o` given with no values is `Some([])`, which the code treats like no output list. The `nargs='+'` rule that at least one input is given is not imposed: an empty specifier list simply expands to nothing.
- Only the POSIX path rules are modelled. Windows `ntpath` and paths given as bytes are not.
- `os.path.join` is modelled for the two components the code passes.
