/**
  The single-file converter, `convert_text_to_docx`: check that the input is a
  file, choose the output path, read the text, build one paragraph per line
  and save the document. The file system and the document library are seen
  only through the answers recorded in an `Env`.
 */
module Converter {
  import opened Optional
  import opened PyPath
  import opened Text

  const DOCX_EXT: string := ".docx"

  /**
    What the outside world answers. `glob` is `glob.glob`, `isFile` is
    `os.path.isfile`, `pathExists` is `os.path.exists`; `contents` is the text
    read as UTF-8 (with "\r\n" and "\r" already turned into "\n"),
    or None when opening, reading or decoding raises; `saves`
    says whether `doc.save` of the given paragraphs to the given path succeeds.
   */
  datatype Env = Env(
    glob: string -> seq<string>,
    isFile: string -> bool,
    pathExists: string -> bool,
    contents: string -> Option<string>,
    saves: (string, seq<string>) -> bool)

  /**
    How one conversion ends: the input is not a file (nothing else happens),
    an exception after the output path was chosen, or a saved document.
   */
  datatype Conversion =
    | NotFound
    | Failed(output: string)
    | Saved(output: string, paragraphs: seq<string>)
  {
    /** What `convert_text_to_docx` returns: the output path, or None. */
    function Returned(): Option<string> {
      if Saved? then Some(output) else None
    }
  }

  /** The output path used when none is given: the input with its extension replaced by ".docx". */
  function DefaultOutput(input: string): string {
    Stem(input) + DOCX_EXT
  }

  /** The output path `convert_text_to_docx` writes to. */
  function OutputFor(input: string, output: Option<string>): string {
    if output.None? then DefaultOutput(input) else output.value
  }

  /**
    The default output ends in ".docx", lies in the input's directory, is
    named after the input's base name without its extension, and is the
    input itself once the extension is put back in place of ".docx".
   */
  lemma DefaultOutputShape(input: string)
    ensures |DefaultOutput(input)| >= |DOCX_EXT|
    ensures DefaultOutput(input)[|DefaultOutput(input)| - |DOCX_EXT|..] == DOCX_EXT
    ensures DirPrefix(DefaultOutput(input)) == DirPrefix(input)
    ensures Basename(DefaultOutput(input)) == Stem(Basename(input)) + DOCX_EXT
    ensures DefaultOutput(input)[..|DefaultOutput(input)| - |DOCX_EXT|] + SplitExt(input).1 == input
  {
    var s := Stem(input);
    var d := DirPrefix(input);
    var n := Stem(Basename(input)) + DOCX_EXT;
    NamePartOfDefault(input);
    assert DefaultOutput(input) == d + n by {
      StemKeepsDir(input);
    }
    BasenameSplits(input);
    DirThenName(d, n);
    assert DefaultOutput(input)[..|DefaultOutput(input)| - |DOCX_EXT|] == s;
    SplitExtJoinsBack(input);
  }

  /** The name part of the default output holds no separator. */
  lemma NamePartOfDefault(input: string)
    ensures SEP !in Stem(Basename(input)) + DOCX_EXT
  {
    BasenameSplits(input);
    StemOfName(Basename(input));
  }

  /** The conversion `convert_text_to_docx(input, output)` performs in `env`. */
  function Convert(env: Env, input: string, output: Option<string>): Conversion {
    if !env.isFile(input) then NotFound
    else
      var out := OutputFor(input, output);
      match env.contents(input)
      case None => Failed(out)
      case Some(text) => if env.saves(out, Paragraphs(text)) then Saved(out, Paragraphs(text)) else Failed(out)
  }

  /**
    A missing input yields None and nothing else; a success returns exactly
    the chosen output path, after saving one paragraph per line of the
    input's text (blank lines as "", other lines verbatim).
   */
  lemma ConvertOutcome(env: Env, input: string, output: Option<string>)
    ensures !env.isFile(input) ==> Convert(env, input, output) == NotFound
    ensures Convert(env, input, output).Returned().Some? <==>
      env.isFile(input) && env.contents(input).Some? &&
      env.saves(OutputFor(input, output), Paragraphs(env.contents(input).value))
    ensures Convert(env, input, output).Returned().Some? ==>
      Convert(env, input, output).Returned().value == OutputFor(input, output)
    ensures Convert(env, input, output).Saved? ==>
      var text := env.contents(input).value;
      var doc := Convert(env, input, output).paragraphs;
      |doc| == multiset(text)[NEWLINE] + 1 &&
      forall i :: 0 <= i < |doc| ==> doc[i] == (if AllSpace(Split(text)[i]) then [] else Split(text)[i])
  {
    if env.isFile(input) && env.contents(input).Some? {
      ParagraphsOfText(env.contents(input).value);
    }
  }

  /** With no output path given, a successful conversion returns a ".docx" path beside the input. */
  lemma DefaultConversionPath(env: Env, input: string)
    requires Convert(env, input, None).Saved?
    ensures Convert(env, input, None).output == DefaultOutput(input)
    ensures DirPrefix(Convert(env, input, None).output) == DirPrefix(input)
    ensures Basename(Convert(env, input, None).output) == Stem(Basename(input)) + DOCX_EXT
  {
    DefaultOutputShape(input);
  }

  /** `convert_text_to_docx`: the early return, the default output path, then read, build and save. */
  method ConvertTextToDocx(env: Env, input: string, output: Option<string>) returns (c: Conversion)
    ensures c == Convert(env, input, output)
    ensures c.NotFound? <==> !env.isFile(input)
    ensures !c.NotFound? ==> c.output == OutputFor(input, output)
  {
    if !env.isFile(input) {
      return NotFound;
    }
    var outputFile := if output.None? then DefaultOutput(input) else output.value;
    match env.contents(input)
    case None =>
      c := Failed(outputFile);
    case Some(text) =>
      var doc := BuildDocument(text);
      if env.saves(outputFile, doc) {
        c := Saved(outputFile, doc);
      } else {
        c := Failed(outputFile);
      }
  }
}
