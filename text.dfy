/**
  How the converter turns the text of a file into paragraphs: Python's
  `str.split('\n')`, `str.strip()` and the blank-line rule of
  `convert_text_to_docx`.
 */
module Text {
  const NEWLINE: char := '\n'

  /** `s.split('\n')`: the pieces between newlines, keeping empty ones (a trailing newline gives a final ""). */
  function Split(s: string): (parts: seq<string>)
    ensures |parts| >= 1
    ensures forall i :: 0 <= i < |parts| ==> NEWLINE !in parts[i]
    decreases |s|
  {
    if s == [] then [[]]
    else
      var rest := Split(s[1..]);
      if s[0] == NEWLINE then [[]] + rest
      else [[s[0]] + rest[0]] + rest[1..]
  }

  /** There is one more piece than there are newlines. */
  lemma {:induction false} SplitCount(s: string)
    ensures |Split(s)| == multiset(s)[NEWLINE] + 1
    decreases |s|
  {
    if s != [] {
      SplitCount(s[1..]);
      assert s == [s[0]] + s[1..];
    }
  }

  /** `'\n'.join(parts)`. */
  function JoinLines(parts: seq<string>): string {
    if |parts| == 0 then []
    else if |parts| == 1 then parts[0]
    else parts[0] + [NEWLINE] + JoinLines(parts[1..])
  }

  /** Splitting loses nothing: joining the pieces gives the text back. */
  lemma {:induction false} JoinSplit(s: string)
    ensures JoinLines(Split(s)) == s
    decreases |s|
  {
    if s != [] {
      var rest := Split(s[1..]);
      JoinSplit(s[1..]);
      if s[0] == NEWLINE {
        assert ([[]] + rest)[1..] == rest;
      } else {
        assert Split(s) == [[s[0]] + rest[0]] + rest[1..];
        if |rest| > 1 {
          assert rest == [rest[0]] + rest[1..];
          assert JoinLines(rest) == rest[0] + [NEWLINE] + JoinLines(rest[1..]);
        }
      }
      assert s == [s[0]] + s[1..];
    }
  }

  /** Splitting a newline-free prefix glued to more text extends the first piece. */
  lemma {:induction false} SplitPrefix(x: string, y: string)
    requires NEWLINE !in x
    ensures Split(x + y) == [x + Split(y)[0]] + Split(y)[1..]
    decreases |x|
  {
    if x != [] {
      var r := Split(y);
      assert (x + y)[0] == x[0] != NEWLINE;
      assert (x + y)[1..] == x[1..] + y;
      assert NEWLINE !in x[1..];
      SplitPrefix(x[1..], y);
      var rest := Split(x[1..] + y);
      assert rest[0] == x[1..] + r[0] && rest[1..] == r[1..];
      assert Split(x + y) == [[x[0]] + rest[0]] + rest[1..];
      assert [x[0]] + (x[1..] + r[0]) == x + r[0];
    } else {
      var r := Split(y);
      assert x + y == y && x + r[0] == r[0];
      assert r == [r[0]] + r[1..];
    }
  }

  /** Joining newline-free pieces and splitting again gives the same pieces. */
  lemma {:induction false} SplitJoin(parts: seq<string>)
    requires |parts| >= 1
    requires forall i :: 0 <= i < |parts| ==> NEWLINE !in parts[i]
    ensures Split(JoinLines(parts)) == parts
    decreases |parts|
  {
    if |parts| == 1 {
      SplitPrefix(parts[0], []);
      assert parts[0] + [] == parts[0];
    } else {
      var tail := JoinLines(parts[1..]);
      var nlTail := [NEWLINE] + tail;
      SplitJoin(parts[1..]);
      assert nlTail[0] == NEWLINE && nlTail[1..] == tail;
      assert Split(nlTail) == [[]] + parts[1..];
      assert JoinLines(parts) == parts[0] + nlTail;
      SplitPrefix(parts[0], nlTail);
      assert Split(JoinLines(parts)) == [parts[0] + []] + parts[1..];
      assert parts[0] + [] == parts[0];
      assert parts == [parts[0]] + parts[1..];
    }
  }

  /** Python's `str.isspace()` for one character (the characters `str.strip()` removes). */
  predicate IsSpace(c: char) {
    var n := c as int;
    (0x09 <= n <= 0x0D) || (0x1C <= n <= 0x20) || n == 0x85 || n == 0xA0 || n == 0x1680
    || (0x2000 <= n <= 0x200A) || n == 0x2028 || n == 0x2029 || n == 0x202F || n == 0x205F || n == 0x3000
  }

  /** Every character of `s` is whitespace (vacuously so for ""). */
  predicate AllSpace(s: string) {
    forall i :: 0 <= i < |s| ==> IsSpace(s[i])
  }

  /** `s.lstrip()`: the suffix left after dropping leading whitespace. */
  function TrimLeading(s: string): (r: string)
    ensures |r| <= |s| && r == s[|s| - |r|..]
    ensures forall i :: 0 <= i < |s| - |r| ==> IsSpace(s[i])
    ensures r == [] || !IsSpace(r[0])
    decreases |s|
  {
    if s != [] && IsSpace(s[0]) then TrimLeading(s[1..]) else s
  }

  /** `s.rstrip()`: the prefix left after dropping trailing whitespace. */
  function TrimTrailing(s: string): (r: string)
    ensures |r| <= |s| && r == s[..|r|]
    ensures forall i :: |r| <= i < |s| ==> IsSpace(s[i])
    ensures r == [] || !IsSpace(r[|r| - 1])
    decreases |s|
  {
    if s != [] && IsSpace(s[|s| - 1]) then TrimTrailing(s[..|s| - 1]) else s
  }

  /** `s.strip()`. */
  function Strip(s: string): string {
    TrimTrailing(TrimLeading(s))
  }

  /** `s.strip() == ''` exactly when `s` is empty or all whitespace. */
  lemma StripEmptyIff(s: string)
    ensures Strip(s) == [] <==> AllSpace(s)
  {
  }

  /**
    The paragraph text `convert_text_to_docx` adds for one line: "" for a
    blank line (one that `strip()` empties), else the line as it is.
   */
  function Paragraph(line: string): string {
    if AllSpace(line) then [] else line
  }

  /** The paragraphs of the document built from `text`, one per line, in order. */
  function Paragraphs(text: string): seq<string> {
    var lines := Split(text);
    seq(|lines|, i requires 0 <= i < |lines| => Paragraph(lines[i]))
  }

  /**
    One paragraph per newline-separated line: newlines + 1 of them, a blank
    line giving "" and any other line kept verbatim, spaces included.
   */
  lemma ParagraphsOfText(text: string)
    ensures |Paragraphs(text)| == multiset(text)[NEWLINE] + 1
    ensures |Paragraphs(text)| == |Split(text)|
    ensures forall i :: 0 <= i < |Split(text)| ==>
      Paragraphs(text)[i] == (if AllSpace(Split(text)[i]) then [] else Split(text)[i])
  {
    SplitCount(text);
  }

  /** The loop of `convert_text_to_docx` that adds one paragraph per line. */
  method BuildDocument(text: string) returns (doc: seq<string>)
    ensures doc == Paragraphs(text)
  {
    var lines := Split(text);
    doc := [];
    for i := 0 to |lines|
      invariant |doc| == i
      invariant forall j :: 0 <= j < i ==> doc[j] == Paragraph(lines[j])
    {
      StripEmptyIff(lines[i]);
      if Strip(lines[i]) == [] {
        doc := doc + [[]];
      } else {
        doc := doc + [lines[i]];
      }
    }
  }

  /** `'\n'.join` of one more piece appends a newline and that piece. */
  lemma {:induction false} JoinLinesSnoc(parts: seq<string>, last: string)
    requires |parts| >= 1
    ensures JoinLines(parts + [last]) == JoinLines(parts) + [NEWLINE] + last
    decreases |parts|
  {
    var all := parts + [last];
    assert all[1..] == parts[1..] + [last];
    if |parts| > 1 {
      JoinLinesSnoc(parts[1..], last);
    }
  }

  /** A trailing newline adds one final empty paragraph (so "Hello\n\nWorld\n" gives four). */
  lemma TrailingNewline(text: string)
    ensures Split(text + [NEWLINE]) == Split(text) + [[]]
    ensures Paragraphs(text + [NEWLINE]) == Paragraphs(text) + [[]]
  {
    var parts := Split(text) + [[]];
    JoinSplit(text);
    JoinLinesSnoc(Split(text), []);
    assert JoinLines(parts) == text + [NEWLINE];
    SplitJoin(parts);
  }

  /**
    Two non-blank lines around a blank one, newline-terminated, give four
    paragraphs: the first line, "", the second line and a final "".
   */
  lemma BlankAndTrailingLines(a: string, b: string)
    requires NEWLINE !in a && NEWLINE !in b
    requires !AllSpace(a) && !AllSpace(b)
    ensures Paragraphs(a + [NEWLINE] + [NEWLINE] + b + [NEWLINE]) == [a, [], b, []]
  {
    var parts := [a, [], b, []];
    assert JoinLines(parts[3..]) == [];
    assert JoinLines(parts[2..]) == b + [NEWLINE] + [];
    assert JoinLines(parts[1..]) == [] + [NEWLINE] + (b + [NEWLINE]);
    var text := a + [NEWLINE] + [NEWLINE] + b + [NEWLINE];
    assert JoinLines(parts) == text;
    ParagraphsOfLines(parts);
    var ps := Paragraphs(text);
    assert |ps| == 4 && ps[0] == Paragraph(a) && ps[1] == [] && ps[2] == Paragraph(b) && ps[3] == [];
    assert ps == parts;
  }

  /** The paragraphs of joined newline-free lines are those lines, each blanked when blank. */
  lemma ParagraphsOfLines(lines: seq<string>)
    requires |lines| >= 1
    requires forall i :: 0 <= i < |lines| ==> NEWLINE !in lines[i]
    ensures Paragraphs(JoinLines(lines)) == seq(|lines|, i requires 0 <= i < |lines| => Paragraph(lines[i]))
  {
    SplitJoin(lines);
  }
}
