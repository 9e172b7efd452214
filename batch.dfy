/**
  The batch orchestrator, `batch_convert`: expand every specifier with glob,
  stop early when nothing matched, create the output directory, resolve one
  output path per expanded file and convert each in turn, collecting the
  paths of the conversions that succeeded. Also the output-count check the
  command line makes before calling it.
 */
module Batch {
  import opened Optional
  import opened PyPath
  import opened Text
  import opened Converter

  /** The expanded input list: each specifier's glob matches, specifiers in order. */
  function Expand(env: Env, specs: seq<string>): seq<string>
    decreases |specs|
  {
    if specs == [] then [] else Expand(env, specs[..|specs| - 1]) + env.glob(specs[|specs| - 1])
  }

  /** Expanding two lists of specifiers one after the other is expanding their concatenation. */
  lemma {:induction false} ExpandConcat(env: Env, a: seq<string>, b: seq<string>)
    ensures Expand(env, a + b) == Expand(env, a) + Expand(env, b)
    decreases |b|
  {
    if b == [] {
      assert a + b == a;
    } else {
      var b' := b[..|b| - 1];
      assert (a + b)[..|a + b| - 1] == a + b';
      ExpandConcat(env, a, b');
    }
  }

  /** A specifier that matches nothing contributes nothing. */
  lemma UnmatchedContributesNothing(env: Env, a: seq<string>, spec: string, b: seq<string>)
    requires env.glob(spec) == []
    ensures Expand(env, a + [spec] + b) == Expand(env, a + b)
  {
    ExpandConcat(env, a + [spec], b);
    ExpandConcat(env, a, [spec]);
    ExpandConcat(env, a, b);
    assert Expand(env, [spec]) == Expand(env, []) + env.glob(spec);
  }

  /** A path is expanded exactly when some specifier's glob matches it. */
  lemma {:induction false} ExpandMembership(env: Env, specs: seq<string>, x: string)
    ensures x in Expand(env, specs) <==> exists i :: 0 <= i < |specs| && x in env.glob(specs[i])
    decreases |specs|
  {
    if specs != [] {
      var init := specs[..|specs| - 1];
      ExpandMembership(env, init, x);
      if x in Expand(env, init) {
        var i :| 0 <= i < |init| && x in env.glob(init[i]);
        assert specs[i] == init[i];
      }
      if exists i :: 0 <= i < |specs| && x in env.glob(specs[i]) {
        var i :| 0 <= i < |specs| && x in env.glob(specs[i]);
        if i < |init| {
          assert init[i] == specs[i];
        }
      }
    }
  }

  /** Nothing expands exactly when every specifier matches nothing. */
  lemma {:induction false} ExpandEmptyIff(env: Env, specs: seq<string>)
    ensures Expand(env, specs) == [] <==> forall i :: 0 <= i < |specs| ==> env.glob(specs[i]) == []
    decreases |specs|
  {
    if specs != [] {
      var init := specs[..|specs| - 1];
      ExpandEmptyIff(env, init);
      if forall i :: 0 <= i < |specs| ==> env.glob(specs[i]) == [] {
        assert forall i :: 0 <= i < |init| ==> env.glob(init[i]) == [] by {
          forall i | 0 <= i < |init| ensures env.glob(init[i]) == [] {
            assert init[i] == specs[i];
          }
        }
      }
    }
  }

  /** The loop of `batch_convert` that flattens the glob matches of every specifier. */
  method ExpandSpecifiers(env: Env, specs: seq<string>) returns (expanded: seq<string>)
    ensures expanded == Expand(env, specs)
  {
    expanded := [];
    for i := 0 to |specs|
      invariant expanded == Expand(env, specs[..i])
    {
      assert specs[..i + 1][..i] == specs[..i];
      var matches := env.glob(specs[i]);
      if matches != [] {
        expanded := expanded + matches;
      }
    }
    assert specs[..|specs|] == specs;
  }

  /** `output_files` is truthy and has an entry at position `i`. */
  predicate HasExplicit(outputFiles: Option<seq<string>>, i: nat) {
    outputFiles.Some? && |outputFiles.value| > 0 && i < |outputFiles.value|
  }

  /** `output_dir` is truthy: given and not "". */
  predicate HasDir(outputDir: Option<string>) {
    outputDir.Some? && outputDir.value != []
  }

  /** The output path of expanded file `i`, whose path is `input`. */
  function ResolveOutput(i: nat, input: string, outputDir: Option<string>, outputFiles: Option<seq<string>>): string {
    if HasExplicit(outputFiles, i) then outputFiles.value[i]
    else
      var name := Stem(Basename(input));
      if HasDir(outputDir) then Join(outputDir.value, name + DOCX_EXT)
      else Stem(input) + DOCX_EXT
  }

  /**
    The precedence of output paths: an explicit entry verbatim; else a file
    in the output directory named like the default output; else the default
    output beside the input, the same path the single-file converter picks.
   */
  lemma ResolveOutputPrecedence(i: nat, input: string, outputDir: Option<string>, outputFiles: Option<seq<string>>)
    ensures HasExplicit(outputFiles, i) ==> ResolveOutput(i, input, outputDir, outputFiles) == outputFiles.value[i]
    ensures !HasExplicit(outputFiles, i) && HasDir(outputDir) ==>
      && DirPrefix(ResolveOutput(i, input, outputDir, outputFiles)) == AsDir(outputDir.value)
      && Basename(ResolveOutput(i, input, outputDir, outputFiles)) == Basename(DefaultOutput(input))
    ensures !HasExplicit(outputFiles, i) && !HasDir(outputDir) ==>
      ResolveOutput(i, input, outputDir, outputFiles) == OutputFor(input, None)
  {
    if !HasExplicit(outputFiles, i) && HasDir(outputDir) {
      NamePartOfDefault(input);
      JoinSplitsBack(outputDir.value, Stem(Basename(input)) + DOCX_EXT);
      DefaultOutputShape(input);
    }
  }

  /** The resolved output path of every expanded file, in order. */
  function Outputs(expanded: seq<string>, outputDir: Option<string>, outputFiles: Option<seq<string>>): (outs: seq<string>)
    ensures |outs| == |expanded|
  {
    seq(|expanded|, i requires 0 <= i < |expanded| => ResolveOutput(i, expanded[i], outputDir, outputFiles))
  }

  /** The conversion of every expanded file to its resolved output. */
  function Outcomes(env: Env, expanded: seq<string>, outs: seq<string>): (cs: seq<Conversion>)
    requires |outs| == |expanded|
    ensures |cs| == |expanded|
  {
    seq(|expanded|, i requires 0 <= i < |expanded| => Convert(env, expanded[i], Some(outs[i])))
  }

  /** `if result:`: the conversion returned a path, and that path is not "". */
  predicate Succeeded(c: Conversion) {
    c.Returned().Some? && c.Returned().value != []
  }

  /** `successful_conversions`: the returned paths of the succeeded conversions, appended in order. */
  function Collected(cs: seq<Conversion>): seq<string>
    decreases |cs|
  {
    if cs == [] then []
    else
      var last := cs[|cs| - 1];
      Collected(cs[..|cs| - 1]) + (if Succeeded(last) then [last.output] else [])
  }

  /** The positions of the succeeded conversions, in increasing order. */
  function SuccessIndices(cs: seq<Conversion>): (idx: seq<nat>)
    ensures |idx| <= |cs|
    ensures forall k :: 0 <= k < |idx| ==> idx[k] < |cs| && Succeeded(cs[idx[k]])
    ensures forall k, l :: 0 <= k < l < |idx| ==> idx[k] < idx[l]
    ensures forall i :: 0 <= i < |cs| && Succeeded(cs[i]) ==> i in idx
    decreases |cs|
  {
    if cs == [] then []
    else
      var init := SuccessIndices(cs[..|cs| - 1]);
      assert forall k :: 0 <= k < |init| ==> cs[..|cs| - 1][init[k]] == cs[init[k]];
      init + (if Succeeded(cs[|cs| - 1]) then [|cs| - 1] else [])
  }

  /** The collected paths are exactly the outputs of the succeeded conversions, in order. */
  lemma {:induction false} CollectedAtSuccesses(cs: seq<Conversion>)
    ensures |Collected(cs)| == |SuccessIndices(cs)|
    ensures forall k :: 0 <= k < |Collected(cs)| ==> Collected(cs)[k] == cs[SuccessIndices(cs)[k]].output
    decreases |cs|
  {
    if cs != [] {
      var init := cs[..|cs| - 1];
      CollectedAtSuccesses(init);
      forall k | 0 <= k < |SuccessIndices(init)| ensures init[SuccessIndices(init)[k]] == cs[SuccessIndices(init)[k]] {
      }
    }
  }

  /** What a batch run reports: the converted paths, the "of M" count, and whether it created the output directory. */
  datatype Report = Report(converted: seq<string>, attempted: nat, createdDir: bool)

  /** The run `batch_convert(specs, output_dir, output_files)` performs in `env`. */
  function Batch(env: Env, specs: seq<string>, outputDir: Option<string>, outputFiles: Option<seq<string>>): Report {
    var expanded := Expand(env, specs);
    if expanded == [] then Report([], 0, false)
    else
      var outs := Outputs(expanded, outputDir, outputFiles);
      Report(Collected(Outcomes(env, expanded, outs)), |expanded|, HasDir(outputDir) && !env.pathExists(outputDir.value))
  }

  /**
    The returned list is an ordered subsequence of the resolved outputs,
    holding exactly the outputs of the files whose conversion succeeded
    (SuccessIndices lists those positions, in increasing order), so that in
    "N of M" N is at most M, M being the expanded count.
   */
  lemma BatchConvertedAreSuccesses(env: Env, specs: seq<string>, outputDir: Option<string>, outputFiles: Option<seq<string>>)
    ensures var r := Batch(env, specs, outputDir, outputFiles);
      var expanded := Expand(env, specs);
      var outs := Outputs(expanded, outputDir, outputFiles);
      var idx := SuccessIndices(Outcomes(env, expanded, outs));
      && r.attempted == |expanded|
      && |r.converted| <= r.attempted
      && |r.converted| == |idx|
      && forall k :: 0 <= k < |idx| ==> r.converted[k] == outs[idx[k]]
  {
    var expanded := Expand(env, specs);
    var outs := Outputs(expanded, outputDir, outputFiles);
    CollectedOutputs(env, expanded, outs);
  }

  /** Collecting over the conversions to `outs` picks `outs` at the succeeded positions. */
  lemma CollectedOutputs(env: Env, expanded: seq<string>, outs: seq<string>)
    requires |outs| == |expanded|
    ensures var cs := Outcomes(env, expanded, outs);
      && |Collected(cs)| == |SuccessIndices(cs)|
      && forall k :: 0 <= k < |SuccessIndices(cs)| ==> Collected(cs)[k] == outs[SuccessIndices(cs)[k]]
  {
    var cs := Outcomes(env, expanded, outs);
    var idx := SuccessIndices(cs);
    CollectedAtSuccesses(cs);
    forall k | 0 <= k < |idx| ensures cs[idx[k]].output == outs[idx[k]] {
      ConvertOutcome(env, expanded[idx[k]], Some(outs[idx[k]]));
    }
  }

  /** When nothing expands, the run reports nothing, attempts nothing and creates no directory. */
  lemma NothingExpanded(env: Env, specs: seq<string>, outputDir: Option<string>, outputFiles: Option<seq<string>>)
    ensures (forall i :: 0 <= i < |specs| ==> env.glob(specs[i]) == []) <==>
      Batch(env, specs, outputDir, outputFiles).attempted == 0
    ensures Batch(env, specs, outputDir, outputFiles).attempted == 0 ==>
      Batch(env, specs, outputDir, outputFiles) == Report([], 0, false)
  {
    ExpandEmptyIff(env, specs);
  }

  /** `batch_convert`: expansion, the early return, directory creation, then one conversion per expanded file. */
  method BatchConvert(env: Env, specs: seq<string>, outputDir: Option<string>, outputFiles: Option<seq<string>>)
    returns (report: Report)
    ensures report == Batch(env, specs, outputDir, outputFiles)
  {
    var expanded := ExpandSpecifiers(env, specs);
    if expanded == [] {
      return Report([], 0, false);
    }
    var createdDir := HasDir(outputDir) && !env.pathExists(outputDir.value);
    ghost var outs := Outputs(expanded, outputDir, outputFiles);
    ghost var cs := Outcomes(env, expanded, outs);
    var converted := [];
    for i := 0 to |expanded|
      invariant converted == Collected(cs[..i])
    {
      var outputFile := ResolveOutput(i, expanded[i], outputDir, outputFiles);
      var result := ConvertTextToDocx(env, expanded[i], Some(outputFile));
      assert result == cs[i];
      assert cs[..i + 1][..i] == cs[..i];
      if Succeeded(result) {
        converted := converted + [result.output];
      }
    }
    assert cs[..|expanded|] == cs;
    report := Report(converted, |expanded|, createdDir);
  }

  /** The command line's check: an output list, when given and not empty, must be as long as the list of specifiers. */
  predicate OutputCountAccepted(specs: seq<string>, output: Option<seq<string>>) {
    !(output.Some? && |output.value| > 0 && |output.value| != |specs|)
  }

  /** `main` after argument parsing: reject a mismatched output list before any batch work, else run the batch. */
  method RunCommandLine(env: Env, specs: seq<string>, outputDir: Option<string>, output: Option<seq<string>>)
    returns (r: Option<Report>)
    ensures r.None? <==> (output.Some? && |output.value| > 0 && |output.value| != |specs|)
    ensures r.Some? ==> r.value == Batch(env, specs, outputDir, output)
  {
    if !OutputCountAccepted(specs, output) {
      return None;
    }
    var report := BatchConvert(env, specs, outputDir, output);
    r := Some(report);
  }

  /**
    The check counts specifiers but the outputs are matched to expanded
    files: the two agree when every specifier matches exactly one file.
   */
  lemma {:induction false} AlignedWhenEachMatchesOne(env: Env, specs: seq<string>, outputDir: Option<string>, output: seq<string>)
    requires |output| > 0 && OutputCountAccepted(specs, Some(output))
    requires forall i :: 0 <= i < |specs| ==> |env.glob(specs[i])| == 1
    ensures |Expand(env, specs)| == |specs|
    ensures forall i :: 0 <= i < |specs| ==>
      Expand(env, specs)[i] == env.glob(specs[i])[0] &&
      Outputs(Expand(env, specs), outputDir, Some(output))[i] == output[i]
  {
    OneMatchEach(env, specs);
  }

  /** When every specifier matches exactly one file, expanded file i is specifier i's match. */
  lemma {:induction false} OneMatchEach(env: Env, specs: seq<string>)
    requires forall i :: 0 <= i < |specs| ==> |env.glob(specs[i])| == 1
    ensures |Expand(env, specs)| == |specs|
    ensures forall i :: 0 <= i < |specs| ==> Expand(env, specs)[i] == env.glob(specs[i])[0]
    decreases |specs|
  {
    if specs != [] {
      var init := specs[..|specs| - 1];
      forall i | 0 <= i < |init| ensures |env.glob(init[i])| == 1 {
        assert init[i] == specs[i];
      }
      OneMatchEach(env, init);
      forall i | 0 <= i < |specs| ensures Expand(env, specs)[i] == env.glob(specs[i])[0] {
        if i < |init| {
          assert init[i] == specs[i];
        }
      }
    }
  }

  /**
    A specifier that matches two files shifts the outputs: the check passes
    (two outputs for two specifiers), yet the second match of the first
    specifier takes the output meant for the second specifier, whose own
    file falls back to its default name.
   */
  lemma MisalignedOutputs(env: Env, s1: string, s2: string, f1: string, f2: string, f3: string, o1: string, o2: string)
    requires env.glob(s1) == [f1, f2] && env.glob(s2) == [f3]
    ensures OutputCountAccepted([s1, s2], Some([o1, o2]))
    ensures Expand(env, [s1, s2]) == [f1, f2, f3]
    ensures Outputs(Expand(env, [s1, s2]), None, Some([o1, o2])) == [o1, o2, DefaultOutput(f3)]
  {
    ExpandTwo(env, s1, s2);
    var outs := Outputs([f1, f2, f3], None, Some([o1, o2]));
    assert outs == [outs[0], outs[1], outs[2]];
  }

  /**
    A specifier that matches nothing shifts the outputs the other way: the
    check passes (two outputs for two specifiers), yet the second
    specifier's file takes the first output and the second output is never
    used.
   */
  lemma UnmatchedShiftsOutputs(env: Env, s1: string, s2: string, f2: string, o1: string, o2: string)
    requires env.glob(s1) == [] && env.glob(s2) == [f2]
    ensures OutputCountAccepted([s1, s2], Some([o1, o2]))
    ensures Expand(env, [s1, s2]) == [f2]
    ensures Outputs(Expand(env, [s1, s2]), None, Some([o1, o2])) == [o1]
  {
    ExpandTwo(env, s1, s2);
    var outs := Outputs([f2], None, Some([o1, o2]));
    assert outs == [outs[0]];
  }

  /**
    A literal specifier for a missing file matches nothing, so it is not
    counted: converting a present one-line file and a missing one reports
    one path of one attempted file ("1 of 1"), the default output of the
    present file.
   */
  lemma MissingLiteralNotCounted(env: Env, present: string, missing: string, line: string)
    requires env.glob(present) == [present] && env.glob(missing) == []
    requires env.isFile(present) && env.contents(present) == Some(line)
    requires NEWLINE !in line && !AllSpace(line)
    requires env.saves(DefaultOutput(present), [line])
    ensures Batch(env, [present, missing], None, None) == Report([DefaultOutput(present)], 1, false)
  {
    ExpandTwo(env, present, missing);
    assert Expand(env, [present, missing]) == [present];
    var outs := Outputs([present], None, None);
    assert outs == [DefaultOutput(present)];
    OneLineConversion(env, present, DefaultOutput(present), line);
    var cs := Outcomes(env, [present], outs);
    assert cs == [Convert(env, present, Some(DefaultOutput(present)))];
    DefaultOutputShape(present);
    assert Collected(cs) == Collected([]) + [DefaultOutput(present)];
  }

  /** A file holding one non-blank line converts to a document of that one paragraph. */
  lemma OneLineConversion(env: Env, input: string, output: string, line: string)
    requires env.isFile(input) && env.contents(input) == Some(line)
    requires NEWLINE !in line && !AllSpace(line)
    requires env.saves(output, [line])
    ensures Convert(env, input, Some(output)) == Saved(output, [line])
  {
    ParagraphsOfLines([line]);
    StripEmptyIff(line);
    assert Paragraphs(line) == [line];
  }

  /** Expanding two specifiers concatenates their glob matches. */
  lemma ExpandTwo(env: Env, s1: string, s2: string)
    ensures Expand(env, [s1, s2]) == env.glob(s1) + env.glob(s2)
  {
    ExpandConcat(env, [s1], [s2]);
    assert [s1] + [s2] == [s1, s2];
    assert Expand(env, [s1]) == Expand(env, []) + env.glob(s1);
    assert Expand(env, [s2]) == Expand(env, []) + env.glob(s2);
  }
}
