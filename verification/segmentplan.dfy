/** The cut plan of `convert`: one ffmpeg invocation that encodes every keep-range into its own
    temporary segment, a concat manifest listing the segments, the concat invocation, and the
    order in which files are touched. Exit codes and I/O failures are inputs. */
module SegmentPlan {
  import opened Wrappers
  import opened Strings
  import opened Intervals

  /** The configuration values the plan reads. */
  datatype Config = Config(ffmpeg: string, preset: string, crf: string, tempDir: string, debug: bool)

  /** One command-line argument: a literal word, or `str()` of a time given here in milliseconds
      (the decimal rendering of a Python float is not modelled). */
  datatype Arg = Word(s: string) | Seconds(ms: int)

  /** A keep-range and the segment file it is encoded into. */
  datatype Cut = Cut(range: KeepRange, out: string)

  /** The ten codec arguments that follow the times of every cut. */
  function Codec(cfg: Config): seq<Arg>
  {
    [Word("-c:v"), Word("libx264"), Word("-preset"), Word(cfg.preset), Word("-crf"), Word(cfg.crf),
     Word("-c:a"), Word("aac"), Word("-strict"), Word("-2")]
  }

  /** The range as its cut's arguments carry it: `cut_args` tests the end for truthiness, so an end
      of zero is dropped just like a missing one. */
  function Emitted(r: KeepRange): KeepRange
  {
    if r.end == Some(0) then KeepRange(r.start, None) else r
  }

  /** `cut_args`: the start, then `-to` and the end only when the end is truthy, then the codec
      arguments and the output name. */
  function CutArgs(r: KeepRange, outName: string, cfg: Config): seq<Arg>
  {
    [Word("-ss"), Seconds(r.start)]
    + (if r.end.Some? && r.end.value != 0 then [Word("-to"), Seconds(r.end.value)] else [])
    + Codec(cfg) + [Word(outName)]
  }

  /** A cut is 13 arguments when its end is missing or zero and 15 otherwise: `-ss` and the start,
      `-to` and the end exactly when the end is truthy, and the output name last. */
  lemma {:induction false} CutArgsShape(r: KeepRange, outName: string, cfg: Config)
    ensures var args := CutArgs(r, outName, cfg);
      && |args| == (if r.end.Some? && r.end.value != 0 then 15 else 13)
      && args[0] == Word("-ss") && args[1] == Seconds(r.start)
      && (args[2] == Word("-to") <==> r.end.Some? && r.end.value != 0)
      && (r.end.Some? && r.end.value != 0 ==> args[3] == Seconds(r.end.value))
      && args[|args| - 1] == Word(outName)
  {
  }

  /** `cut_args` as evidently intended: the end emitted whenever the range has one. */
  function CutArgsIntended(r: KeepRange, outName: string, cfg: Config): (args: seq<Arg>)
    ensures |args| == if r.end.Some? then 15 else 13
    ensures args[0] == Word("-ss") && args[1] == Seconds(r.start)
    ensures args[|args| - 1] == Word(outName)
  {
    [Word("-ss"), Seconds(r.start)]
    + (if r.end.Some? then [Word("-to"), Seconds(r.end.value)] else [])
    + Codec(cfg) + [Word(outName)]
  }

  /** Reads one cut's arguments back: start, optional end, the codec arguments, the output name. */
  function ParseCut(args: seq<Arg>, cfg: Config): Option<Cut>
  {
    if |args| == 13 && args[0] == Word("-ss") && args[1].Seconds? && args[2..12] == Codec(cfg) && args[12].Word? then
      Some(Cut(KeepRange(args[1].ms, None), args[12].s))
    else if |args| == 15 && args[0] == Word("-ss") && args[1].Seconds? && args[2] == Word("-to") && args[3].Seconds?
         && args[4..14] == Codec(cfg) && args[14].Word? then
      Some(Cut(KeepRange(args[1].ms, Some(args[3].ms)), args[14].s))
    else None
  }

  /** With the intended test, the arguments of a cut determine its range and output file. */
  lemma {:induction false} ParseCutArgsIntended(r: KeepRange, outName: string, cfg: Config)
    ensures ParseCut(CutArgsIntended(r, outName, cfg), cfg) == Some(Cut(r, outName))
  {
    var args := CutArgsIntended(r, outName, cfg);
    if r.end.Some? {
      assert args[4..14] == Codec(cfg);
    } else {
      assert args[2..12] == Codec(cfg);
    }
  }

  /** As written, a cut reads back as its range with an end of zero turned into no end at all; the
      two tests differ on exactly those ranges. */
  lemma {:induction false} ParseCutArgs(r: KeepRange, outName: string, cfg: Config)
    ensures ParseCut(CutArgs(r, outName, cfg), cfg) == Some(Cut(Emitted(r), outName))
    ensures CutArgs(r, outName, cfg) == CutArgsIntended(r, outName, cfg) <==> r.end != Some(0)
  {
    assert CutArgs(r, outName, cfg) == CutArgsIntended(Emitted(r), outName, cfg);
    ParseCutArgsIntended(Emitted(r), outName, cfg);
  }

  /** When the first commercial starts at time zero, the first keep-range is `(0, 0)`, and as written
      its cut has no end: the first segment runs from zero to the end of the recording. */
  lemma {:induction false} BreakAtZeroKeepsWholeRecording(cs: seq<Span>, outName: string, cfg: Config)
    requires |cs| > 0 && cs[0].start == 0
    ensures Gaps(cs)[0] == KeepRange(0, Some(0))
    ensures ParseCut(CutArgs(Gaps(cs)[0], outName, cfg), cfg) == Some(Cut(KeepRange(0, None), outName))
  {
    ParseCutArgs(Gaps(cs)[0], outName, cfg);
  }

  /** The arguments of the cuts, one after the other. */
  function CutsArgs(cuts: seq<Cut>, cfg: Config): seq<Arg>
  {
    if |cuts| == 0 then [] else CutArgs(cuts[0].range, cuts[0].out, cfg) + CutsArgs(cuts[1..], cfg)
  }

  lemma {:induction false} CutsArgsAppend(cuts: seq<Cut>, c: Cut, cfg: Config)
    ensures CutsArgs(cuts + [c], cfg) == CutsArgs(cuts, cfg) + CutArgs(c.range, c.out, cfg)
    decreases |cuts|
  {
    if |cuts| == 0 {
      assert CutsArgs([c], cfg) == CutArgs(c.range, c.out, cfg) + CutsArgs([], cfg);
    } else {
      assert (cuts + [c])[1..] == cuts[1..] + [c];
      CutsArgsAppend(cuts[1..], c, cfg);
    }
  }

  /** Reads consecutive cuts back, each one 13 or 15 arguments long depending on whether its third
      argument is `-to`. */
  function ParseCuts(args: seq<Arg>, cfg: Config): Option<seq<Cut>>
    decreases |args|
  {
    if |args| == 0 then Some([])
    else
      var n := if |args| > 2 && args[2] == Word("-to") then 15 else 13;
      if |args| < n then None
      else
        match ParseCut(args[..n], cfg)
        case None => None
        case Some(c) =>
          match ParseCuts(args[n..], cfg)
          case None => None
          case Some(rest) => Some([c] + rest)
  }

  /** The cuts as their arguments carry them: every end of zero dropped. */
  function EmittedCuts(cuts: seq<Cut>): (r: seq<Cut>)
    ensures |r| == |cuts|
    ensures forall i :: 0 <= i < |cuts| ==> r[i] == Cut(Emitted(cuts[i].range), cuts[i].out)
  {
    seq(|cuts|, i requires 0 <= i < |cuts| => Cut(Emitted(cuts[i].range), cuts[i].out))
  }

  /** The arguments of a list of cuts determine the cuts, in order, up to ends of zero, which read
      back as no end. */
  lemma {:induction false} ParseCutsArgs(cuts: seq<Cut>, cfg: Config)
    ensures ParseCuts(CutsArgs(cuts, cfg), cfg) == Some(EmittedCuts(cuts))
    decreases |cuts|
  {
    if |cuts| > 0 {
      var first := CutArgs(cuts[0].range, cuts[0].out, cfg);
      CutArgsShape(cuts[0].range, cuts[0].out, cfg);
      var args := CutsArgs(cuts, cfg);
      assert args == first + CutsArgs(cuts[1..], cfg);
      assert args[..|first|] == first;
      assert args[|first|..] == CutsArgs(cuts[1..], cfg);
      assert |args| > 2 && args[2] == first[2];
      assert first[2] == Word("-to") <==> Emitted(cuts[0].range).end.Some?;
      ParseCutArgs(cuts[0].range, cuts[0].out, cfg);
      ParseCutsArgs(cuts[1..], cfg);
      assert [EmittedCuts(cuts)[0]] + EmittedCuts(cuts[1..]) == EmittedCuts(cuts);
    }
  }

  /** The encode invocation: the input file, then every cut. */
  function EncodeCommand(cfg: Config, inFile: string, cuts: seq<Cut>): seq<Arg>
  {
    [Word(cfg.ffmpeg), Word("-i"), Word(inFile)] + CutsArgs(cuts, cfg)
  }

  /** Reads the encode invocation back into its input file and cuts. */
  function ParseEncodeCommand(args: seq<Arg>, cfg: Config): Option<(string, seq<Cut>)>
  {
    if |args| >= 3 && args[0] == Word(cfg.ffmpeg) && args[1] == Word("-i") && args[2].Word? then
      match ParseCuts(args[3..], cfg)
      case None => None
      case Some(cuts) => Some((args[2].s, cuts))
    else None
  }

  /** The encode invocation determines the input file and every cut, in order, up to ends of zero,
      which read back as no end. */
  lemma {:induction false} ParseEncode(cfg: Config, inFile: string, cuts: seq<Cut>)
    ensures ParseEncodeCommand(EncodeCommand(cfg, inFile, cuts), cfg) == Some((inFile, EmittedCuts(cuts)))
  {
    assert EncodeCommand(cfg, inFile, cuts)[3..] == CutsArgs(cuts, cfg);
    ParseCutsArgs(cuts, cfg);
  }

  /** For sorted breaks, the truthiness test changes no keep-range exactly when the first break
      starts after time zero: every later range ends at a break that starts no earlier. */
  lemma {:induction false} EmittedGaps(cs: seq<Span>)
    requires Sorted(cs) && |cs| > 0
    ensures (forall j :: 0 <= j < |Gaps(cs)| ==> Emitted(Gaps(cs)[j]) == Gaps(cs)[j]) <==> cs[0].start != 0
  {
    if cs[0].start != 0 {
      forall j | 0 <= j < |Gaps(cs)|
        ensures Emitted(Gaps(cs)[j]) == Gaps(cs)[j]
      {
        assert Gaps(cs)[j] == GapAt(cs, j);
        if 0 < j < |cs| {
          SortedChain(cs, 0, j);
        }
      }
    } else {
      assert Gaps(cs)[0] == KeepRange(0, Some(0));
    }
  }

  /** When the first break starts after time zero, the encode invocation carries every keep-range
      exactly, each into its own segment file. */
  lemma {:induction false} EncodeCarriesGaps(cfg: Config, inFile: string, cs: seq<Span>, temps: seq<string>)
    requires Sorted(cs) && |cs| > 0 && cs[0].start != 0
    requires |temps| == GapCount(cs)
    ensures ParseEncodeCommand(EncodeCommand(cfg, inFile, Cuts(Gaps(cs), temps)), cfg) == Some((inFile, Cuts(Gaps(cs), temps)))
  {
    var cuts := Cuts(Gaps(cs), temps);
    ParseEncode(cfg, inFile, cuts);
    EmittedGaps(cs);
    assert EmittedCuts(cuts) == cuts;
  }

  /** The recording's base name with `.wtv` removed. */
  function WithoutExt(inFile: string): string
  {
    ReplaceAll(Basename(inFile), ".wtv", "")
  }

  /** The `i`-th segment file: `<temp dir>/<name>.<i>.mp4`. */
  function TempName(cfg: Config, woExt: string, i: nat): string
  {
    PathJoin(cfg.tempDir, woExt + "." + NatToString(i) + ".mp4")
  }

  /** Segment files of different indices are different files, so no segment overwrites another. */
  lemma {:induction false} TempNamesDistinct(cfg: Config, woExt: string, i: nat, j: nat)
    requires TempName(cfg, woExt, i) == TempName(cfg, woExt, j)
    ensures i == j
  {
    var a := woExt + "." + NatToString(i) + ".mp4";
    var b := woExt + "." + NatToString(j) + ".mp4";
    assert a[0] == b[0] by {
      if |woExt| > 0 {
        assert a[0] == woExt[0] && b[0] == woExt[0];
      }
    }
    if a[0] != '/' {
      PathJoinInjective(cfg.tempDir, a, b);
    }
    assert a == b;
    var p := |woExt| + 1;
    assert NatToString(i) == a[p..|a| - 4];
    assert NatToString(j) == b[p..|b| - 4];
    NatToStringInjective(i, j);
  }

  /** The cuts of the ranges, each paired with its segment file. */
  function Cuts(ranges: seq<KeepRange>, temps: seq<string>): (cuts: seq<Cut>)
    requires |ranges| == |temps|
    ensures |cuts| == |ranges|
    ensures forall i :: 0 <= i < |cuts| ==> cuts[i] == Cut(ranges[i], temps[i])
  {
    seq(|ranges|, i requires 0 <= i < |ranges| => Cut(ranges[i], temps[i]))
  }

  /** The segment files of `n` keep-ranges of a recording whose base name, without `.wtv`, is
      `woExt`. */
  function Temps(cfg: Config, woExt: string, n: nat): (temps: seq<string>)
    ensures |temps| == n
    ensures forall i :: 0 <= i < n ==> temps[i] == TempName(cfg, woExt, i)
  {
    seq(n, i requires 0 <= i < n => TempName(cfg, woExt, i))
  }

  /** Appending one cut to the cuts appends its arguments to the encode invocation. */
  lemma {:induction false} EncodeCommandAppend(cfg: Config, inFile: string, cuts: seq<Cut>, c: Cut)
    ensures EncodeCommand(cfg, inFile, cuts + [c]) == EncodeCommand(cfg, inFile, cuts) + CutArgs(c.range, c.out, cfg)
  {
    CutsArgsAppend(cuts, c, cfg);
  }

  /** Pairing one more range with one more segment file appends one cut. */
  lemma {:induction false} CutsAppend(ranges: seq<KeepRange>, temps: seq<string>, k: nat, t: string)
    requires |temps| == k < |ranges|
    ensures Cuts(ranges[..k + 1], temps + [t]) == Cuts(ranges[..k], temps) + [Cut(ranges[k], t)]
  {
  }

  /** Before the loop: no segment named yet, and the encode invocation names only the input. */
  lemma {:induction false} PlanStart(cfg: Config, inFile: string, ranges: seq<KeepRange>, names: seq<string>)
    requires |ranges| == |names|
    ensures names[..0] == []
    ensures [Word(cfg.ffmpeg), Word("-i"), Word(inFile)] == EncodeCommand(cfg, inFile, Cuts(ranges[..0], names[..0]))
  {
    assert Cuts(ranges[..0], names[..0]) == [];
  }

  /** One round of the segment loop: the next segment name extends the segment list and the encode
      invocation by that segment. */
  lemma {:induction false} PlanStep(cfg: Config, inFile: string, ranges: seq<KeepRange>, names: seq<string>, k: nat, args: seq<Arg>)
    requires k < |ranges| == |names|
    requires args == EncodeCommand(cfg, inFile, Cuts(ranges[..k], names[..k]))
    ensures names[..k] + [names[k]] == names[..k + 1]
    ensures args + CutArgs(ranges[k], names[k], cfg) == EncodeCommand(cfg, inFile, Cuts(ranges[..k + 1], names[..k + 1]))
  {
    assert names[..k + 1] == names[..k] + [names[k]];
    CutsAppend(ranges, names[..k], k, names[k]);
    EncodeCommandAppend(cfg, inFile, Cuts(ranges[..k], names[..k]), Cut(ranges[k], names[k]));
  }

  /** After the loop every range has its segment. */
  lemma {:induction false} PlanEnd(ranges: seq<KeepRange>, names: seq<string>, k: nat)
    requires k == |ranges| == |names|
    ensures ranges[..k] == ranges && names[..k] == names
  {
  }

  /** The next segment file is the one the segment list names. */
  lemma {:induction false} NextTemp(cfg: Config, woExt: string, n: nat, names: seq<string>, k: nat)
    requires names == Temps(cfg, woExt, n) && k < n
    ensures TempName(cfg, woExt, k) == names[k]
  {
  }

  /** The segment loop of `convert`, after the recording's base name has been stripped of `.wtv`:
      it names the segments and assembles the encode invocation. */
  method PlanSegments(cfg: Config, inFile: string, ranges: seq<KeepRange>) returns (args: seq<Arg>, temps: seq<string>)
    ensures temps == Temps(cfg, WithoutExt(inFile), |ranges|)
    ensures args == EncodeCommand(cfg, inFile, Cuts(ranges, temps))
  {
    var woExt := WithoutExt(inFile);
    args, temps := SegmentLoop(cfg, inFile, woExt, ranges);
  }

  /** The loop itself: segment `i` is named after the number of segments named before it, and each
      range's cut goes into the invocation as it is named. */
  method SegmentLoop(cfg: Config, inFile: string, woExt: string, ranges: seq<KeepRange>) returns (args: seq<Arg>, temps: seq<string>)
    ensures temps == Temps(cfg, woExt, |ranges|)
    ensures args == EncodeCommand(cfg, inFile, Cuts(ranges, temps))
  {
    ghost var names := Temps(cfg, woExt, |ranges|);
    PlanStart(cfg, inFile, ranges, names);
    args := [Word(cfg.ffmpeg), Word("-i"), Word(inFile)];
    temps := [];
    var k := 0;
    while k < |ranges|
      invariant 0 <= k <= |ranges|
      invariant temps == names[..k]
      invariant args == EncodeCommand(cfg, inFile, Cuts(ranges[..k], names[..k]))
    {
      var tempFile := TempName(cfg, woExt, |temps|);
      NextTemp(cfg, woExt, |ranges|, names, k);
      PlanStep(cfg, inFile, ranges, names, k, args);
      temps := temps + [tempFile];
      args := args + CutArgs(ranges[k], tempFile, cfg);
      k := k + 1;
    }
    PlanEnd(ranges, names, k);
  }

  /** One manifest line: `file '<path>'` and a newline. */
  function ManifestLine(path: string): string
  {
    "file '" + path + "'\n"
  }

  /** Reads a manifest line back into the path it names. */
  function ParseManifestLine(line: string): Option<string>
  {
    if |line| >= 8 && line[..6] == "file '" && line[|line| - 2..] == "'\n" then Some(line[6..|line| - 2]) else None
  }

  lemma {:induction false} ParseManifestLineOf(path: string)
    ensures ParseManifestLine(ManifestLine(path)) == Some(path)
  {
    var line := ManifestLine(path);
    assert line[..6] == "file '";
    assert line[|line| - 2..] == "'\n";
    assert line[6..|line| - 2] == path;
  }

  /** The manifest: one line per segment file, in segment order. */
  function Manifest(temps: seq<string>): (lines: seq<string>)
    ensures |lines| == |temps|
    ensures forall i :: 0 <= i < |temps| ==> ParseManifestLine(lines[i]) == Some(temps[i])
  {
    var lines := seq(|temps|, i requires 0 <= i < |temps| => ManifestLine(temps[i]));
    forall i | 0 <= i < |temps|
      ensures ParseManifestLine(lines[i]) == Some(temps[i])
    {
      ParseManifestLineOf(temps[i]);
    }
    lines
  }

  /** Where the manifest is written: the recording's base name with `wtv` replaced by `txt`, in the
      temp directory. */
  function ManifestPath(cfg: Config, inFile: string): string
  {
    PathJoin(cfg.tempDir, ReplaceAll(Basename(inFile), "wtv", "txt"))
  }

  /** The concat invocation joining the segments listed in the manifest into the output file. */
  function ConcatCommand(cfg: Config, manifest: string, outFile: string): seq<Arg>
  {
    [Word(cfg.ffmpeg), Word("-safe"), Word("0"), Word("-f"), Word("concat"), Word("-i"), Word(manifest),
     Word("-c:v"), Word("copy"), Word("-c:a"), Word("copy"), Word(outFile)]
  }

  /** A file-system or process step of `convert`. */
  datatype Action =
    | RemoveIfPresent(path: string)               // delete the file when it exists
    | WriteManifest(path: string, lines: seq<string>)
    | Run(args: seq<Arg>)                         // run a program and wait for its exit code
    | Remove(path: string)                        // delete the file; fails when it is missing

  /** What `convert` does: it raises, or it returns its boolean after performing some steps. */
  datatype Outcome = Raised | Returned(ok: bool, performed: seq<Action>)

  /** What `convert` prepares before running anything: the segment files, the manifest and its
      lines, and the two invocations. */
  datatype Plan = Plan(temps: seq<string>, manifest: string, lines: seq<string>, encode: seq<Arg>, concat: seq<Arg>)

  function PlanOf(cfg: Config, inFile: string, outFile: string, ranges: seq<KeepRange>): Plan
  {
    var temps := Temps(cfg, WithoutExt(inFile), |ranges|);
    var manifest := ManifestPath(cfg, inFile);
    Plan(temps, manifest, Manifest(temps), EncodeCommand(cfg, inFile, Cuts(ranges, temps)), ConcatCommand(cfg, manifest, outFile))
  }

  /** The encode invocation is never the concat invocation: their second arguments are `-i` and
      `-safe`. */
  lemma {:induction false} EncodeIsNotConcat(cfg: Config, inFile: string, cuts: seq<Cut>, manifest: string, outFile: string)
    ensures EncodeCommand(cfg, inFile, cuts) != ConcatCommand(cfg, manifest, outFile)
  {
    assert EncodeCommand(cfg, inFile, cuts)[1] == Word("-i");
  }

  /** The pieces of the plan, named. */
  lemma {:induction false} PlanParts(cfg: Config, inFile: string, outFile: string, ranges: seq<KeepRange>) returns (p: Plan)
    ensures p == PlanOf(cfg, inFile, outFile, ranges)
    ensures p.temps == Temps(cfg, WithoutExt(inFile), |ranges|)
    ensures p.manifest == ManifestPath(cfg, inFile)
    ensures p.concat == ConcatCommand(cfg, p.manifest, outFile)
    ensures p.encode != p.concat
  {
    var temps := Temps(cfg, WithoutExt(inFile), |ranges|);
    var manifest := ManifestPath(cfg, inFile);
    var cuts := Cuts(ranges, temps);
    p := Plan(temps, manifest, Manifest(temps), EncodeCommand(cfg, inFile, cuts), ConcatCommand(cfg, manifest, outFile));
    EncodeIsNotConcat(cfg, inFile, cuts, manifest, outFile);
  }

  /** How many steps a run takes when none fails: the stale-segment checks, the manifest and the
      encode; after a clean encode also the output check and the concat; outside debug mode also
      the removal of every segment and of the manifest. */
  function StepCount(n: nat, debug: bool, encodeExit: int): nat
  {
    n + 2 + (if encodeExit != 0 then 0 else if debug then 2 else n + 3)
  }

  /** Step `k` of the longest run, in the order `convert` performs them. */
  function StepAt(p: Plan, outFile: string, k: nat): Action
    requires k < 2 * |p.temps| + 5
  {
    var n := |p.temps|;
    if k < n then RemoveIfPresent(p.temps[k])
    else if k == n then WriteManifest(p.manifest, p.lines)
    else if k == n + 1 then Run(p.encode)
    else if k == n + 2 then RemoveIfPresent(outFile)
    else if k == n + 3 then Run(p.concat)
    else if k < 2 * n + 4 then Remove(p.temps[k - n - 4])
    else Remove(p.manifest)
  }

  /** The steps of `convert` when none fails: clear each stale segment, write the manifest, encode;
      stop there when the encoder's exit code is not zero; otherwise clear the output and concatenate,
      and outside debug mode delete every segment and then the manifest. The concat exit code is
      only logged, so it changes nothing. */
  function Steps(p: Plan, outFile: string, debug: bool, encodeExit: int): (steps: seq<Action>)
    ensures |steps| == StepCount(|p.temps|, debug, encodeExit)
    ensures forall k :: 0 <= k < |steps| ==> steps[k] == StepAt(p, outFile, k)
  {
    seq(StepCount(|p.temps|, debug, encodeExit), k requires 0 <= k < StepCount(|p.temps|, debug, encodeExit) => StepAt(p, outFile, k))
  }

  /** Carrying out a plan: a step that fails (`fault` is the index of the failing step) ends the run
      with `False` after the steps before it; otherwise the result is `True`. */
  function RunPlan(p: Plan, outFile: string, debug: bool, encodeExit: int, fault: Option<nat>): Outcome
  {
    var steps := Steps(p, outFile, debug, encodeExit);
    if fault.Some? && fault.value < |steps| then Returned(false, steps[..fault.value]) else Returned(true, steps)
  }

  /** `convert`. Inverting an empty commercial list fails before the `try`, so it raises. */
  function Convert(cfg: Config, inFile: string, outFile: string, commercials: seq<Span>, encodeExit: int, fault: Option<nat>): (o: Outcome)
    ensures o == Raised <==> |commercials| == 0
  {
    if |commercials| == 0 then Raised
    else RunPlan(PlanOf(cfg, inFile, outFile, Gaps(commercials)), outFile, cfg.debug, encodeExit, fault)
  }

  /** A `convert` that does not raise carries out the plan of the keep-ranges, which has one
      segment per keep-range. */
  lemma {:induction false} ConvertRunsPlan(cfg: Config, inFile: string, outFile: string, commercials: seq<Span>, encodeExit: int, fault: Option<nat>) returns (p: Plan)
    requires |commercials| > 0
    ensures p == PlanOf(cfg, inFile, outFile, Gaps(commercials))
    ensures |p.temps| == GapCount(commercials)
    ensures p.encode != p.concat
    ensures Convert(cfg, inFile, outFile, commercials, encodeExit, fault) == RunPlan(p, outFile, cfg.debug, encodeExit, fault)
  {
    p := PlanParts(cfg, inFile, outFile, Gaps(commercials));
  }

  /** A run performs a prefix of the steps: all of them exactly when no step fails. */
  lemma {:induction false} RunPlanPrefix(p: Plan, outFile: string, debug: bool, encodeExit: int, fault: Option<nat>, ok: bool, performed: seq<Action>)
    requires RunPlan(p, outFile, debug, encodeExit, fault) == Returned(ok, performed)
    ensures ok <==> fault.None? || fault.value >= StepCount(|p.temps|, debug, encodeExit)
    ensures |performed| <= StepCount(|p.temps|, debug, encodeExit)
    ensures ok ==> |performed| == StepCount(|p.temps|, debug, encodeExit)
    ensures forall k :: 0 <= k < |performed| ==> performed[k] == StepAt(p, outFile, k)
  {
  }

  /** In any run of a plan whose two invocations differ, a step that runs the concat comes after an
      encode that exited with zero. */
  lemma {:induction false} RunConcatOnlyAfterCleanEncode(p: Plan, outFile: string, debug: bool, encodeExit: int, fault: Option<nat>, ok: bool, performed: seq<Action>)
    requires p.encode != p.concat
    requires RunPlan(p, outFile, debug, encodeExit, fault) == Returned(ok, performed)
    ensures forall k :: 0 <= k < |performed| && performed[k] == Run(p.concat) ==> encodeExit == 0 && k == |p.temps| + 3
  {
    RunPlanPrefix(p, outFile, debug, encodeExit, fault, ok, performed);
  }

  /** The concat step runs only after an encode that exited with zero. */
  lemma {:induction false} ConcatOnlyAfterCleanEncode(cfg: Config, inFile: string, outFile: string, commercials: seq<Span>, encodeExit: int,
                                   fault: Option<nat>)
    ensures var o := Convert(cfg, inFile, outFile, commercials, encodeExit, fault);
      o.Returned? ==> forall k :: 0 <= k < |o.performed| && o.performed[k] == Run(ConcatCommand(cfg, ManifestPath(cfg, inFile), outFile)) ==> encodeExit == 0
  {
    if |commercials| > 0 {
      var p := ConvertRunsPlan(cfg, inFile, outFile, commercials, encodeExit, fault);
      var o := Convert(cfg, inFile, outFile, commercials, encodeExit, fault);
      RunConcatOnlyAfterCleanEncode(p, outFile, cfg.debug, encodeExit, fault, o.ok, o.performed);
    }
  }

  /** Without a failing step, `convert` reports success even when the encoder fails; the run then
      ends with the encode. */
  lemma {:induction false} ConvertIgnoresEncodeFailure(cfg: Config, inFile: string, outFile: string, commercials: seq<Span>, encodeExit: int, ok: bool, performed: seq<Action>)
    requires encodeExit != 0
    requires Convert(cfg, inFile, outFile, commercials, encodeExit, None) == Returned(ok, performed)
    ensures ok
    ensures |performed| == GapCount(commercials) + 2
    ensures performed[|performed| - 1] == Run(PlanOf(cfg, inFile, outFile, Gaps(commercials)).encode)
  {
    assert |commercials| > 0;
    var p := ConvertRunsPlan(cfg, inFile, outFile, commercials, encodeExit, None);
    RunPlanPrefix(p, outFile, cfg.debug, encodeExit, None, ok, performed);
  }

  /** Outside debug mode, a run with a clean encode and no failing step ends with the concat, the
      removal of every segment and the removal of the manifest. */
  lemma {:induction false} RunCleanRemovesTemporaries(p: Plan, outFile: string, ok: bool, performed: seq<Action>)
    requires RunPlan(p, outFile, false, 0, None) == Returned(ok, performed)
    ensures ok
    ensures var n := |p.temps|;
      && |performed| == 2 * n + 5
      && performed[n + 3] == Run(p.concat)
      && (forall i :: 0 <= i < n ==> performed[n + 4 + i] == Remove(p.temps[i]))
      && performed[2 * n + 4] == Remove(p.manifest)
  {
    RunPlanPrefix(p, outFile, false, 0, None, ok, performed);
  }

  /** In debug mode nothing is ever deleted after the encode: the segments and the manifest stay. */
  lemma {:induction false} DebugKeepsTemporaries(p: Plan, outFile: string, encodeExit: int, fault: Option<nat>, ok: bool, performed: seq<Action>)
    requires RunPlan(p, outFile, true, encodeExit, fault) == Returned(ok, performed)
    ensures forall k :: 0 <= k < |performed| ==> !performed[k].Remove?
  {
    RunPlanPrefix(p, outFile, true, encodeExit, fault, ok, performed);
  }
}
