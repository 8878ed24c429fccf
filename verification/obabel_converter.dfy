/** The subprocess backend (`Obabel_converter.convert` and `run_obabel`).

A conversion becomes one run of the `obabel` program. The model builds its
argument list, and judges its result from the exit status and the captured
standard error: `obabel` exits with 0 even when it converted nothing, so the
authoritative failure signal is the message `0 molecules converted`. Running
the program is a parameter `exec` from an argument list to its result.
 */
module ObabelConverter {
  import opened Results
  import opened Text
  import opened Backends

  const Executable: string := "obabel"

  /** The message `obabel` prints when it converted nothing. */
  const NoMolecules: string := "0 molecules converted"

  /** What a finished process leaves behind. */
  datatype Process = Process(returnCode: int, stdout: string, stderr: string)

  /** The fields one `obabel` run is built from. */
  datatype Invocation = Invocation(
    inputPath: Option<string>,
    outputType: string,
    inputType: string,
    gen3D: bool,
    addH: bool,
    outputFile: Option<string>)

  // ---------------------------------------------------------------------------
  // Options

  /** 3D generation is off unless asked for, except for ChemDraw input, which
      never carries 3D coordinates. */
  function DefaultGen3D(gen3D: Option<bool>, inputType: string): (g: bool)
    ensures gen3D.Some? ==> g == gen3D.value
    ensures gen3D.None? ==> (g <==> inputType in ChemDrawSpellings)
  {
    LowerIsChemDraw(inputType);
    if gen3D.Some? then gen3D.value else Lower(inputType) == ChemDrawType
  }

  /** The run a conversion makes; `charge` and `multiplicity` cannot be passed
      to `obabel` and are only warned about, so they do not appear. */
  function Plan(c: Converter, outType: Option<string>, outFile: Option<string>, gen3D: Option<bool>): (r: Result<Invocation>)
    requires c.inputType.Some?
    ensures r.Ok? <==> ResolveOutputType(outType, outFile).Ok?
    ensures r.Err? ==> r.error == ResolveOutputType(outType, outFile).error
    ensures r.Ok? ==> r.value.outputType == ResolveOutputType(outType, outFile).value
    ensures r.Ok? ==> r.value.inputType == c.inputType.value && r.value.outputFile == outFile
    ensures r.Ok? ==> r.value.inputPath == (if Truthy(c.inputPath) then c.inputPath else None)
    ensures r.Ok? ==> r.value.gen3D == DefaultGen3D(gen3D, c.inputType.value) && r.value.addH == c.addH
  {
    match ResolveOutputType(outType, outFile)
    case Err(e) => Err(e)
    case Ok(format) =>
      var path := if Truthy(c.inputPath) then c.inputPath else None;
      Ok(Invocation(path, format, c.inputType.value, DefaultGen3D(gen3D, c.inputType.value), c.addH, outFile))
  }

  // ---------------------------------------------------------------------------
  // The argument list

  /** 1 for a present optional argument, 0 for an absent one. */
  function Count(present: bool): nat {
    if present then 1 else 0
  }

  function Optional(present: bool, args: seq<string>): seq<string> {
    if present then args else []
  }

  /** `obabel [path] -o <out> -i <in> [--gen3D] [-h] [-O <file>]`. */
  function Argv(inv: Invocation): (argv: seq<string>)
    ensures |argv| == 5 + Count(inv.inputPath.Some?) + Count(inv.gen3D) + Count(inv.addH)
                        + 2 * Count(inv.outputFile.Some?)
    ensures argv[0] == Executable
  {
    [Executable]
    + (if inv.inputPath.Some? then [inv.inputPath.value] else [])
    + ["-o", inv.outputType, "-i", inv.inputType]
    + Optional(inv.gen3D, ["--gen3D"])
    + Optional(inv.addH, ["-h"])
    + (if inv.outputFile.Some? then ["-O", inv.outputFile.value] else [])
  }

  /** The flags after `-i <in>`: `[--gen3D] [-h] [-O <file>]`, in that order. */
  function ParseFlags(rest: seq<string>): Option<(bool, bool, Option<string>)> {
    var gen3D := |rest| > 0 && rest[0] == "--gen3D";
    var r1 := if gen3D then rest[1..] else rest;
    var addH := |r1| > 0 && r1[0] == "-h";
    var r2 := if addH then r1[1..] else r1;
    if r2 == [] then Some((gen3D, addH, None))
    else if |r2| == 2 && r2[0] == "-O" then Some((gen3D, addH, Some(r2[1])))
    else None
  }

  /** Reads an argument list of the shape `Argv` builds back into its fields. */
  function ParseArgv(argv: seq<string>): Option<Invocation> {
    if |argv| < 5 || argv[0] != Executable then None
    else
      var path := if argv[1] == "-o" then None else Some(argv[1]);
      var k := if path.None? then 1 else 2;
      if |argv| < k + 4 || argv[k] != "-o" || argv[k + 2] != "-i" then None
      else
        match ParseFlags(argv[k + 4..])
        case None => None
        case Some(flags) => Some(Invocation(path, argv[k + 1], argv[k + 3], flags.0, flags.1, flags.2))
  }

  // ---------------------------------------------------------------------------
  // Judging the run

  /** `0 molecules converted` starts at `i`, at a word boundary. */
  predicate NoMoleculesAt(stderr: string, i: int) {
    MatchAt(stderr, i, NoMolecules) && (i == 0 || !IsWordChar(stderr[i - 1]))
  }

  /** The search `\b0 molecules converted` finds something. */
  predicate ReportsNoMolecules(stderr: string) {
    exists i | 0 <= i <= |stderr| :: NoMoleculesAt(stderr, i)
  }

  /** The first position at which `stderr` reports that nothing was converted. */
  method SearchNoMolecules(stderr: string) returns (found: Option<nat>)
    ensures found.Some? ==> NoMoleculesAt(stderr, found.value)
    ensures found.Some? ==> forall j :: 0 <= j < found.value ==> !NoMoleculesAt(stderr, j)
    ensures found.None? <==> !ReportsNoMolecules(stderr)
  {
    var i := 0;
    while i + |NoMolecules| <= |stderr|
      invariant 0 <= i
      invariant forall j :: 0 <= j < i ==> !NoMoleculesAt(stderr, j)
    {
      if stderr[i..i + |NoMolecules|] == NoMolecules && (i == 0 || !IsWordChar(stderr[i - 1])) {
        assert NoMoleculesAt(stderr, i);
        return Some(i);
      }
      i := i + 1;
    }
    return None;
  }

  /** The outcome of a finished run: a non-zero exit status or a report that
      nothing was converted fails; otherwise the result is the standard output
      when no output file was named, and nothing when one was. */
  function Outcome(p: Process, outFile: Option<string>): (r: Result<Option<string>>)
    ensures r.Ok? <==> p.returnCode == 0 && !ReportsNoMolecules(p.stderr)
    ensures p.returnCode != 0 ==> r == Err(ProcessFailed(p.returnCode))
    ensures p.returnCode == 0 && ReportsNoMolecules(p.stderr) ==> r == Err(ConversionFailed(p.stderr))
    ensures r.Ok? ==> (r.value.Some? <==> outFile.None?)
    ensures r.Ok? && r.value.Some? ==> r.value.value == p.stdout
  {
    if p.returnCode != 0 then Err(ProcessFailed(p.returnCode))
    else if ReportsNoMolecules(p.stderr) then Err(ConversionFailed(p.stderr))
    else Ok(if outFile.None? then Some(p.stdout) else None)
  }

  /** One conversion through `obabel`. */
  function Convert(c: Converter, outType: Option<string>, outFile: Option<string>, gen3D: Option<bool>,
                   charge: Option<int>, multiplicity: Option<int>, exec: seq<string> -> Process): (r: Result<Option<string>>)
    requires c.inputType.Some?
    ensures Plan(c, outType, outFile, gen3D).Err? ==> r == Err(Plan(c, outType, outFile, gen3D).error)
    ensures Plan(c, outType, outFile, gen3D).Ok? ==>
              r == Outcome(exec(Argv(Plan(c, outType, outFile, gen3D).value)), outFile)
    ensures r.Ok? ==> (r.value.Some? <==> outFile.None?)
  {
    match Plan(c, outType, outFile, gen3D)
    case Err(e) => Err(e)
    case Ok(inv) => Outcome(exec(Argv(inv)), outFile)
  }

  // ---------------------------------------------------------------------------
  // Lemmas

  lemma ParseFlagsOfArgv(inv: Invocation)
    ensures ParseFlags(Optional(inv.gen3D, ["--gen3D"]) + Optional(inv.addH, ["-h"])
                       + (if inv.outputFile.Some? then ["-O", inv.outputFile.value] else []))
            == Some((inv.gen3D, inv.addH, inv.outputFile))
  {
    var o := if inv.outputFile.Some? then ["-O", inv.outputFile.value] else [];
    var h := Optional(inv.addH, ["-h"]) + o;
    var rest := Optional(inv.gen3D, ["--gen3D"]) + h;
    if inv.gen3D {
      assert rest[1..] == h;
    } else {
      assert rest == h;
    }
    if inv.addH {
      assert h[1..] == o;
    } else {
      assert h == o;
    }
  }

  /** Where each part of a run sits in its argument list; `k` is the index
      of `-o`. */
  lemma ArgvLayout(inv: Invocation)
    ensures var argv := Argv(inv);
            var k := if inv.inputPath.Some? then 2 else 1;
            |argv| >= k + 4 && argv[0] == Executable
            && (inv.inputPath.Some? ==> argv[1] == inv.inputPath.value)
            && argv[k] == "-o" && argv[k + 1] == inv.outputType
            && argv[k + 2] == "-i" && argv[k + 3] == inv.inputType
            && argv[k + 4..] == Optional(inv.gen3D, ["--gen3D"]) + Optional(inv.addH, ["-h"])
                                + (if inv.outputFile.Some? then ["-O", inv.outputFile.value] else [])
  {
    var flags := Optional(inv.gen3D, ["--gen3D"]) + Optional(inv.addH, ["-h"])
                 + (if inv.outputFile.Some? then ["-O", inv.outputFile.value] else []);
    var head := [Executable] + (if inv.inputPath.Some? then [inv.inputPath.value] else [])
                + ["-o", inv.outputType, "-i", inv.inputType];
    assert Argv(inv) == head + flags;
    assert Argv(inv)[|head|..] == flags;
  }

  /** Every converter adds hydrogens, so every `obabel` run of a converter
      made by `FromFile` passes `-h`, whether the formats are given or
      inferred from the file names. */
  lemma FromFileAddsHydrogens(havePybel: bool, inputFile: Option<Handle>, inputBuffer: Option<string>,
                              inputPath: Option<string>, inputType: Option<string>,
                              outType: Option<string>, outFile: Option<string>, gen3D: Option<bool>)
    requires FromFile(havePybel, inputFile, inputBuffer, inputPath, inputType).Ok?
    requires Plan(FromFile(havePybel, inputFile, inputBuffer, inputPath, inputType).value, outType, outFile, gen3D).Ok?
    ensures var c := FromFile(havePybel, inputFile, inputBuffer, inputPath, inputType).value;
            "-h" in Argv(Plan(c, outType, outFile, gen3D).value)
  {
    var c := FromFile(havePybel, inputFile, inputBuffer, inputPath, inputType).value;
    var inv := Plan(c, outType, outFile, gen3D).value;
    assert inv.addH;
    ArgvLayout(inv);
    var argv := Argv(inv);
    var k := if inv.inputPath.Some? then 2 else 1;
    var j := k + 4 + (if inv.gen3D then 1 else 0);
    assert argv[k + 4..][j - k - 4] == "-h";
  }

  /** Reading the argument list back recovers every field of the run, as long
      as the input path is not itself `-o`. */
  lemma ParseArgvInvertsArgv(inv: Invocation)
    requires inv.inputPath != Some("-o")
    ensures ParseArgv(Argv(inv)) == Some(inv)
  {
    ArgvLayout(inv);
    ParseFlagsOfArgv(inv);
  }

  /** Distinct runs give distinct argument lists, input paths `-o` aside. */
  lemma ArgvInjective(a: Invocation, b: Invocation)
    requires a.inputPath != Some("-o") && b.inputPath != Some("-o")
    requires Argv(a) == Argv(b)
    ensures a == b
  {
    ParseArgvInvertsArgv(a);
    ParseArgvInvertsArgv(b);
  }

  /** Why `-o` is excluded: as input path it makes two runs indistinguishable. */
  lemma DashOPathIsAmbiguous()
    ensures Argv(Invocation(Some("-o"), "-i", "-h", false, false, None))
            == Argv(Invocation(None, "-o", "-i", false, true, None))
  {
  }

  /** The message counts wherever it starts a word. */
  lemma ReportedAtBoundary(pre: string, post: string)
    requires pre == [] || !IsWordChar(pre[|pre| - 1])
    ensures ReportsNoMolecules(pre + NoMolecules + post)
  {
    var s := pre + NoMolecules + post;
    assert s[|pre|..|pre| + |NoMolecules|] == NoMolecules;
    if pre != [] {
      assert s[|pre| - 1] == pre[|pre| - 1];
    }
    assert NoMoleculesAt(s, |pre|);
  }

  /** A count that merely ends in 0, such as `10 molecules converted`, is
      not a failure. */
  lemma LongerCountIsNoReport(w: char)
    requires IsWordChar(w)
    ensures !ReportsNoMolecules([w] + NoMolecules)
  {
    var s := [w] + NoMolecules;
    forall i | 0 <= i <= |s|
      ensures !NoMoleculesAt(s, i)
    {
      if i == 0 {
        assert s[1] == '0' && NoMolecules[1] == ' ';
        assert s[0..|NoMolecules|][1] != NoMolecules[1];
      }
    }
  }

  /** `10 molecules converted` is a success, `0 molecules converted` a failure. */
  lemma CountExamples()
    ensures !ReportsNoMolecules("10 molecules converted")
    ensures ReportsNoMolecules("0 molecules converted")
  {
    assert "10 molecules converted" == ['1'] + NoMolecules;
    LongerCountIsNoReport('1');
    assert "0 molecules converted" == [] + NoMolecules + [];
    ReportedAtBoundary([], []);
  }

  /** A zero exit status does not save a run that converted nothing. */
  lemma ZeroExitStillFails(c: Converter, outType: string, outFile: Option<string>, gen3D: Option<bool>,
                           charge: Option<int>, multiplicity: Option<int>, exec: seq<string> -> Process)
    requires c.inputType.Some? && outType != ""
    requires exec(Argv(Plan(c, Some(outType), outFile, gen3D).value)).returnCode == 0
    requires ReportsNoMolecules(exec(Argv(Plan(c, Some(outType), outFile, gen3D).value)).stderr)
    ensures Convert(c, Some(outType), outFile, gen3D, charge, multiplicity, exec).Err?
    ensures Convert(c, Some(outType), outFile, gen3D, charge, multiplicity, exec).error.ConversionFailed?
  {
  }

  /** Charge and multiplicity have no effect on an `obabel` conversion. */
  lemma ChargeAndMultiplicityIgnored(c: Converter, outType: Option<string>, outFile: Option<string>, gen3D: Option<bool>,
                                     charge: Option<int>, multiplicity: Option<int>,
                                     charge': Option<int>, multiplicity': Option<int>, exec: seq<string> -> Process)
    requires c.inputType.Some?
    ensures Convert(c, outType, outFile, gen3D, charge, multiplicity, exec)
            == Convert(c, outType, outFile, gen3D, charge', multiplicity', exec)
  {
  }

  /** Unlike the binding, `obabel` accepts png without an output file and
      returns whatever standard output the run gives. */
  lemma PngToStandardOutput(c: Converter, gen3D: Option<bool>, exec: seq<string> -> Process)
    requires c.inputType.Some?
    requires exec(Argv(Plan(c, Some("png"), None, gen3D).value)).returnCode == 0
    requires !ReportsNoMolecules(exec(Argv(Plan(c, Some("png"), None, gen3D).value)).stderr)
    ensures Convert(c, Some("png"), None, gen3D, None, None, exec)
            == Ok(Some(exec(Argv(Plan(c, Some("png"), None, gen3D).value)).stdout))
  {
  }
}
