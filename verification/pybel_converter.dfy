/** The in-process backend (`Pybel_converter.convert`).

Everything that happens inside the binding (reading, 3D generation, adding
hydrogens, writing, drawing) is opaque. What is modelled is the decision logic
around it: which checks reject the call, where the molecule is read from, which
steps are requested, and whether the call returns the converted text. The
outcome of reading is an input: the dimensionality of the first molecule the
binding read, or `None` when it read none.
 */
module PybelConverter {
  import opened Results
  import opened Text
  import opened Backends

  /** The image format, which the binding can only draw into a file. */
  const PngType: string := "png"

  /** Where the binding reads the molecule from. */
  datatype ReadSource =
    | ReadString(format: string, text: string)   // `pybel.readstring`
    | ReadFile(format: string, path: string)     // first molecule of `pybel.readfile`

  /** How the molecule leaves the binding. */
  datatype Output =
    | Draw(image: string)                         // `molecule.draw`, png only
    | Write(format: string, target: Option<string>) // `molecule.write`, overwriting

  /** The binding calls one conversion makes, in order. */
  datatype Plan = Plan(
    source: ReadSource,
    charge: Option<int>,
    multiplicity: Option<int>,
    generate3D: bool,
    addH: bool,
    output: Output)

  /** The converted text is returned, rather than written to a file. */
  predicate ReturnsContent(p: Plan) {
    p.output.Write? && p.output.target.None?
  }

  /** Python's `str` of an optional path. */
  function PyStr(p: Option<string>): string {
    if p.Some? then p.value else "None"
  }

  /** 3D generation is attempted unless the caller switched it off. */
  function DefaultGen3D(gen3D: Option<bool>): (g: bool)
    ensures g <==> gen3D != Some(false)
  {
    if gen3D.Some? then gen3D.value else true
  }

  /** The text held by the open file, else the buffer; `None` for neither. */
  function Loaded(c: Converter): Option<string> {
    if c.inputFile.Some? then Some(c.inputFile.value.content)
    else if Truthy(c.inputBuffer) then c.inputBuffer
    else None
  }

  /** An open file or a non-empty buffer is read from memory; otherwise the
      binding reads the path (and an empty open file falls through to it). */
  function Source(c: Converter, format: string): (s: ReadSource)
    ensures s.format == format
    ensures s.ReadString? <==> (if c.inputFile.Some? then c.inputFile.value.content != "" else Truthy(c.inputBuffer))
    ensures s.ReadString? && c.inputFile.Some? ==> s.text == c.inputFile.value.content
    ensures s.ReadString? && c.inputFile.None? ==> s.text == c.inputBuffer.value
    ensures s.ReadFile? ==> s.path == PyStr(c.inputPath)
  {
    var buffer := Loaded(c);
    if Truthy(buffer) then ReadString(format, buffer.value)
    else ReadFile(format, PyStr(c.inputPath))
  }

  /** One conversion through the binding. `firstMolecule` is the
      dimensionality of the first molecule read, `None` if none was read. */
  function Convert(c: Converter, outType: Option<string>, outFile: Option<string>, gen3D: Option<bool>,
                   charge: Option<int>, multiplicity: Option<int>, firstMolecule: Option<int>): (r: Result<Plan>)
    ensures ResolveOutputType(outType, outFile).Err? ==> r == Err(ResolveOutputType(outType, outFile).error)
    ensures outFile.None? && ResolveOutputType(outType, outFile) == Ok(PngType) ==> r == Err(PngNeedsOutputFile)
    ensures (ResolveOutputType(outType, outFile).Ok? && !(outFile.None? && ResolveOutputType(outType, outFile).value == PngType)
             && !Truthy(c.inputType)) ==> r == Err(EmptyInputType)
    ensures (ResolveOutputType(outType, outFile).Ok? && !(outFile.None? && ResolveOutputType(outType, outFile).value == PngType)
             && Truthy(c.inputType) && firstMolecule.None?) ==> r == Err(ParseFailed(InputName(c)))
    ensures r.Ok? <==> (ResolveOutputType(outType, outFile).Ok? && !(outFile.None? && ResolveOutputType(outType, outFile).value == PngType)
                        && Truthy(c.inputType) && firstMolecule.Some?)
    ensures r.Ok? ==> (ReturnsContent(r.value) <==> outFile.None?)
    ensures r.Ok? ==> (r.value.output.Draw? <==> ResolveOutputType(outType, outFile) == Ok(PngType))
    ensures r.Ok? ==> (r.value.generate3D <==> firstMolecule.value != 3 && gen3D != Some(false))
    ensures r.Ok? ==> r.value.charge == charge && r.value.multiplicity == multiplicity
    ensures r.Ok? ==> r.value.addH == c.addH && r.value.source == Source(c, c.inputType.value)
    ensures r.Ok? ==> r.value.output == (if ResolveOutputType(outType, outFile).value == PngType
                                         then Draw(outFile.value)
                                         else Write(ResolveOutputType(outType, outFile).value, outFile))
  {
    match ResolveOutputType(outType, outFile)
    case Err(e) => Err(e)
    case Ok(format) =>
      if outFile.None? && format == PngType then Err(PngNeedsOutputFile)
      else if !Truthy(c.inputType) then Err(EmptyInputType)
      else
        match firstMolecule
        case None => Err(ParseFailed(InputName(c)))
        case Some(dim) =>
          var output := if format == PngType then Draw(outFile.value) else Write(format, outFile);
          Ok(Plan(Source(c, c.inputType.value), charge, multiplicity,
                  dim != 3 && DefaultGen3D(gen3D), c.addH, output))
  }

  // ---------------------------------------------------------------------------
  // Lemmas

  /** An absent or empty input format is rejected once the output format is
      settled, whatever else the call asks for. */
  lemma EmptyInputTypeRejected(c: Converter, outType: string, outFile: Option<string>,
                               gen3D: Option<bool>, charge: Option<int>, multiplicity: Option<int>,
                               firstMolecule: Option<int>)
    requires !Truthy(c.inputType)
    requires outType != "" && (outType == PngType ==> outFile.Some?)
    ensures Convert(c, Some(outType), outFile, gen3D, charge, multiplicity, firstMolecule) == Err(EmptyInputType)
  {
  }

  /** A png can only be drawn into a file: asking for it, or for no format
      at all, without an output file fails before the binding is touched. */
  lemma NoOutputFileRejections(c: Converter, gen3D: Option<bool>, charge: Option<int>,
                               multiplicity: Option<int>, firstMolecule: Option<int>)
    ensures Convert(c, Some(PngType), None, gen3D, charge, multiplicity, firstMolecule) == Err(PngNeedsOutputFile)
    ensures Convert(c, None, None, gen3D, charge, multiplicity, firstMolecule) == Err(NoFileName)
    ensures Convert(c, Some(""), None, gen3D, charge, multiplicity, firstMolecule) == Err(NoFileName)
  {
  }

  /** When the binding reads nothing, the error names the input. */
  lemma UnreadableInputNamed(c: Converter, outType: Option<string>, outFile: Option<string>, format: string,
                             gen3D: Option<bool>, charge: Option<int>, multiplicity: Option<int>)
    requires Truthy(c.inputType)
    requires ResolveOutputType(outType, outFile) == Ok(format)
    requires outFile.None? ==> format != PngType
    ensures Convert(c, outType, outFile, gen3D, charge, multiplicity, None)
            == Err(ParseFailed(if c.inputPath.Some? then c.inputPath.value else MemoryName))
  {
  }
}
