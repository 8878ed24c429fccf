/** The converter record and the choice between the two backends
(`Openbabel_converter.__init__`, `from_file`, `get_cls`, `input_name`).

Open Babel is reached either through its in-process Python binding (pybel) or
by running the `obabel` program. The binding is used when it could be loaded,
except for the ChemDraw `cdx` format, which the binding mis-reads.
 */
module Backends {
  import opened Results
  import opened Text
  import opened FileTypes

  datatype Backend = Pybel | Obabel

  /** An open input file, represented by what reading it returns. */
  datatype Handle = Handle(content: string)

  /** An `Openbabel_converter`: where the input comes from, its format, which
      backend converts it, and whether hydrogens are added. */
  datatype Converter = Converter(
    backend: Backend,
    inputFile: Option<Handle>,
    inputBuffer: Option<string>,
    inputPath: Option<string>,
    inputType: Option<string>,
    addH: bool)

  /** The format the binding cannot be trusted with. */
  const ChemDrawType: string := "cdx"

  /** Every spelling of `cdx` that folds to it. */
  const ChemDrawSpellings: set<string> := {"cdx", "cdX", "cDx", "cDX", "Cdx", "CdX", "CDx", "CDX"}

  /** The label used for an input that has no path. */
  const MemoryName: string := "(file loaded from memory)"

  /** The constructor: it keeps the inputs as given and always adds hydrogens. */
  function NewConverter(backend: Backend, inputFile: Option<Handle>, inputBuffer: Option<string>,
                        inputPath: Option<string>, inputType: Option<string>): (c: Converter)
    ensures c.addH
    ensures c.backend == backend && c.inputType == inputType
    ensures c.inputFile == inputFile && c.inputBuffer == inputBuffer && c.inputPath == inputPath
  {
    Converter(backend, inputFile, inputBuffer, inputPath, inputType, true)
  }

  /** Python truthiness of an optional string: present and non-empty. */
  predicate Truthy(s: Option<string>) {
    s.Some? && s.value != ""
  }

  /** The backend for an input of format `inputType` (an absent type counts as
      the empty string), given whether the binding could be loaded. */
  function GetCls(havePybel: bool, inputType: Option<string>): (b: Backend)
    ensures b == Pybel ==> havePybel
  {
    var t := if Truthy(inputType) then inputType.value else "";
    if !havePybel || Lower(t) == ChemDrawType then Obabel else Pybel
  }

  /** The converter for an input, with its format inferred from the path only
      when no format was given at all. */
  function FromFile(havePybel: bool, inputFile: Option<Handle>, inputBuffer: Option<string>,
                    inputPath: Option<string>, inputType: Option<string>): (r: Result<Converter>)
    ensures inputType.Some? ==> r.Ok? && r.value.inputType == inputType
    ensures inputType.None? ==> (r.Ok? <==> TypeFromFileName(inputPath, false).Ok?)
    ensures inputType.None? && r.Ok? ==> r.value.inputType == TypeFromFileName(inputPath, false).value
    ensures r.Err? ==> r == Err(TypeFromFileName(inputPath, false).error)
    ensures r.Ok? ==> r.value.inputType.Some?
    ensures r.Ok? ==> r.value.backend == GetCls(havePybel, r.value.inputType) && r.value.addH
    ensures r.Ok? ==> r.value.inputFile == inputFile && r.value.inputBuffer == inputBuffer
                      && r.value.inputPath == inputPath
  {
    var resolved :=
      if inputType.None? then TypeFromFileName(inputPath, false) else Ok(inputType);
    match resolved
    case Err(e) => Err(e)
    case Ok(t) => Ok(NewConverter(GetCls(havePybel, t), inputFile, inputBuffer, inputPath, t))
  }

  /** The output format of a conversion: the one asked for, or, when that is
      absent or empty, the one inferred from the output file's name. */
  function ResolveOutputType(outType: Option<string>, outFile: Option<string>): (r: Result<string>)
    ensures Truthy(outType) ==> r == Ok(outType.value)
    ensures !Truthy(outType) ==> (r.Ok? <==> TypeFromFileName(outFile, false).Ok?)
    ensures !Truthy(outType) && r.Ok? ==> Some(r.value) == TypeFromFileName(outFile, false).value
    ensures !Truthy(outType) && r.Err? ==> r.error == TypeFromFileName(outFile, false).error
    ensures r.Ok? ==> r.value != ""
  {
    if Truthy(outType) then Ok(outType.value)
    else
      match TypeFromFileName(outFile, false)
      case Err(e) => Err(e)
      case Ok(t) => Ok(t.value)
  }

  /** A descriptive name of the input: its path, or a fixed label. */
  function InputName(c: Converter): string {
    if c.inputPath.Some? then c.inputPath.value else MemoryName
  }

  // ---------------------------------------------------------------------------
  // Lemmas

  /** `s` folds to `cdx` exactly when it is one of its eight spellings. */
  lemma LowerIsChemDraw(s: string)
    ensures Lower(s) == ChemDrawType <==> s in ChemDrawSpellings
  {
    if Lower(s) == ChemDrawType {
      assert |s| == 3;
      assert LowerChar(s[0]) == 'c' && LowerChar(s[1]) == 'd' && LowerChar(s[2]) == 'x';
      assert s[0] in {'c', 'C'} && s[1] in {'d', 'D'} && s[2] in {'x', 'X'};
      assert s == [s[0], s[1], s[2]];
    }
    if s in ChemDrawSpellings {
      assert |s| == 3 && s == [s[0], s[1], s[2]];
      assert Lower(s) == [LowerChar(s[0]), LowerChar(s[1]), LowerChar(s[2])];
    }
  }

  /** The subprocess backend is chosen exactly when the binding is missing or
      the format is `cdx` in some capitalisation. */
  lemma ObabelExactlyWhen(havePybel: bool, inputType: Option<string>)
    ensures GetCls(havePybel, inputType) == Obabel
            <==> !havePybel || (inputType.Some? && inputType.value in ChemDrawSpellings)
  {
    var t := if Truthy(inputType) then inputType.value else "";
    LowerIsChemDraw(t);
    if inputType.Some? && inputType.value in ChemDrawSpellings {
      assert Truthy(inputType);
    }
  }

  /** The choice depends on the format only through its lower-case form. */
  lemma ChoiceIgnoresCase(havePybel: bool, a: string, b: string)
    requires Lower(a) == Lower(b)
    ensures GetCls(havePybel, Some(a)) == GetCls(havePybel, Some(b))
  {
    assert Lower("") == "";
  }

  /** An absent and an empty format are treated alike, and go to the binding
      when it is available. */
  lemma MissingTypeUsesBinding()
    ensures GetCls(true, None) == GetCls(true, Some("")) == Pybel
  {
    assert Lower("") == "";
  }

  /** Lower-casing twice is lower-casing once. */
  lemma LowerIdempotent(s: string)
    ensures Lower(Lower(s)) == Lower(s)
  {
    assert forall i :: 0 <= i < |s| ==> LowerChar(LowerChar(s[i])) == LowerChar(s[i]);
  }

  /** A file with an extension and no format given gets the extension,
      lower-cased, as its format, and goes to `obabel` exactly when the binding
      is missing or the extension is `cdx` in some capitalisation. */
  lemma FromFileByExtension(havePybel: bool, inputFile: Option<Handle>, inputBuffer: Option<string>,
                            dir: string, stem: string, ext: string)
    requires IsDirPrefix(dir)
    requires stem != [] && '/' !in stem
    requires ext != [] && '.' !in ext && '/' !in ext
    ensures var r := FromFile(havePybel, inputFile, inputBuffer, Some(dir + stem + "." + ext), None);
            r.Ok? && r.value.inputType == Some(Lower(ext))
            && (r.value.backend == Obabel <==> !havePybel || ext in ChemDrawSpellings)
  {
    ResolvesExtension(dir, stem, ext, false);
    ObabelExactlyWhen(havePybel, Some(Lower(ext)));
    LowerIdempotent(ext);
    LowerIsChemDraw(Lower(ext));
    LowerIsChemDraw(ext);
  }
}
