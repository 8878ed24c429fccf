/** Inferring a format shortcode from a file name
(`Openbabel_converter.type_from_file_name`).

The shortcode is the file's extension, lower-cased and without its dot. A file
called `coord` without extension is a Turbomole coordinate file (`tmol`).
Anything else without an extension is unresolvable: the caller chooses whether
that is an error or an absent type.
 */
module FileTypes {
  import opened Results
  import opened Text

  /** The one extensionless file name that is recognised, and its format. */
  const TurbomoleName: string := "coord"
  const TurbomoleType: string := "tmol"

  /** A directory prefix for a path: empty, or ending with a separator. */
  predicate IsDirPrefix(dir: string) {
    dir == [] || dir[|dir| - 1] == '/'
  }

  /** The path without its trailing '/' separators. */
  function DropTrailingSlashes(p: string): (r: string)
    ensures |r| <= |p| && r == p[..|r|]
    ensures r == [] || r[|r| - 1] != '/'
    ensures forall k :: |r| <= k < |p| ==> p[k] == '/'
  {
    if p != [] && p[|p| - 1] == '/' then DropTrailingSlashes(p[..|p| - 1]) else p
  }

  /** The final component of a path (pathlib's `name`). */
  function BaseName(path: string): (name: string)
    ensures '/' !in name
  {
    var p := DropTrailingSlashes(path);
    match LastIndexOf(p, '/')
    case None => p
    case Some(i) =>
      p[i + 1..]
  }

  /** pathlib's `suffix` without its dot: the text after the last '.' of the
      name, provided that dot is neither the first nor the last character. */
  function Extension(name: string): (ext: string)
    ensures '.' !in ext
    ensures ext != [] ==> |ext| + 1 < |name| && ext == name[|name| - |ext|..]
    ensures ext != [] ==> name[|name| - |ext| - 1] == '.'
  {
    match LastIndexOf(name, '.')
    case None => ""
    case Some(i) =>
      if 0 < i < |name| - 1 then
        name[i + 1..]
      else ""
  }

  /** The format of the file called `name` (`None` when no name was given).
      `allowNone` turns the two failures into an absent result. */
  function TypeFromFileName(name: Option<string>, allowNone: bool): (r: Result<Option<string>>)
    ensures allowNone ==> r.Ok?
    ensures r.Ok? && r.value.None? ==> allowNone
    ensures r.Ok? && r.value.Some? ==>
              var t := r.value.value;
              t != "" && NoUpper(t) && '.' !in t && '/' !in t
    ensures r.Err? ==> r.error == NoFileName || (name.Some? && r.error == UnrecognisedFileName(name.value))
  {
    match name
    case None =>
      if allowNone then Ok(None) else Err(NoFileName)
    case Some(path) =>
      var ext := Extension(BaseName(path));
      if ext != "" then
        assert forall k :: 0 <= k < |ext| ==> Lower(ext)[k] == LowerChar(ext[k]);
        Ok(Some(Lower(ext)))
      else if BaseName(path) == TurbomoleName then
        Ok(Some(TurbomoleType))
      else if allowNone then
        Ok(None)
      else
        Err(UnrecognisedFileName(path))
  }

  // ---------------------------------------------------------------------------
  // Lemmas

  /** With `c` absent from `tail`, the last `c` of `dir + tail` is the one
      ending `dir`, if `dir` ends with `c`. */
  lemma LastIndexAtBoundary(dir: string, tail: string, c: char)
    requires c !in tail
    requires dir == [] || dir[|dir| - 1] == c
    ensures LastIndexOf(dir + tail, c) == if dir == [] then None else Some(|dir| - 1)
  {
    var s := dir + tail;
    assert forall j :: |dir| <= j < |s| ==> s[j] == tail[j - |dir|];
    if dir == [] {
      assert s == tail;
    } else {
      assert s[|dir| - 1] == c;
      var r := LastIndexOf(s, c);
      assert r.Some?;
    }
  }

  /** The final component is the longest '/'-free tail of the path without
      its trailing separators: it is preceded by a '/', or is all of it. */
  lemma BaseNameIsLastComponent(path: string)
    ensures var p := DropTrailingSlashes(path);
            var name := BaseName(path);
            |name| <= |p| && name == p[|p| - |name|..]
            && (|name| < |p| ==> p[|p| - |name| - 1] == '/')
  {
    var p := DropTrailingSlashes(path);
    match LastIndexOf(p, '/')
    case None =>
      assert BaseName(path) == p;
    case Some(i) =>
      assert BaseName(path) == p[i + 1..];
      assert |p| - |p[i + 1..]| - 1 == i;
  }

  /** The final component of `dir + name` is `name`. */
  lemma BaseNameOfJoin(dir: string, name: string)
    requires IsDirPrefix(dir)
    requires name != [] && '/' !in name
    ensures BaseName(dir + name) == name
  {
    var p := dir + name;
    assert p[|p| - 1] == name[|name| - 1];
    assert DropTrailingSlashes(p) == p;
    LastIndexAtBoundary(dir, name, '/');
    if dir != [] {
      assert p[|dir|..] == name;
    } else {
      assert p == name;
    }
  }

  /** The extension of `stem.ext` is `ext`. */
  lemma ExtensionOfJoin(stem: string, ext: string)
    requires stem != []
    requires ext != [] && '.' !in ext
    ensures Extension(stem + "." + ext) == ext
  {
    var name := stem + "." + ext;
    assert name == (stem + ".") + ext;
    LastIndexAtBoundary(stem + ".", ext, '.');
    assert name[|stem| + 1..] == ext;
  }

  /** A name ending in an extension resolves to that extension, lower-cased,
      whatever `allowNone` says and whatever the stem is (also `coord`). */
  lemma ResolvesExtension(dir: string, stem: string, ext: string, allowNone: bool)
    requires IsDirPrefix(dir)
    requires stem != [] && '/' !in stem
    requires ext != [] && '.' !in ext && '/' !in ext
    ensures TypeFromFileName(Some(dir + stem + "." + ext), allowNone) == Ok(Some(Lower(ext)))
  {
    var name := stem + "." + ext;
    assert '/' !in name by {
      assert forall k :: 0 <= k < |name| ==> name[k] == (if k < |stem| then stem[k] else if k == |stem| then '.' else ext[k - |stem| - 1]);
    }
    assert dir + stem + "." + ext == dir + name;
    BaseNameOfJoin(dir, name);
    ExtensionOfJoin(stem, ext);
  }

  /** A file called `coord`, in any directory, is a Turbomole file. */
  lemma CoordIsTurbomole(dir: string, allowNone: bool)
    requires IsDirPrefix(dir)
    ensures TypeFromFileName(Some(dir + TurbomoleName), allowNone) == Ok(Some(TurbomoleType))
  {
    BaseNameOfJoin(dir, TurbomoleName);
    assert LastIndexOf(TurbomoleName, '.') == None;
  }

  /** A name with no dot, other than `coord`, is unresolvable: absent when
      `allowNone` is set, an error naming the path otherwise. */
  lemma DotlessNameUnresolvable(dir: string, name: string, allowNone: bool)
    requires IsDirPrefix(dir)
    requires name != [] && '/' !in name && '.' !in name
    requires name != TurbomoleName
    ensures TypeFromFileName(Some(dir + name), allowNone)
            == if allowNone then Ok(None) else Err(UnrecognisedFileName(dir + name))
  {
    BaseNameOfJoin(dir, name);
  }

  /** A name whose only dot is its first character has no extension. */
  lemma HiddenNameHasNoExtension(rest: string)
    requires '/' !in rest && '.' !in rest
    ensures '/' !in "." + rest
    ensures Extension("." + rest) == ""
  {
    var name := "." + rest;
    assert forall k :: 0 < k < |name| ==> name[k] == rest[k - 1];
    LastIndexAtBoundary(".", rest, '.');
  }

  /** A hidden file such as `.bashrc` has no extension: its only dot is its
      first character. */
  lemma HiddenNameUnresolvable(dir: string, rest: string, allowNone: bool)
    requires IsDirPrefix(dir)
    requires rest != [] && '/' !in rest && '.' !in rest
    ensures TypeFromFileName(Some(dir + "." + rest), allowNone)
            == if allowNone then Ok(None) else Err(UnrecognisedFileName(dir + "." + rest))
  {
    var name := "." + rest;
    HiddenNameHasNoExtension(rest);
    assert dir + "." + rest == dir + name;
    BaseNameOfJoin(dir, name);
    assert name[0] != TurbomoleName[0];
  }

  /** No name at all: absent when `allowNone` is set, an error otherwise. */
  lemma MissingNameUnresolvable(allowNone: bool)
    ensures TypeFromFileName(None, allowNone) == if allowNone then Ok(None) else Err(NoFileName)
  {
  }

  /** `allowNone` changes nothing but turning each error into `None`. */
  lemma AllowNoneOnlySoftensErrors(name: Option<string>)
    ensures TypeFromFileName(name, true)
            == match TypeFromFileName(name, false)
               case Ok(t) => Ok(t)
               case Err(_) => Ok(None)
  {
  }

  /** The extension wins over the `coord` rule. */
  lemma CoordWithExtension()
    ensures TypeFromFileName(Some("coord.txt"), false) == Ok(Some("txt"))
  {
    assert "" + "coord" + "." + "txt" == "coord.txt";
    assert Lower("txt") == "txt";
    ResolvesExtension("", "coord", "txt", false);
  }

  /** Upper-case extensions are lower-cased. */
  lemma UpperCaseExtension()
    ensures TypeFromFileName(Some("Foo.XYZ"), false) == Ok(Some("xyz"))
  {
    assert "" + "Foo" + "." + "XYZ" == "Foo.XYZ";
    assert Lower("XYZ") == "xyz";
    ResolvesExtension("", "Foo", "XYZ", false);
  }
}
