/** The catalog of formats `obabel` can read and write (`Obabel_formats.run`,
`read`, `write` and the `formats()` factory).

`obabel -L formats read` (or `write`) prints one `code -- description` line per
format. Each line is split on every `--` and must give exactly two parts, both
stripped; a later line for the same code replaces an earlier one. The two
listings are cached process-wide, one slot per direction, and `refresh` empties
a slot before it is looked up.
 */
module FormatCatalog {
  import opened Results
  import opened Text
  import opened Backends
  import opened ObabelConverter

  /** Format shortcode to description. */
  type Formats = map<string, string>

  const Separator: string := "--"

  // ---------------------------------------------------------------------------
  // Parsing a listing

  /** One listing line as (code, description). */
  function ParseEntry(line: string): (r: Result<(string, string)>)
    ensures r.Ok? <==> |Split(line, Separator)| == 2
    ensures r.Err? ==> r.error == MalformedCatalog(line)
    ensures r.Ok? ==> Trimmed(r.value.0) && Trimmed(r.value.1)
    ensures r.Ok? ==> r.value == (Trim(Split(line, Separator)[0]), Trim(Split(line, Separator)[1]))
  {
    var parts := Split(line, Separator);
    if |parts| == 2 then Ok((Trim(parts[0]), Trim(parts[1]))) else Err(MalformedCatalog(line))
  }

  /** Every value, in order, or the first error. */
  function Collect<T>(results: seq<Result<T>>): (r: Result<seq<T>>)
    ensures r.Ok? ==> |r.value| == |results|
    ensures r.Ok? ==> forall i :: 0 <= i < |results| ==> results[i] == Ok(r.value[i])
    ensures r.Err? ==> exists k :: 0 <= k < |results| && results[k] == Err(r.error)
                                   && forall j :: 0 <= j < k ==> results[j].Ok?
    decreases |results|
  {
    if results == [] then Ok([])
    else
      match results[0]
      case Err(e) => Err(e)
      case Ok(v) =>
        match Collect(results[1..])
        case Err(e) =>
          ghost var k :| 0 <= k < |results[1..]| && results[1..][k] == Err(e)
                         && forall j :: 0 <= j < k ==> results[1..][j].Ok?;
          assert results[k + 1] == results[1..][k];
          forall j | 0 < j < k + 1
            ensures results[j].Ok?
          {
            assert results[j] == results[1..][j - 1];
          }
          Err(e)
        case Ok(rest) =>
          var all := [v] + rest;
          forall i | 0 < i < |results|
            ensures results[i] == Ok(all[i])
          {
            assert results[i] == results[1..][i - 1] && all[i] == rest[i - 1];
          }
          Ok(all)
  }

  /** Every line parsed, or the error of the first line that does not parse. */
  function Entries(lines: seq<string>): (r: Result<seq<(string, string)>>)
    ensures r.Ok? ==> |r.value| == |lines|
    ensures r.Ok? ==> forall i :: 0 <= i < |lines| ==> ParseEntry(lines[i]) == Ok(r.value[i])
    ensures r.Err? ==> exists k :: 0 <= k < |lines| && ParseEntry(lines[k]) == Err(r.error)
                                   && forall j :: 0 <= j < k ==> ParseEntry(lines[j]).Ok?
  {
    var parsed := seq(|lines|, i requires 0 <= i < |lines| => ParseEntry(lines[i]));
    assert forall i :: 0 <= i < |lines| ==> parsed[i] == ParseEntry(lines[i]);
    Collect(parsed)
  }

  /** No entry after `i` has the same code. */
  predicate LastOfCode(entries: seq<(string, string)>, i: int)
    requires 0 <= i < |entries|
  {
    forall j :: i < j < |entries| ==> entries[j].0 != entries[i].0
  }

  /** The entries as a map, later entries replacing earlier ones. */
  function ToMap(entries: seq<(string, string)>): Formats
    decreases |entries|
  {
    if entries == [] then map[]
    else
      var n := |entries| - 1;
      ToMap(entries[..n])[entries[n].0 := entries[n].1]
  }

  /** The codes of the map are exactly the codes of the entries. */
  lemma {:induction false} ToMapDomain(entries: seq<(string, string)>)
    ensures forall k :: k in ToMap(entries) <==> exists i :: 0 <= i < |entries| && entries[i].0 == k
    decreases |entries|
  {
    if entries != [] {
      var n := |entries| - 1;
      var prefix := entries[..n];
      ToMapDomain(prefix);
      assert ToMap(entries) == ToMap(prefix)[entries[n].0 := entries[n].1];
      forall k
        ensures k in ToMap(entries) <==> exists i :: 0 <= i < |entries| && entries[i].0 == k
      {
        if k in ToMap(entries) && k != entries[n].0 {
          assert k in ToMap(prefix);
          var i :| 0 <= i < |prefix| && prefix[i].0 == k;
          assert entries[i] == prefix[i];
        }
        if exists i :: 0 <= i < |entries| && entries[i].0 == k {
          var i :| 0 <= i < |entries| && entries[i].0 == k;
          if i < n {
            assert prefix[i] == entries[i];
          }
        }
      }
    }
  }

  /** The description kept for a code is the one of its last entry. */
  lemma {:induction false} ToMapLast(entries: seq<(string, string)>, i: int)
    requires 0 <= i < |entries| && LastOfCode(entries, i)
    ensures entries[i].0 in ToMap(entries) && ToMap(entries)[entries[i].0] == entries[i].1
    decreases |entries|
  {
    var n := |entries| - 1;
    if i < n {
      var prefix := entries[..n];
      assert prefix[i] == entries[i];
      assert entries[n].0 != entries[i].0;
      forall j | i < j < |prefix|
        ensures prefix[j].0 != prefix[i].0
      {
        assert prefix[j] == entries[j];
      }
      ToMapLast(prefix, i);
    }
  }

  /** `obabel`'s listing output as a catalog. */
  function ParseListing(stdout: string): (r: Result<Formats>)
    ensures r.Err? ==> r.error.MalformedCatalog?
  {
    match Entries(SplitLines(stdout))
    case Err(e) => Err(e)
    case Ok(entries) => Ok(ToMap(entries))
  }

  /** The listing run for a direction. */
  function ListingArgv(readwrite: string): seq<string> {
    [Executable, "-L", "formats", readwrite]
  }

  /** `run(readwrite)`: the direction is checked before anything is run; a
      non-zero exit status fails; otherwise the output is parsed. */
  function Run(readwrite: string, exec: seq<string> -> Process): (r: Result<Formats>)
    ensures readwrite != "read" && readwrite != "write" ==> r == Err(BadDirection(readwrite))
    ensures (readwrite == "read" || readwrite == "write") && exec(ListingArgv(readwrite)).returnCode != 0
            ==> r == Err(ProcessFailed(exec(ListingArgv(readwrite)).returnCode))
    ensures (readwrite == "read" || readwrite == "write") && exec(ListingArgv(readwrite)).returnCode == 0
            ==> r == ParseListing(exec(ListingArgv(readwrite)).stdout)
    ensures r.Ok? ==> exec(ListingArgv(readwrite)).returnCode == 0
  {
    if readwrite != "read" && readwrite != "write" then Err(BadDirection(readwrite))
    else
      var p := exec(ListingArgv(readwrite));
      if p.returnCode != 0 then Err(ProcessFailed(p.returnCode)) else ParseListing(p.stdout)
  }

  // ---------------------------------------------------------------------------
  // The cache

  datatype Direction = Read | Write

  function DirectionName(d: Direction): string {
    match d
    case Read => "read"
    case Write => "write"
  }

  function Other(d: Direction): Direction {
    match d
    case Read => Write
    case Write => Read
  }

  /** The process-wide cache: one optional catalog per direction. */
  datatype Cache = Cache(read: Option<Formats>, write: Option<Formats>)

  const EmptyCache: Cache := Cache(None, None)

  function Slot(c: Cache, d: Direction): Option<Formats> {
    match d
    case Read => c.read
    case Write => c.write
  }

  function Store(c: Cache, d: Direction, v: Option<Formats>): (c': Cache)
    ensures Slot(c', d) == v
    ensures Slot(c', Other(d)) == Slot(c, Other(d))
  {
    match d
    case Read => c.(read := v)
    case Write => c.(write := v)
  }

  /** `read(refresh)` / `write(refresh)`: the cached catalog if there is one
      and no refresh was asked for; otherwise a fresh run, stored on success.
      The other direction's slot is never touched. */
  function Lookup(c: Cache, d: Direction, refresh: bool, exec: seq<string> -> Process): (out: (Result<Formats>, Cache))
    ensures Slot(out.1, Other(d)) == Slot(c, Other(d))
    ensures !refresh && Slot(c, d).Some? ==> out == (Ok(Slot(c, d).value), c)
    ensures refresh || Slot(c, d).None? ==> out.0 == Run(DirectionName(d), exec)
    ensures out.0.Ok? ==> Slot(out.1, d) == Some(out.0.value)
    ensures out.0.Err? ==> Slot(out.1, d) == None
  {
    var c1 := if refresh then Store(c, d, None) else c;
    match Slot(c1, d)
    case Some(m) => (Ok(m), c1)
    case None =>
      var r := Run(DirectionName(d), exec);
      if r.Ok? then (r, Store(c1, d, Some(r.value))) else (r, c1)
  }

  /** Which catalog `formats()` returns. */
  datatype CatalogSource = BindingTables | ObabelListing

  function FormatsSource(havePybel: bool): (s: CatalogSource)
    ensures s == ObabelListing <==> !havePybel
  {
    if havePybel then BindingTables else ObabelListing
  }

  // ---------------------------------------------------------------------------
  // Lemmas

  /** The listing line `obabel` prints for an entry. */
  function Line(code: string, desc: string): string {
    code + " -- " + desc
  }

  /** The lines `obabel` prints for a sequence of entries. */
  function Lines(entries: seq<(string, string)>): (lines: seq<string>)
    ensures |lines| == |entries|
  {
    seq(|entries|, i requires 0 <= i < |entries| => Line(entries[i].0, entries[i].1))
  }

  /** The listing `obabel` prints for a sequence of entries. */
  function Render(entries: seq<(string, string)>): string {
    Terminated(Lines(entries))
  }

  /** An entry `obabel` can print unambiguously. */
  predicate Printable(s: string) {
    Trimmed(s) && !Contains(s, Separator) && '\n' !in s
  }

  /** No separator starts inside `code + " "` in `code + " -- " + desc`. */
  lemma SeparatorNotBefore(code: string, desc: string)
    requires !Contains(code, Separator)
    ensures forall j :: 0 <= j < |code| + 1 ==> !MatchAt((code + " ") + Separator + (" " + desc), j, Separator)
  {
    var line := (code + " ") + Separator + (" " + desc);
    forall j | 0 <= j < |code| + 1
      ensures !MatchAt(line, j, Separator)
    {
      if j + 1 < |code| {
        assert line[j..j + 2] == code[j..j + 2];
        assert !MatchAt(code, j, Separator);
      } else if j + 1 == |code| {
        assert line[j..j + 2][1] == line[j + 1] == ' ';
      } else {
        assert line[j..j + 2][0] == line[j] == ' ';
      }
    }
  }

  /** A leading space cannot start a separator. */
  lemma SpacedHasNoSeparator(desc: string)
    requires !Contains(desc, Separator)
    ensures !Contains(" " + desc, Separator)
  {
    var b := " " + desc;
    forall j | 0 <= j <= |b|
      ensures !MatchAt(b, j, Separator)
    {
      if j == 0 {
        if j + 2 <= |b| {
          assert b[j..j + 2][0] == b[0] == ' ';
        }
      } else if j + 2 <= |b| {
        assert b[j..j + 2] == desc[j - 1..j + 1];
        assert !MatchAt(desc, j - 1, Separator);
      }
    }
  }

  /** A line `--`-free on both sides splits into exactly its two sides. */
  lemma LineSplits(code: string, desc: string)
    requires !Contains(code, Separator) && !Contains(desc, Separator)
    ensures Split(Line(code, desc), Separator) == [code + " ", " " + desc]
  {
    assert Line(code, desc) == (code + " ") + Separator + (" " + desc);
    SeparatorNotBefore(code, desc);
    SplitAfterFirst(code + " ", Separator, " " + desc);
    SpacedHasNoSeparator(desc);
    SplitNoSeparator(" " + desc, Separator);
  }

  /** A printed line parses back to its entry. */
  lemma LineParses(code: string, desc: string)
    requires Printable(code) && Printable(desc)
    ensures ParseEntry(Line(code, desc)) == Ok((code, desc))
  {
    LineSplits(code, desc);
    TrimPadded("", code, " ");
    assert "" + code + " " == code + " ";
    TrimPadded(" ", desc, "");
    assert " " + desc + "" == " " + desc;
  }

  /** A printed line has no line break when neither side has one. */
  lemma LineUnbroken(code: string, desc: string)
    requires '\n' !in code && '\n' !in desc
    ensures '\n' !in Line(code, desc)
  {
    var line := Line(code, desc);
    forall x | 0 <= x < |line|
      ensures line[x] != '\n'
    {
      if x < |code| {
        assert line[x] == code[x];
      } else if x >= |code| + 4 {
        assert line[x] == desc[x - |code| - 4];
      }
    }
  }

  /** The printed lines of printable entries parse back to the entries. */
  lemma LinesParse(entries: seq<(string, string)>)
    requires forall i :: 0 <= i < |entries| ==> Printable(entries[i].0) && Printable(entries[i].1)
    ensures Entries(Lines(entries)) == Ok(entries)
  {
    var lines := Lines(entries);
    forall k | 0 <= k < |lines|
      ensures ParseEntry(lines[k]) == Ok(entries[k])
    {
      LineParses(entries[k].0, entries[k].1);
    }
    var r := Entries(lines);
    assert r.Ok?;
    assert r.value == entries;
  }

  /** Parsing a printed listing gives back the catalog of its entries, later
      duplicates winning. */
  lemma ListingRoundTrip(entries: seq<(string, string)>)
    requires forall i :: 0 <= i < |entries| ==> Printable(entries[i].0) && Printable(entries[i].1)
    ensures ParseListing(Render(entries)) == Ok(ToMap(entries))
  {
    var lines := Lines(entries);
    forall k | 0 <= k < |lines|
      ensures '\n' !in lines[k]
    {
      LineUnbroken(entries[k].0, entries[k].1);
    }
    SplitLinesTerminated(lines);
    LinesParse(entries);
  }

  /** A line that does not parse makes the whole sequence of lines fail. */
  lemma EntriesFailAt(lines: seq<string>, k: int)
    requires 0 <= k < |lines| && ParseEntry(lines[k]).Err?
    ensures Entries(lines).Err?
  {
  }

  /** A line without `--`, such as a blank line, is rejected. */
  lemma LineWithoutSeparatorRejected(line: string)
    requires !Contains(line, Separator)
    ensures ParseEntry(line) == Err(MalformedCatalog(line))
  {
    SplitNoSeparator(line, Separator);
  }

  /** One bad line anywhere rejects the whole listing. (Dafny's automatic
      induction over the line sequences only slows this direct proof down.) */
  lemma {:induction false} BadLineRejectsListing(before: seq<string>, bad: string, after: seq<string>)
    requires forall k :: 0 <= k < |before| ==> '\n' !in before[k]
    requires forall k :: 0 <= k < |after| ==> '\n' !in after[k]
    requires '\n' !in bad
    requires ParseEntry(bad).Err?
    ensures ParseListing(Terminated(before + [bad] + after)).Err?
  {
    var lines := before + [bad] + after;
    assert lines[|before|] == bad;
    assert forall k :: 0 <= k < |lines| ==> '\n' !in lines[k];
    SplitLinesTerminated(lines);
    EntriesFailAt(lines, |before|);
  }

  /** A blank line rejects the whole listing. */
  lemma BlankLineRejectsListing(before: seq<string>, after: seq<string>)
    requires forall k :: 0 <= k < |before| ==> '\n' !in before[k]
    requires forall k :: 0 <= k < |after| ==> '\n' !in after[k]
    ensures ParseListing(Terminated(before + [""] + after)).Err?
  {
    assert !MatchAt("", 0, Separator);
    LineWithoutSeparatorRejected("");
    BadLineRejectsListing(before, "", after);
  }

  /** After a successful lookup, looking up the same direction again without
      refresh returns the same catalog, without running anything. */
  lemma LookupIsCached(c: Cache, d: Direction, refresh: bool,
                                          exec: seq<string> -> Process, exec': seq<string> -> Process)
    requires Lookup(c, d, refresh, exec).0.Ok?
    ensures Lookup(Lookup(c, d, refresh, exec).1, d, false, exec') == Lookup(c, d, refresh, exec)
  {
  }

  /** A miss whose listing run exits with 0 and prints a well-formed listing
      returns the catalog of its entries and caches it. */
  lemma MissOnWellFormedListing(d: Direction, entries: seq<(string, string)>, exec: seq<string> -> Process)
    requires forall i :: 0 <= i < |entries| ==> Printable(entries[i].0) && Printable(entries[i].1)
    requires exec(ListingArgv(DirectionName(d))).returnCode == 0
    requires exec(ListingArgv(DirectionName(d))).stdout == Render(entries)
    ensures Lookup(EmptyCache, d, false, exec) == (Ok(ToMap(entries)), Store(EmptyCache, d, Some(ToMap(entries))))
  {
    var readwrite := DirectionName(d);
    assert readwrite == "read" || readwrite == "write";
    assert Run(readwrite, exec) == Ok(ToMap(entries)) by {
      ListingRoundTrip(entries);
    }
    assert Slot(EmptyCache, d) == None;
  }

  /** A refresh always re-runs the listing, whatever was cached. */
  lemma RefreshReruns(c: Cache, d: Direction, exec: seq<string> -> Process)
    ensures Lookup(c, d, true, exec).0 == Run(DirectionName(d), exec)
  {
  }

  /** A lookup that misses runs exactly the listing for its direction. */
  lemma MissRunsListing(d: Direction, exec: seq<string> -> Process)
    ensures Lookup(EmptyCache, d, false, exec).0 == Run(DirectionName(d), exec)
    ensures Run(DirectionName(d), exec).Err? ==> Lookup(EmptyCache, d, false, exec).1 == EmptyCache
  {
  }

  /** When `formats()` falls back to the `obabel` listing, conversions fall
      back to `obabel` too, for every format. */
  lemma CatalogMatchesConverter(havePybel: bool, inputType: Option<string>)
    requires FormatsSource(havePybel) == ObabelListing
    ensures GetCls(havePybel, inputType) == Obabel
  {
  }
}
