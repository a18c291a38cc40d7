/**
 The structure ratchet: lengths of functions and files held against a recorded baseline, which an
 update replaces by the current lengths.
 */
module StructureRatchet {
  import opened Wrappers
  import opened Folds
  import opened Sorting
  import opened TextOrder
  import opened FunctionNames

  const FUNCTION_LINE_LIMIT := 100
  const INITIAL_TRACKED_FILES := {"app/schemas/trips.py", "app/api/v1/endpoints/handover.py"}

  /** A source file of the application; one with a syntax error has no tree. */
  datatype Module = Module(path: string, parsed: Option<Node>)

  /** The modules in the order in which they are listed, and the line counts of all files. */
  datatype Tree = Tree(modules: seq<Module>, lines: map<string, nat>)

  type Lengths = map<string, nat>

  datatype Baseline = Baseline(functions: Lengths, files: Lengths)

  datatype Failure = CannotParse(path: string) | NoBaseline

  // ---- Measuring -----------------------------------------------------------------------------

  function Keyed(path: string, names: seq<Measurement>): (r: seq<Measurement>)
    ensures |r| == |names|
  {
    seq(|names|, i requires 0 <= i < |names| => (Key(path, names[i].0), names[i].1))
  }

  /** Every function of every module; the first module that cannot be parsed is an error. */
  function Entries(modules: seq<Module>): Result<seq<Measurement>, Failure> {
    if modules == [] then Ok([])
    else
      var before, last := Entries(modules[..|modules| - 1]), modules[|modules| - 1];
      if before.Err? then before
      else if last.parsed.None? then Err(CannotParse(last.path))
      else Ok(before.value + Keyed(last.path, QualifiedNames([], last.parsed.value)))
  }

  /** Later entries of a key replace earlier ones that are shorter. */
  function Keep(lengths: Lengths, entry: Measurement): Lengths {
    lengths[entry.0 := if entry.0 in lengths && lengths[entry.0] > entry.1 then lengths[entry.0] else entry.1]
  }

  function Longest(entries: seq<Measurement>): Lengths {
    if entries == [] then map[] else Keep(Longest(entries[..|entries| - 1]), entries[|entries| - 1])
  }

  function Measured(tree: Tree): Result<Lengths, Failure> {
    match Entries(tree.modules)
    case Ok(entries) => Ok(Longest(entries))
    case Err(e) => Err(e)
  }

  lemma KeepsLast(entries: seq<Measurement>, entry: Measurement)
    ensures Longest(entries + [entry]) == Keep(Longest(entries), entry)
  {
    assert (entries + [entry])[..|entries|] == entries;
  }

  lemma EntriesNext(modules: seq<Module>, i: nat, entries: seq<Measurement>, names: seq<Measurement>)
    requires i < |modules| && Entries(modules[..i]) == Ok(entries)
    requires modules[i].parsed.Some? && names == QualifiedNames([], modules[i].parsed.value)
    ensures Entries(modules[..i + 1]) == Ok(entries + Keyed(modules[i].path, names))
  {
    assert modules[..i + 1][..i] == modules[..i];
  }

  lemma EntriesStopHere(modules: seq<Module>, before: seq<Module>, last: Module, entries: seq<Measurement>)
    requires modules == before + [last] && Entries(before) == Ok(entries) && last.parsed.None?
    ensures Entries(modules) == Err(CannotParse(last.path))
  {
    assert modules[..|modules| - 1] == before;
  }

  lemma {:induction false} EntriesStop(modules: seq<Module>, i: nat, entries: seq<Measurement>)
    requires i < |modules| && Entries(modules[..i]) == Ok(entries)
    requires modules[i].parsed.None?
    ensures Entries(modules) == Err(CannotParse(modules[i].path))
  {
    EntriesStopHere(modules[..i + 1], modules[..i], modules[i], entries);
    FirstErrorStays(modules, i + 1);
  }

  method KeepAll(kept: Lengths, path: string, names: seq<Measurement>, ghost entries: seq<Measurement>)
    returns (lengths: Lengths)
    requires kept == Longest(entries)
    ensures lengths == Longest(entries + Keyed(path, names))
  {
    lengths := kept;
    assert entries + Keyed(path, names[..0]) == entries;
    for j := 0 to |names|
      invariant lengths == Longest(entries + Keyed(path, names[..j]))
    {
      var key, length := Key(path, names[j].0), names[j].1;
      lengths := lengths[key := if key in lengths && lengths[key] > length then lengths[key] else length];
      KeepsLast(entries + Keyed(path, names[..j]), (key, length));
      assert entries + Keyed(path, names[..j]) + [(key, length)] == entries + Keyed(path, names[..j + 1]);
    }
    assert names[..|names|] == names;
  }

  method MeasureFunctions(tree: Tree) returns (result: Result<Lengths, Failure>)
    ensures result == Measured(tree)
  {
    var lengths: Lengths := map[];
    ghost var entries: seq<Measurement> := [];
    for i := 0 to |tree.modules|
      invariant Entries(tree.modules[..i]) == Ok(entries)
      invariant lengths == Longest(entries)
    {
      var m := tree.modules[i];
      if m.parsed.None? {
        EntriesStop(tree.modules, i, entries);
        return Err(CannotParse(m.path));
      }
      var collector := new FunctionCollector();
      collector.Visit(m.parsed.value);
      var names := collector.lengths;
      EntriesNext(tree.modules, i, entries, names);
      lengths := KeepAll(lengths, m.path, names, entries);
      entries := entries + Keyed(m.path, names);
    }
    assert tree.modules[..|tree.modules|] == tree.modules;
    result := Ok(lengths);
  }

  lemma {:induction false} FirstErrorStays(modules: seq<Module>, n: nat)
    requires n <= |modules| && Entries(modules[..n]).Err?
    ensures Entries(modules) == Entries(modules[..n])
  {
    if n == |modules| {
      assert modules[..n] == modules;
    } else {
      assert modules[..|modules| - 1][..n] == modules[..n];
      FirstErrorStays(modules[..|modules| - 1], n);
    }
  }

  /** Some module defines a function with this key and length. */
  ghost predicate IsDefined(tree: Tree, entry: Measurement) {
    exists i, name :: 0 <= i < |tree.modules| && InModule(tree.modules[i], name, entry)
  }

  ghost predicate InModule(m: Module, name: string, entry: Measurement) {
    && m.parsed.Some?
    && entry.0 == Key(m.path, name)
    && exists place, parts :: DefinedAt(m.parsed.value, [], (name, entry.1), place, parts)
  }

  lemma {:induction false} LongestIsMaximum(entries: seq<Measurement>)
    ensures forall e :: e in entries ==> e.0 in Longest(entries) && e.1 <= Longest(entries)[e.0]
    ensures forall key :: key in Longest(entries) ==> (key, Longest(entries)[key]) in entries
  {
    if entries != [] {
      LongestIsMaximum(entries[..|entries| - 1]);
    }
  }

  lemma KeyedIff(m: Module, entry: Measurement)
    requires m.parsed.Some?
    ensures entry in Keyed(m.path, QualifiedNames([], m.parsed.value)) <==> exists name :: InModule(m, name, entry)
  {
    var names := QualifiedNames([], m.parsed.value);
    var keyed := Keyed(m.path, names);
    if entry in keyed {
      var j :| 0 <= j < |keyed| && keyed[j] == entry;
      NamesIff(m.parsed.value, names[j]);
      assert InModule(m, names[j].0, entry);
    }
    if exists name :: InModule(m, name, entry) {
      var name :| InModule(m, name, entry);
      NamesIff(m.parsed.value, (name, entry.1));
      var j :| 0 <= j < |names| && names[j] == (name, entry.1);
      assert keyed[j] == entry;
    }
  }

  lemma {:induction false} EntriesIff(modules: seq<Module>, lines: map<string, nat>, entry: Measurement)
    requires Entries(modules).Ok?
    ensures entry in Entries(modules).value <==> IsDefined(Tree(modules, lines), entry)
  {
    if modules != [] {
      var front, last := modules[..|modules| - 1], modules[|modules| - 1];
      EntriesIff(front, lines, entry);
      KeyedIff(last, entry);
      assert modules == front + [last];
      DefinedInLast(front, last, lines, entry);
    }
  }

  lemma DefinedInLast(front: seq<Module>, last: Module, lines: map<string, nat>, entry: Measurement)
    ensures IsDefined(Tree(front + [last], lines), entry)
       <==> IsDefined(Tree(front, lines), entry) || exists name :: InModule(last, name, entry)
  {
    var modules := front + [last];
    if IsDefined(Tree(front, lines), entry) {
      var i, name :| 0 <= i < |front| && InModule(front[i], name, entry);
      assert InModule(modules[i], name, entry);
    }
    if exists name :: InModule(last, name, entry) {
      var name :| InModule(last, name, entry);
      assert InModule(modules[|front|], name, entry);
    }
    if IsDefined(Tree(modules, lines), entry) {
      var i, name :| 0 <= i < |modules| && InModule(modules[i], name, entry);
      if i < |front| {
        assert InModule(front[i], name, entry);
      }
    }
  }

  /** The measured length of a key is the length of the longest function defined under it. */
  lemma MeasuredIsLongest(tree: Tree, key: string)
    requires Measured(tree).Ok?
    ensures key in Measured(tree).value <==> exists n: nat :: IsDefined(tree, (key, n))
    ensures key in Measured(tree).value ==> IsDefined(tree, (key, Measured(tree).value[key]))
    ensures forall n: nat :: IsDefined(tree, (key, n)) ==> n <= Measured(tree).value[key]
  {
    var entries := Entries(tree.modules).value;
    LongestIsMaximum(entries);
    forall n: nat ensures IsDefined(tree, (key, n)) <==> (key, n) in entries {
      EntriesIff(tree.modules, tree.lines, (key, n));
    }
  }

  /** Line counts of the named files that exist. */
  function MeasureFiles(tree: Tree, paths: set<string>): Lengths {
    map path | path in paths && path in tree.lines :: tree.lines[path]
  }

  // ---- The check -----------------------------------------------------------------------------

  datatype Finding =
    | NewOversized(key: string, length: nat)
    | FunctionGrew(key: string, was: nat, now: nat)
    | FunctionShrank(key: string, was: nat, now: nat)
    | FileGone(path: string)
    | FileGrew(path: string, was: nat, now: nat)
    | FileShrank(path: string, was: nat, now: nat)

  predicate IsViolation(f: Finding) { f.NewOversized? || f.FunctionGrew? || f.FileGrew? }

  datatype Report = Report(violations: seq<Finding>, notices: seq<Finding>)

  function FunctionFinding(recorded: Lengths, key: string, length: nat): Option<Finding> {
    if key !in recorded then (if length > FUNCTION_LINE_LIMIT then Some(NewOversized(key, length)) else None)
    else if length > recorded[key] then Some(FunctionGrew(key, recorded[key], length))
    else if length < recorded[key] then Some(FunctionShrank(key, recorded[key], length))
    else None
  }

  function FileFinding(current: Lengths, path: string, recorded: nat): Option<Finding> {
    if path !in current then Some(FileGone(path))
    else if current[path] > recorded then Some(FileGrew(path, recorded, current[path]))
    else if current[path] < recorded then Some(FileShrank(path, recorded, current[path]))
    else None
  }

  function Note(r: Report, finding: Option<Finding>): Report {
    if finding.None? then r
    else if IsViolation(finding.value) then r.(violations := r.violations + [finding.value])
    else r.(notices := r.notices + [finding.value])
  }

  const SILENT := Report([], [])

  /** The report on functions, in the order of keys. */
  function FunctionReport(measured: Lengths, recorded: Lengths, keys: seq<string>): Report
    requires forall key :: key in keys ==> key in measured
  {
    if keys == [] then SILENT
    else
      var last := keys[|keys| - 1];
      Note(FunctionReport(measured, recorded, keys[..|keys| - 1]), FunctionFinding(recorded, last, measured[last]))
  }

  /** The report on files, after what was reported so far. */
  function FileReport(sofar: Report, current: Lengths, recorded: Lengths, paths: seq<string>): Report
    requires forall path :: path in paths ==> path in recorded
  {
    if paths == [] then sofar
    else
      var last := paths[|paths| - 1];
      Note(FileReport(sofar, current, recorded, paths[..|paths| - 1]), FileFinding(current, last, recorded[last]))
  }

  ghost function Reported(measured: Lengths, current: Lengths, b: Baseline): Report {
    FileReport(FunctionReport(measured, b.functions, InOrder(measured.Keys)), current, b.files, InOrder(b.files.Keys))
  }

  ghost function Checked(tree: Tree, file: Option<Baseline>): Result<Report, Failure> {
    match file
    case None => Err(NoBaseline)
    case Some(b) =>
      match Measured(tree)
      case Err(e) => Err(e)
      case Ok(measured) => Ok(Reported(measured, MeasureFiles(tree, b.files.Keys), b))
  }

  lemma FunctionReportNext(measured: Lengths, recorded: Lengths, keys: seq<string>, i: nat)
    requires i < |keys| && forall key :: key in keys ==> key in measured
    ensures FunctionReport(measured, recorded, keys[..i + 1])
         == Note(FunctionReport(measured, recorded, keys[..i]), FunctionFinding(recorded, keys[i], measured[keys[i]]))
  {
    assert keys[..i + 1][..i] == keys[..i];
  }

  method ReportFunctions(measured: Lengths, recorded: Lengths) returns (violations: seq<Finding>, notices: seq<Finding>)
    ensures Report(violations, notices) == FunctionReport(measured, recorded, InOrder(measured.Keys))
  {
    violations, notices := [], [];
    var keys := SortedKeys(measured.Keys);
    for i := 0 to |keys|
      invariant Report(violations, notices) == FunctionReport(measured, recorded, keys[..i])
    {
      FunctionReportNext(measured, recorded, keys, i);
      var key, length := keys[i], measured[keys[i]];
      if key !in recorded {
        if length > FUNCTION_LINE_LIMIT {
          violations := violations + [NewOversized(key, length)];
        }
      } else if length > recorded[key] {
        violations := violations + [FunctionGrew(key, recorded[key], length)];
      } else if length < recorded[key] {
        notices := notices + [FunctionShrank(key, recorded[key], length)];
      }
    }
    assert keys[..|keys|] == keys;
  }

  method ReportFiles(sofar: Report, current: Lengths, recorded: Lengths)
    returns (violations: seq<Finding>, notices: seq<Finding>)
    ensures Report(violations, notices) == FileReport(sofar, current, recorded, InOrder(recorded.Keys))
  {
    violations, notices := sofar.violations, sofar.notices;
    var paths := SortedKeys(recorded.Keys);
    for i := 0 to |paths|
      invariant Report(violations, notices) == FileReport(sofar, current, recorded, paths[..i])
    {
      assert paths[..i + 1][..i] == paths[..i];
      var path, was := paths[i], recorded[paths[i]];
      if path !in current {
        notices := notices + [FileGone(path)];
      } else if current[path] > was {
        violations := violations + [FileGrew(path, was, current[path])];
      } else if current[path] < was {
        notices := notices + [FileShrank(path, was, current[path])];
      }
    }
    assert paths[..|paths|] == paths;
  }

  // ---- The order of the report ---------------------------------------------------------------

  function KeyOf(f: Finding): string {
    match f
    case NewOversized(key, _) => key
    case FunctionGrew(key, _, _) => key
    case FunctionShrank(key, _, _) => key
    case FileGone(path) => path
    case FileGrew(path, _, _) => path
    case FileShrank(path, _, _) => path
  }

  function Keys(findings: seq<Finding>): seq<string> { Map(KeyOf, findings) }

  ghost predicate NoneTwice(keys: seq<string>) { forall i, j :: 0 <= i < j < |keys| ==> keys[i] != keys[j] }

  /** The keys appear in order, each once, and come from a sorted list. */
  ghost predicate Along(found: seq<string>, keys: seq<string>) {
    SortedBy(found, TextLe) && NoneTwice(found) && forall k :: k in found ==> k in keys
  }

  lemma AlongNext(found: seq<string>, keys: seq<string>, n: nat)
    requires n < |keys| && SortedBy(keys, TextLe) && NoneTwice(keys) && Along(found, keys[..n])
    ensures Along(found, keys[..n + 1]) && Along(found + [keys[n]], keys[..n + 1])
  {
    forall k | k in found ensures k in keys[..n + 1] && TextLe(k, keys[n]) && k != keys[n] {
      var i :| 0 <= i < n && keys[..n][i] == k;
      assert keys[i] == k && keys[..n + 1][i] == k;
    }
    assert keys[n] == keys[..n + 1][n];
    forall i | 0 <= i < |found| ensures TextLe(found[i], keys[n]) && found[i] != keys[n] {
      assert found[i] in found;
    }
  }

  lemma {:induction false} FunctionsInOrder(measured: Lengths, recorded: Lengths, keys: seq<string>, n: nat)
    requires n <= |keys| && SortedBy(keys, TextLe) && NoneTwice(keys) && forall key :: key in keys ==> key in measured
    ensures var r := FunctionReport(measured, recorded, keys[..n]);
            Along(Keys(r.violations), keys[..n]) && Along(Keys(r.notices), keys[..n])
  {
    if n > 0 {
      FunctionsInOrder(measured, recorded, keys, n - 1);
      FunctionReportNext(measured, recorded, keys, n - 1);
      var before := FunctionReport(measured, recorded, keys[..n - 1]);
      var finding := FunctionFinding(recorded, keys[n - 1], measured[keys[n - 1]]);
      AlongNext(Keys(before.violations), keys, n - 1);
      AlongNext(Keys(before.notices), keys, n - 1);
      if finding.Some? {
        assert KeyOf(finding.value) == keys[n - 1];
        KeysSnoc(before.violations, finding.value);
        KeysSnoc(before.notices, finding.value);
      }
    }
  }

  lemma KeysSnoc(findings: seq<Finding>, f: Finding)
    ensures Keys(findings + [f]) == Keys(findings) + [KeyOf(f)]
  {
  }

  /** The findings after those on functions, which are on files. */
  lemma {:induction false} FilesInOrder(sofar: Report, current: Lengths, recorded: Lengths, paths: seq<string>, n: nat)
    returns (violations: seq<Finding>, notices: seq<Finding>)
    requires n <= |paths| && SortedBy(paths, TextLe) && NoneTwice(paths)
    requires forall path :: path in paths ==> path in recorded
    ensures FileReport(sofar, current, recorded, paths[..n])
            == Report(sofar.violations + violations, sofar.notices + notices)
    ensures Along(Keys(violations), paths[..n]) && Along(Keys(notices), paths[..n])
    ensures forall f :: f in violations ==> f.FileGrew?
    ensures forall f :: f in notices ==> f.FileGone? || f.FileShrank?
  {
    if n == 0 {
      violations, notices := [], [];
    } else {
      violations, notices := FilesInOrder(sofar, current, recorded, paths, n - 1);
      assert paths[..n][..n - 1] == paths[..n - 1];
      var finding := FileFinding(current, paths[n - 1], recorded[paths[n - 1]]);
      AlongNext(Keys(violations), paths, n - 1);
      AlongNext(Keys(notices), paths, n - 1);
      if finding.Some? {
        assert KeyOf(finding.value) == paths[n - 1];
        KeysSnoc(violations, finding.value);
        KeysSnoc(notices, finding.value);
        if IsViolation(finding.value) {
          violations := violations + [finding.value];
        } else {
          notices := notices + [finding.value];
        }
      }
    }
  }

  /** Violations and notices are each in order of their keys, no key twice. */
  ghost predicate InKeyOrder(r: Report) {
    && SortedBy(Keys(r.violations), TextLe) && NoneTwice(Keys(r.violations))
    && SortedBy(Keys(r.notices), TextLe) && NoneTwice(Keys(r.notices))
  }

  lemma {:induction false} FunctionKinds(measured: Lengths, recorded: Lengths, keys: seq<string>)
    requires forall key :: key in keys ==> key in measured
    ensures var r := FunctionReport(measured, recorded, keys);
            && (forall f :: f in r.violations ==> f.NewOversized? || f.FunctionGrew?)
            && (forall f :: f in r.notices ==> f.FunctionShrank?)
  {
    if keys != [] {
      FunctionKinds(measured, recorded, keys[..|keys| - 1]);
    }
  }

  /** Violations and notices each list the functions in order of keys, and then the files in order of
      paths. */
  lemma ReportInOrder(measured: Lengths, current: Lengths, b: Baseline)
    returns (functions: Report, files: Report)
    ensures Reported(measured, current, b)
         == Report(functions.violations + files.violations, functions.notices + files.notices)
    ensures InKeyOrder(functions) && InKeyOrder(files)
    ensures forall f :: f in functions.violations ==> f.NewOversized? || f.FunctionGrew?
    ensures forall f :: f in functions.notices ==> f.FunctionShrank?
    ensures forall f :: f in files.violations ==> f.FileGrew?
    ensures forall f :: f in files.notices ==> f.FileGone? || f.FileShrank?
  {
    FunctionsSorted(measured, b.functions);
    FunctionKinds(measured, b.functions, InOrder(measured.Keys));
    functions := FunctionReport(measured, b.functions, InOrder(measured.Keys));
    files := FilesSorted(functions, current, b.files);
  }

  lemma FunctionsSorted(measured: Lengths, recorded: Lengths)
    ensures InKeyOrder(FunctionReport(measured, recorded, InOrder(measured.Keys)))
  {
    var keys := InOrder(measured.Keys);
    InOrderSorted(measured.Keys);
    InOrderOnce(measured.Keys);
    assert keys[..|keys|] == keys;
    FunctionsInOrder(measured, recorded, keys, |keys|);
  }

  lemma FilesSorted(sofar: Report, current: Lengths, recorded: Lengths) returns (files: Report)
    ensures FileReport(sofar, current, recorded, InOrder(recorded.Keys))
         == Report(sofar.violations + files.violations, sofar.notices + files.notices)
    ensures InKeyOrder(files)
    ensures forall f :: f in files.violations ==> f.FileGrew?
    ensures forall f :: f in files.notices ==> f.FileGone? || f.FileShrank?
  {
    var paths := InOrder(recorded.Keys);
    InOrderSorted(recorded.Keys);
    InOrderOnce(recorded.Keys);
    assert paths[..|paths|] == paths;
    var violations, notices := FilesInOrder(sofar, current, recorded, paths, |paths|);
    files := Report(violations, notices);
  }

  // ---- What the check reports ----------------------------------------------------------------

  ghost predicate Contains(r: Report, f: Finding) {
    if IsViolation(f) then f in r.violations else f in r.notices
  }

  ghost predicate SortedOut(r: Report) {
    && (forall f :: f in r.violations ==> IsViolation(f))
    && (forall f :: f in r.notices ==> !IsViolation(f))
  }

  ghost predicate AboutFunction(measured: Lengths, recorded: Lengths, key: string, f: Finding) {
    key in measured && FunctionFinding(recorded, key, measured[key]) == Some(f)
  }

  ghost predicate AboutFile(current: Lengths, recorded: Lengths, path: string, f: Finding) {
    path in recorded && FileFinding(current, path, recorded[path]) == Some(f)
  }

  lemma NoteIff(r: Report, finding: Option<Finding>, f: Finding)
    requires SortedOut(r)
    ensures SortedOut(Note(r, finding))
    ensures Contains(Note(r, finding), f) <==> Contains(r, f) || finding == Some(f)
  {
  }

  lemma InLastOrFront<T>(s: seq<T>, x: T)
    requires s != []
    ensures x in s <==> x in s[..|s| - 1] || x == s[|s| - 1]
  {
    assert s == s[..|s| - 1] + [s[|s| - 1]];
  }

  lemma {:induction false} FunctionReportIff(measured: Lengths, recorded: Lengths, keys: seq<string>, f: Finding)
    requires forall key :: key in keys ==> key in measured
    ensures var r := FunctionReport(measured, recorded, keys);
            && SortedOut(r)
            && (Contains(r, f) <==> exists key :: key in keys && AboutFunction(measured, recorded, key, f))
  {
    if keys != [] {
      var front, last := keys[..|keys| - 1], keys[|keys| - 1];
      FunctionReportIff(measured, recorded, front, f);
      NoteIff(FunctionReport(measured, recorded, front), FunctionFinding(recorded, last, measured[last]), f);
      forall key ensures key in keys <==> key in front || key == last {
        InLastOrFront(keys, key);
      }
      assert FunctionFinding(recorded, last, measured[last]) == Some(f) <==> AboutFunction(measured, recorded, last, f);
    }
  }

  lemma {:induction false} FileReportIff(sofar: Report, current: Lengths, recorded: Lengths, paths: seq<string>,
                                         f: Finding)
    requires SortedOut(sofar)
    requires forall path :: path in paths ==> path in recorded
    ensures var r := FileReport(sofar, current, recorded, paths);
            && SortedOut(r)
            && (Contains(r, f) <==> (Contains(sofar, f)
                                     || exists path :: path in paths && AboutFile(current, recorded, path, f)))
  {
    if paths != [] {
      var front, last := paths[..|paths| - 1], paths[|paths| - 1];
      FileReportIff(sofar, current, recorded, front, f);
      NoteIff(FileReport(sofar, current, recorded, front), FileFinding(current, last, recorded[last]), f);
      forall path ensures path in paths <==> path in front || path == last {
        InLastOrFront(paths, path);
      }
      assert FileFinding(current, last, recorded[last]) == Some(f) <==> AboutFile(current, recorded, last, f);
    }
  }

  /** A finding is reported, on its side, exactly when it is about a measured function or a recorded file. */
  lemma ReportIff(measured: Lengths, current: Lengths, b: Baseline, f: Finding)
    ensures SortedOut(Reported(measured, current, b))
    ensures Contains(Reported(measured, current, b), f)
       <==> ((exists key :: AboutFunction(measured, b.functions, key, f))
             || (exists path :: AboutFile(current, b.files, path, f)))
  {
    var keys, paths := InOrder(measured.Keys), InOrder(b.files.Keys);
    FunctionReportIff(measured, b.functions, keys, f);
    FileReportIff(FunctionReport(measured, b.functions, keys), current, b.files, paths, f);
    if exists key :: AboutFunction(measured, b.functions, key, f) {
      var key :| AboutFunction(measured, b.functions, key, f);
      assert key in keys;
    }
    if exists path :: AboutFile(current, b.files, path, f) {
      var path :| AboutFile(current, b.files, path, f);
      assert path in paths;
    }
  }

  /** The most lines a function may have. */
  function Bound(b: Baseline, key: string): nat {
    if key in b.functions then b.functions[key] else 100
  }

  ghost predicate Within(measured: Lengths, current: Lengths, b: Baseline) {
    && (forall key :: key in measured ==> measured[key] <= Bound(b, key))
    && (forall path :: path in b.files && path in current ==> current[path] <= b.files[path])
  }

  ghost predicate Exact(measured: Lengths, current: Lengths, b: Baseline) {
    && (forall key :: key in measured ==>
          if key in b.functions then measured[key] == b.functions[key] else measured[key] <= 100)
    && (forall path :: path in b.files ==> path in current && current[path] == b.files[path])
  }

  /** The report holds exactly the findings there are. */
  ghost predicate Faithful(r: Report, measured: Lengths, current: Lengths, b: Baseline) {
    && SortedOut(r)
    && (forall key, f :: AboutFunction(measured, b.functions, key, f) ==> Contains(r, f))
    && (forall path, f :: AboutFile(current, b.files, path, f) ==> Contains(r, f))
    && (forall f :: Contains(r, f) ==>
          (exists key :: AboutFunction(measured, b.functions, key, f))
              || (exists path :: AboutFile(current, b.files, path, f)))
  }

  lemma ReportedFaithful(measured: Lengths, current: Lengths, b: Baseline)
    ensures Faithful(Reported(measured, current, b), measured, current, b)
  {
    forall f ensures Contains(Reported(measured, current, b), f)
        <==> ((exists key :: AboutFunction(measured, b.functions, key, f))
              || (exists path :: AboutFile(current, b.files, path, f)))
    {
      ReportIff(measured, current, b, f);
    }
    ReportIff(measured, current, b, FileGone(""));
  }

  lemma FunctionKept(r: Report, measured: Lengths, current: Lengths, b: Baseline, key: string)
    requires Faithful(r, measured, current, b) && key in measured
    ensures r.violations == [] ==> measured[key] <= Bound(b, key)
    ensures r == SILENT ==> if key in b.functions
            then measured[key] == b.functions[key] else measured[key] <= FUNCTION_LINE_LIMIT
  {
    var finding := FunctionFinding(b.functions, key, measured[key]);
    if finding.Some? {
      assert AboutFunction(measured, b.functions, key, finding.value);
      assert Contains(r, finding.value);
    }
  }

  lemma FileKept(r: Report, measured: Lengths, current: Lengths, b: Baseline, path: string)
    requires Faithful(r, measured, current, b) && path in b.files
    ensures r.violations == [] && path in current ==> current[path] <= b.files[path]
    ensures r == SILENT ==> path in current && current[path] == b.files[path]
  {
    var finding := FileFinding(current, path, b.files[path]);
    if finding.Some? {
      assert AboutFile(current, b.files, path, finding.value);
      assert Contains(r, finding.value);
    }
  }

  lemma WithinNoViolation(r: Report, measured: Lengths, current: Lengths, b: Baseline)
    requires Faithful(r, measured, current, b) && Within(measured, current, b)
    ensures r.violations == []
  {
    if r.violations != [] {
      var f := r.violations[0];
      assert f in r.violations && IsViolation(f) && Contains(r, f);
    }
  }

  lemma ExactNoNotice(r: Report, measured: Lengths, current: Lengths, b: Baseline)
    requires Faithful(r, measured, current, b) && Exact(measured, current, b)
    ensures r.notices == []
  {
    if r.notices != [] {
      var f := r.notices[0];
      assert f in r.notices && !IsViolation(f) && Contains(r, f);
    }
  }

  /** The check passes exactly when every function and every tracked file is within its bound. */
  lemma CheckPassesIff(measured: Lengths, current: Lengths, b: Baseline)
    ensures Reported(measured, current, b).violations == [] <==> Within(measured, current, b)
  {
    var r := Reported(measured, current, b);
    ReportedFaithful(measured, current, b);
    forall key | key in measured && r.violations == [] ensures measured[key] <= Bound(b, key) {
      FunctionKept(r, measured, current, b, key);
    }
    forall path | path in b.files && path in current && r.violations == [] ensures current[path] <= b.files[path] {
      FileKept(r, measured, current, b, path);
    }
    if Within(measured, current, b) {
      WithinNoViolation(r, measured, current, b);
    }
  }

  lemma SilentIsExact(r: Report, measured: Lengths, current: Lengths, b: Baseline)
    requires Faithful(r, measured, current, b) && r == SILENT
    ensures Exact(measured, current, b)
  {
    forall key | key in measured
      ensures if key in b.functions then measured[key] == b.functions[key] else measured[key] <= FUNCTION_LINE_LIMIT
    {
      FunctionKept(r, measured, current, b, key);
    }
    forall path | path in b.files ensures path in current && current[path] == b.files[path] {
      FileKept(r, measured, current, b, path);
    }
  }

  lemma ExactIsWithin(measured: Lengths, current: Lengths, b: Baseline)
    requires Exact(measured, current, b)
    ensures Within(measured, current, b)
  {
  }

  lemma FaithfulSilentIff(r: Report, measured: Lengths, current: Lengths, b: Baseline)
    requires Faithful(r, measured, current, b)
    ensures r == SILENT <==> Exact(measured, current, b)
  {
    if r == SILENT {
      SilentIsExact(r, measured, current, b);
    }
    if Exact(measured, current, b) {
      ExactIsWithin(measured, current, b);
      WithinNoViolation(r, measured, current, b);
      ExactNoNotice(r, measured, current, b);
    }
  }

  /** It has nothing at all to say exactly when the baseline is up to date. */
  lemma CheckSilentIff(measured: Lengths, current: Lengths, b: Baseline)
    ensures Reported(measured, current, b) == SILENT <==> Exact(measured, current, b)
  {
    ReportedFaithful(measured, current, b);
    FaithfulSilentIff(Reported(measured, current, b), measured, current, b);
  }

  // ---- The update ----------------------------------------------------------------------------

  function BuildBaseline(measured: Lengths, tree: Tree, tracked: set<string>): Baseline {
    Baseline(
      map key | key in measured && measured[key] > FUNCTION_LINE_LIMIT :: measured[key],
      MeasureFiles(tree, tracked))
  }

  function Tracked(file: Option<Baseline>): set<string> {
    if file.None? then INITIAL_TRACKED_FILES else file.value.files.Keys
  }

  function Updated(tree: Tree, file: Option<Baseline>): Result<Baseline, Failure> {
    match Measured(tree)
    case Err(e) => Err(e)
    case Ok(measured) => Ok(BuildBaseline(measured, tree, Tracked(file)))
  }

  datatype Section = Functions | Files

  datatype Change =
    | Added(section: Section, key: string, now: nat)
    | Removed(section: Section, key: string, was: nat)
    | Grew(section: Section, key: string, was: nat, now: nat)
    | Shrank(section: Section, key: string, was: nat, now: nat)

  function ChangeOf(section: Section, before: Lengths, after: Lengths, key: string): seq<Change> {
    if key in after && key !in before then [Added(section, key, after[key])]
    else if key in before && key !in after then [Removed(section, key, before[key])]
    else if key !in before then []
    else if after[key] > before[key] then [Grew(section, key, before[key], after[key])]
    else if after[key] < before[key] then [Shrank(section, key, before[key], after[key])]
    else []
  }

  function Changes(section: Section, before: Lengths, after: Lengths, keys: seq<string>): seq<Change> {
    if keys == [] then []
    else Changes(section, before, after, keys[..|keys| - 1]) + ChangeOf(section, before, after, keys[|keys| - 1])
  }

  lemma ChangesNext(section: Section, before: Lengths, after: Lengths, keys: seq<string>, i: nat, c: seq<Change>)
    requires i < |keys| && c == ChangeOf(section, before, after, keys[i])
    ensures Changes(section, before, after, keys[..i + 1]) == Changes(section, before, after, keys[..i]) + c
  {
    assert keys[..i + 1][..i] == keys[..i];
  }

  ghost function SectionChanges(section: Section, before: Lengths, after: Lengths): seq<Change> {
    Changes(section, before, after, InOrder(after.Keys - before.Keys))
    + Changes(section, before, after, InOrder(before.Keys - after.Keys))
    + Changes(section, before, after, InOrder(after.Keys * before.Keys))
  }

  function Before(file: Option<Baseline>): Baseline {
    if file.None? then Baseline(map[], map[]) else file.value
  }

  ghost function Described(file: Option<Baseline>, now: Baseline): seq<Change> {
    SectionChanges(Functions, Before(file).functions, now.functions)
        + SectionChanges(Files, Before(file).files, now.files)
  }

  method DescribeAdded(section: Section, before: Lengths, after: Lengths) returns (lines: seq<Change>)
    ensures lines == Changes(section, before, after, InOrder(after.Keys - before.Keys))
  {
    var keys := SortedKeys(after.Keys - before.Keys);
    lines := [];
    for i := 0 to |keys|
      invariant lines == Changes(section, before, after, keys[..i])
    {
      assert keys[i] in keys;
      var line := Added(section, keys[i], after[keys[i]]);
      ChangesNext(section, before, after, keys, i, [line]);
      lines := lines + [line];
    }
    assert keys[..|keys|] == keys;
  }

  method DescribeRemoved(section: Section, before: Lengths, after: Lengths) returns (lines: seq<Change>)
    ensures lines == Changes(section, before, after, InOrder(before.Keys - after.Keys))
  {
    var keys := SortedKeys(before.Keys - after.Keys);
    lines := [];
    for i := 0 to |keys|
      invariant lines == Changes(section, before, after, keys[..i])
    {
      assert keys[i] in keys;
      var line := Removed(section, keys[i], before[keys[i]]);
      ChangesNext(section, before, after, keys, i, [line]);
      lines := lines + [line];
    }
    assert keys[..|keys|] == keys;
  }

  method DescribeCommon(section: Section, before: Lengths, after: Lengths) returns (lines: seq<Change>)
    ensures lines == Changes(section, before, after, InOrder(after.Keys * before.Keys))
  {
    var keys := SortedKeys(after.Keys * before.Keys);
    lines := [];
    for i := 0 to |keys|
      invariant lines == Changes(section, before, after, keys[..i])
    {
      var key := keys[i];
      assert key in keys;
      if after[key] > before[key] {
        var line := Grew(section, key, before[key], after[key]);
        ChangesNext(section, before, after, keys, i, [line]);
        lines := lines + [line];
      } else if after[key] < before[key] {
        var line := Shrank(section, key, before[key], after[key]);
        ChangesNext(section, before, after, keys, i, [line]);
        lines := lines + [line];
      } else {
        ChangesNext(section, before, after, keys, i, []);
      }
    }
    assert keys[..|keys|] == keys;
  }

  method DescribeSection(section: Section, before: Lengths, after: Lengths) returns (lines: seq<Change>)
    ensures lines == SectionChanges(section, before, after)
  {
    var added := DescribeAdded(section, before, after);
    var removed := DescribeRemoved(section, before, after);
    var common := DescribeCommon(section, before, after);
    lines := added + removed + common;
  }

  /** The directory the script works on: the source tree and the baseline file beside it. */
  class Root {
    var tree: Tree
    var baseline: Option<Baseline>

    constructor (tree: Tree, baseline: Option<Baseline>)
      ensures this.tree == tree && this.baseline == baseline
    {
      this.tree, this.baseline := tree, baseline;
    }

    method Check() returns (result: Result<Report, Failure>)
      ensures result == Checked(tree, baseline)
    {
      if baseline.None? {
        return Err(NoBaseline);
      }
      var b := baseline.value;
      var measured := MeasureFunctions(tree);
      if measured.Err? {
        return Err(measured.error);
      }
      var violations, notices := ReportFunctions(measured.value, b.functions);
      violations, notices := ReportFiles(Report(violations, notices), MeasureFiles(tree, b.files.Keys), b.files);
      result := Ok(Report(violations, notices));
    }

    /** Writes the new baseline and tells how it differs; a tree that cannot be parsed leaves it alone. */
    method Update() returns (result: Result<seq<Change>, Failure>)
      modifies this`baseline
      ensures match Updated(tree, old(baseline)) {
        case Err(e) => result == Err(e) && baseline == old(baseline)
        case Ok(now) => baseline == Some(now) && result == Ok(Described(old(baseline), now))
      }
    {
      var tracked := Tracked(baseline);
      var measured := MeasureFunctions(tree);
      if measured.Err? {
        return Err(measured.error);
      }
      var was, now := Before(baseline), BuildBaseline(measured.value, tree, tracked);
      baseline := Some(now);
      var functions := DescribeSection(Functions, was.functions, now.functions);
      var files := DescribeSection(Files, was.files, now.files);
      result := Ok(functions + files);
    }
  }

  // ---- The ratchet ---------------------------------------------------------------------------

  /** Right after an update, the check on the same tree has nothing to say. */
  lemma UpdateThenSilent(tree: Tree, file: Option<Baseline>)
    requires Updated(tree, file).Ok?
    ensures Checked(tree, Some(Updated(tree, file).value)) == Ok(SILENT)
  {
    var b, measured := Updated(tree, file).value, Measured(tree).value;
    CheckSilentIff(measured, MeasureFiles(tree, b.files.Keys), b);
  }

  ghost predicate Passes(tree: Tree, b: Baseline) {
    var r := Checked(tree, Some(b));
    r.Ok? && r.value.violations == []
  }

  /** No recorded length is below the limit. */
  ghost predicate AboveLimit(b: Baseline) {
    forall key :: key in b.functions ==> b.functions[key] >= 100
  }

  ghost predicate Tightens(b: Baseline, now: Baseline) {
    && (forall key :: Bound(now, key) <= Bound(b, key))
    && (forall path :: path in now.files ==> path in b.files && now.files[path] <= b.files[path])
  }

  lemma PassingIsWithin(tree: Tree, b: Baseline)
    ensures Passes(tree, b) <==> Measured(tree).Ok? && Within(Measured(tree).value, MeasureFiles(tree, b.files.Keys), b)
  {
    if Measured(tree).Ok? {
      CheckPassesIff(Measured(tree).value, MeasureFiles(tree, b.files.Keys), b);
    }
  }

  /** On a tree that passes, an update raises no bound exactly when no recorded length is below the
      limit; a baseline edited by hand below it is loosened. */
  lemma TightensIff(tree: Tree, b: Baseline)
    requires Passes(tree, b)
    ensures Updated(tree, Some(b)).Ok?
    ensures Tightens(b, Updated(tree, Some(b)).value) <==> AboveLimit(b)
    ensures AboveLimit(Updated(tree, Some(b)).value)
    ensures forall path :: path in Updated(tree, Some(b)).value.files <==> path in b.files && path in tree.lines
  {
    PassingIsWithin(tree, b);
    BuiltTightensIff(Measured(tree).value, tree, b);
  }

  lemma BuiltTightensIff(measured: Lengths, tree: Tree, b: Baseline)
    requires Within(measured, MeasureFiles(tree, b.files.Keys), b)
    ensures var now := BuildBaseline(measured, tree, b.files.Keys);
            && (Tightens(b, now) <==> AboveLimit(b))
            && AboveLimit(now)
            && (forall path :: path in now.files <==> path in b.files && path in tree.lines)
  {
    var now := BuildBaseline(measured, tree, b.files.Keys);
    if Tightens(b, now) {
      forall key | key in b.functions ensures b.functions[key] >= FUNCTION_LINE_LIMIT {
        assert Bound(now, key) <= Bound(b, key);
      }
    }
    if AboveLimit(b) {
      forall key ensures Bound(now, key) <= Bound(b, key) {
      }
    }
  }

  const EMPTY_TREE := Tree([], map[])
  const HAND_EDITED := Baseline(map["app/a.py::f" := 5], map[])

  /** A baseline edited by hand: the tree passes, and the update loosens a bound from 5 to the limit. */
  lemma HandEditedLoosens()
    ensures Passes(EMPTY_TREE, HAND_EDITED) && !AboveLimit(HAND_EDITED)
    ensures var now := Updated(EMPTY_TREE, Some(HAND_EDITED)).value;
            Bound(HAND_EDITED, "app/a.py::f") == 5 && Bound(now, "app/a.py::f") == FUNCTION_LINE_LIMIT
  {
    assert Measured(EMPTY_TREE) == Ok(map[]);
    PassingIsWithin(EMPTY_TREE, HAND_EDITED);
    assert "app/a.py::f" in HAND_EDITED.functions;
  }

  /** An update on any tree raises the bound of a function exactly when it prints the function as
      added or grown, or as removed with a recorded length below the limit. */
  lemma RaisesArePrinted(tree: Tree, b: Baseline, key: string)
    requires Updated(tree, Some(b)).Ok?
    ensures var now := Updated(tree, Some(b)).value;
            Bound(now, key) > Bound(b, key) <==>
              exists c :: c in Described(Some(b), now) && IsRaise(c, key)
  {
    var now := Updated(tree, Some(b)).value;
    forall c ensures c in Described(Some(b), now) <==> IsChange(b, now, c) {
      DescribedIff(b, now, c);
    }
    RaisesAreDescribed(b, now, key, Described(Some(b), now));
  }

  lemma RaisesAreDescribed(b: Baseline, now: Baseline, key: string, described: seq<Change>)
    requires forall k :: k in now.functions ==> now.functions[k] > FUNCTION_LINE_LIMIT
    requires forall c :: c in described <==> IsChange(b, now, c)
    ensures Bound(now, key) > Bound(b, key) <==> exists c :: c in described && IsRaise(c, key)
  {
    if Bound(now, key) > Bound(b, key) {
      var c := ChangeOf(Functions, b.functions, now.functions, key)[0];
      assert IsChange(b, now, c) && IsRaise(c, key);
    }
    if exists c :: c in described && IsRaise(c, key) {
      var c :| c in described && IsRaise(c, key);
      assert IsChange(b, now, c);
    }
  }

  /** c is a difference between two baselines. */
  predicate IsChange(b: Baseline, now: Baseline, c: Change) {
    match c.section
    case Functions => c in ChangeOf(Functions, b.functions, now.functions, c.key)
    case Files => c in ChangeOf(Files, b.files, now.files, c.key)
  }

  lemma ChangesKnowTheirSection(section: Section, before: Lengths, after: Lengths, key: string, c: Change)
    requires c in ChangeOf(section, before, after, key)
    ensures c.section == section && c.key == key
  {
  }

  /** What is printed is every difference and nothing else. */
  lemma DescribedIff(b: Baseline, now: Baseline, c: Change)
    ensures c in Described(Some(b), now) <==> IsChange(b, now, c)
  {
    var functions, files := SectionChanges(Functions, b.functions, now.functions),
        SectionChanges(Files, b.files, now.files);
    SectionAll(Functions, b.functions, now.functions, functions);
    SectionAll(Files, b.files, now.files, files);
    SectionsTogether(b, now, c, functions, files);
  }

  lemma SectionAll(section: Section, before: Lengths, after: Lengths, changes: seq<Change>)
    requires changes == SectionChanges(section, before, after)
    ensures forall c :: c in changes <==> c in ChangeOf(section, before, after, c.key)
  {
    forall c ensures c in changes <==> c in ChangeOf(section, before, after, c.key) {
      SectionIff(section, before, after, c, changes);
    }
  }

  lemma SectionsTogether(b: Baseline, now: Baseline, c: Change, functions: seq<Change>, files: seq<Change>)
    requires forall d :: d in functions <==> d in ChangeOf(Functions, b.functions, now.functions, d.key)
    requires forall d :: d in files <==> d in ChangeOf(Files, b.files, now.files, d.key)
    ensures c in functions + files <==> IsChange(b, now, c)
  {
    if c in functions {
      ChangesKnowTheirSection(Functions, b.functions, now.functions, c.key, c);
    }
    if c in files {
      ChangesKnowTheirSection(Files, b.files, now.files, c.key, c);
    }
  }

  predicate IsRaise(c: Change, key: string) {
    && c.section == Functions && c.key == key
    && (c.Added? || c.Grew? || (c.Removed? && c.was < FUNCTION_LINE_LIMIT))
  }

  lemma {:induction false} ChangesIff(section: Section, before: Lengths, after: Lengths, keys: seq<string>, c: Change)
    ensures c in Changes(section, before, after, keys)
            <==> c.key in keys && c in ChangeOf(section, before, after, c.key)
  {
    if keys != [] {
      ChangesIff(section, before, after, keys[..|keys| - 1], c);
      assert c.key in keys <==> c.key in keys[..|keys| - 1] || c.key == keys[|keys| - 1];
    }
  }

  /** Every difference between two sections is printed, and nothing else. */
  lemma SectionIff(section: Section, before: Lengths, after: Lengths, c: Change, changes: seq<Change>)
    requires changes == SectionChanges(section, before, after)
    ensures c in changes <==> c in ChangeOf(section, before, after, c.key)
  {
    ChangesIff(section, before, after, InOrder(after.Keys - before.Keys), c);
    ChangesIff(section, before, after, InOrder(before.Keys - after.Keys), c);
    ChangesIff(section, before, after, InOrder(after.Keys * before.Keys), c);
  }

  // ---- Every run -----------------------------------------------------------------------------

  datatype Step = Edit(tree: Tree) | Update

  datatype State = State(tree: Tree, baseline: Baseline)

  function Next(s: State, step: Step): State {
    match step
    case Edit(tree) => s.(tree := tree)
    case Update =>
      match Updated(s.tree, Some(s.baseline))
      case Ok(b) => s.(baseline := b)
      case Err(_) => s
  }

  function Run(s: State, steps: seq<Step>): State {
    if steps == [] then s else Next(Run(s, steps[..|steps| - 1]), steps[|steps| - 1])
  }

  /** Updates are only made on trees that pass. */
  ghost predicate Guarded(s: State, steps: seq<Step>) {
    forall i :: 0 <= i < |steps| && steps[i] == Update ==> PassesAfter(s, steps, i)
  }

  ghost predicate PassesAfter(s: State, steps: seq<Step>, i: nat)
    requires i <= |steps|
  {
    var t := Run(s, steps[..i]);
    Passes(t.tree, t.baseline)
  }

  /** Over every run, bounds only fall and no file comes under tracking. */
  lemma {:induction false} BoundsOnlyFall(s: State, steps: seq<Step>)
    requires AboveLimit(s.baseline) && Guarded(s, steps)
    ensures AboveLimit(Run(s, steps).baseline) && Tightens(s.baseline, Run(s, steps).baseline)
  {
    if steps != [] {
      var n := |steps| - 1;
      var front, t := steps[..n], Run(s, steps[..n]);
      forall i | 0 <= i < n && front[i] == Update ensures PassesAfter(s, front, i) {
        assert steps[i] == Update && front[..i] == steps[..i];
      }
      BoundsOnlyFall(s, front);
      if steps[n] == Update {
        assert PassesAfter(s, steps, n);
        TightensIff(t.tree, t.baseline);
        TightensCompose(s.baseline, t.baseline, Run(s, steps).baseline);
      }
    }
  }

  lemma TightensCompose(a: Baseline, b: Baseline, c: Baseline)
    requires Tightens(a, b) && Tightens(b, c)
    ensures Tightens(a, c)
  {
    forall key ensures Bound(c, key) <= Bound(a, key) {
      assert Bound(c, key) <= Bound(b, key) <= Bound(a, key);
    }
  }

  /** Whenever the check passes after a run, every function is within the bound it started with, and
      so is every file that is still tracked. */
  lemma RatchetHolds(s: State, steps: seq<Step>, key: string, path: string)
    requires AboveLimit(s.baseline) && Guarded(s, steps)
    requires var t := Run(s, steps); Passes(t.tree, t.baseline)
    ensures var t := Run(s, steps);
            && (key in Measured(t.tree).value ==> Measured(t.tree).value[key] <= Bound(s.baseline, key))
            && (path in t.baseline.files && path in t.tree.lines
                ==> path in s.baseline.files && t.tree.lines[path] <= s.baseline.files[path])
  {
    var t := Run(s, steps);
    BoundsOnlyFall(s, steps);
    PassingIsWithin(t.tree, t.baseline);
    assert Bound(t.baseline, key) <= Bound(s.baseline, key);
  }

  /** A file that has left tracking is never bounded again: an update tracks only what was tracked before. */
  lemma {:induction false} UntrackedStaysUntracked(s: State, steps: seq<Step>, path: string)
    requires path !in s.baseline.files
    ensures path !in Run(s, steps).baseline.files
  {
    if steps != [] {
      UntrackedStaysUntracked(s, steps[..|steps| - 1], path);
    }
  }
}
