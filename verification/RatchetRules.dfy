/** The findings, the errors and the new baseline of the structure ratchet, stated from lengths and files. */
module RatchetRules {
  import opened Wrappers
  import opened Sorting
  import opened TextOrder
  import opened StructureRatchet

  // ---- Findings ------------------------------------------------------------------------------

  ghost predicate FunctionFindings(r: Report, measured: Lengths, recorded: Lengths) {
    && (forall key, n :: NewOversized(key, n) in r.violations
                    <==> key in measured && key !in recorded && n == measured[key] > 100)
    && (forall key, was, now :: FunctionGrew(key, was, now) in r.violations
                           <==> key in measured && key in recorded
                                && was == recorded[key] && now == measured[key] > was)
    && (forall key, was, now :: FunctionShrank(key, was, now) in r.notices
                           <==> key in measured && key in recorded
                                && was == recorded[key] && now == measured[key] < was)
  }

  ghost predicate FileFindings(r: Report, current: Lengths, recorded: Lengths) {
    && (forall path :: FileGone(path) in r.notices <==> path in recorded && path !in current)
    && (forall path, was, now :: FileGrew(path, was, now) in r.violations
                            <==> path in recorded && path in current
                                 && was == recorded[path] && now == current[path] > was)
    && (forall path, was, now :: FileShrank(path, was, now) in r.notices
                            <==> path in recorded && path in current
                                 && was == recorded[path] && now == current[path] < was)
  }

  lemma FunctionFindingIs(measured: Lengths, recorded: Lengths, key: string, f: Finding)
    ensures AboutFunction(measured, recorded, key, f) <==>
              && key in measured
              && match f {
                   case NewOversized(k, n) => k == key && key !in recorded && n == measured[key] > 100
                   case FunctionGrew(k, was, now) =>
                     k == key && key in recorded && was == recorded[key] && now == measured[key] > was
                   case FunctionShrank(k, was, now) =>
                     k == key && key in recorded && was == recorded[key] && now == measured[key] < was
                   case _ => false
                 }
  {
  }

  lemma FileFindingIs(current: Lengths, recorded: Lengths, path: string, f: Finding)
    ensures AboutFile(current, recorded, path, f) <==>
              && path in recorded
              && match f {
                   case FileGone(p) => p == path && path !in current
                   case FileGrew(p, was, now) =>
                     p == path && path in current && was == recorded[path] && now == current[path] > was
                   case FileShrank(p, was, now) =>
                     p == path && path in current && was == recorded[path] && now == current[path] < was
                   case _ => false
                 }
  {
  }

  /** The finding is listed on its side exactly when it is about its function or its file. */
  ghost predicate Listed(r: Report, measured: Lengths, current: Lengths, b: Baseline, f: Finding) {
    f in (if f.NewOversized? || f.FunctionGrew? || f.FileGrew? then r.violations else r.notices)
    <==> (AboutFunction(measured, b.functions, KeyOf(f), f) || AboutFile(current, b.files, KeyOf(f), f))
  }

  ghost predicate Exactly(r: Report, measured: Lengths, current: Lengths, b: Baseline) {
    forall f: Finding :: Listed(r, measured, current, b, f)
  }

  lemma Reports(measured: Lengths, current: Lengths, b: Baseline, f: Finding)
    ensures Listed(Reported(measured, current, b), measured, current, b, f)
  {
    ReportIff(measured, current, b, f);
    if exists key :: AboutFunction(measured, b.functions, key, f) {
      var key :| AboutFunction(measured, b.functions, key, f);
      FunctionFindingIs(measured, b.functions, key, f);
    }
    if exists path :: AboutFile(current, b.files, path, f) {
      var path :| AboutFile(current, b.files, path, f);
      FileFindingIs(current, b.files, path, f);
    }
  }

  /** The check reports a function that is not recorded exactly when it is longer than a hundred lines, one
      that is recorded exactly when it grew or shrank, and a recorded file exactly when it is gone, grew or
      shrank; with the lengths, and what grew or is new among the violations. */
  lemma ReportedExactly(measured: Lengths, current: Lengths, b: Baseline)
    ensures FunctionFindings(Reported(measured, current, b), measured, b.functions)
    ensures FileFindings(Reported(measured, current, b), current, b.files)
  {
    forall f: Finding ensures Listed(Reported(measured, current, b), measured, current, b, f) {
      Reports(measured, current, b, f);
    }
    AllFunctionFindings(Reported(measured, current, b), measured, current, b);
    AllFileFindings(Reported(measured, current, b), measured, current, b);
  }


  lemma FunctionListed(r: Report, measured: Lengths, current: Lengths, b: Baseline, f: Finding)
    requires Exactly(r, measured, current, b) && (f.NewOversized? || f.FunctionGrew? || f.FunctionShrank?)
    ensures f in (if f.FunctionShrank? then r.notices else r.violations)
       <==> AboutFunction(measured, b.functions, KeyOf(f), f)
  {
    assert Listed(r, measured, current, b, f);
    FileFindingIs(current, b.files, KeyOf(f), f);
  }

  lemma FileListed(r: Report, measured: Lengths, current: Lengths, b: Baseline, f: Finding)
    requires Exactly(r, measured, current, b) && (f.FileGone? || f.FileGrew? || f.FileShrank?)
    ensures f in (if f.FileGrew? then r.violations else r.notices) <==> AboutFile(current, b.files, KeyOf(f), f)
  {
    assert Listed(r, measured, current, b, f);
    FunctionFindingIs(measured, b.functions, KeyOf(f), f);
  }

  lemma AllFunctionFindings(r: Report, measured: Lengths, current: Lengths, b: Baseline)
    requires Exactly(r, measured, current, b)
    ensures FunctionFindings(r, measured, b.functions)
  {
    forall key, n ensures NewOversized(key, n) in r.violations
                     <==> key in measured && key !in b.functions && n == measured[key] > 100
    {
      FunctionListed(r, measured, current, b, NewOversized(key, n));
    }
    forall key, was, now
      ensures FunctionGrew(key, was, now) in r.violations
         <==> key in measured && key in b.functions && was == b.functions[key] && now == measured[key] > was
    {
      FunctionListed(r, measured, current, b, FunctionGrew(key, was, now));
    }
    forall key, was, now
      ensures FunctionShrank(key, was, now) in r.notices
         <==> key in measured && key in b.functions && was == b.functions[key] && now == measured[key] < was
    {
      FunctionListed(r, measured, current, b, FunctionShrank(key, was, now));
    }
  }

  lemma AllFileFindings(r: Report, measured: Lengths, current: Lengths, b: Baseline)
    requires Exactly(r, measured, current, b)
    ensures FileFindings(r, current, b.files)
  {
    forall path ensures FileGone(path) in r.notices <==> path in b.files && path !in current {
      FileListed(r, measured, current, b, FileGone(path));
    }
    forall path, was, now
      ensures FileGrew(path, was, now) in r.violations
         <==> path in b.files && path in current && was == b.files[path] && now == current[path] > was
    {
      FileListed(r, measured, current, b, FileGrew(path, was, now));
    }
    forall path, was, now
      ensures FileShrank(path, was, now) in r.notices
         <==> path in b.files && path in current && was == b.files[path] && now == current[path] < was
    {
      FileListed(r, measured, current, b, FileShrank(path, was, now));
    }
  }

  // ---- Errors --------------------------------------------------------------------------------

  /** The first module that cannot be parsed. */
  ghost predicate FirstBroken(modules: seq<Module>, path: string) {
    exists i :: 0 <= i < |modules| && modules[i].parsed.None? && modules[i].path == path
      && forall j :: 0 <= j < i ==> modules[j].parsed.Some?
  }

  lemma BrokenNext(front: seq<Module>, last: Module, path: string)
    ensures FirstBroken(front + [last], path)
       <==> || FirstBroken(front, path)
            || (last.parsed.None? && last.path == path && forall j :: 0 <= j < |front| ==> front[j].parsed.Some?)
  {
    var modules := front + [last];
    if FirstBroken(front, path) {
      var i :| 0 <= i < |front| && front[i].parsed.None? && front[i].path == path
        && forall j :: 0 <= j < i ==> front[j].parsed.Some?;
      assert modules[i] == front[i] && forall j :: 0 <= j < i ==> modules[j] == front[j];
    }
    if last.parsed.None? && last.path == path && forall j :: 0 <= j < |front| ==> front[j].parsed.Some? {
      assert modules[|front|] == last && forall j :: 0 <= j < |front| ==> modules[j] == front[j];
    }
    if FirstBroken(modules, path) {
      var i :| 0 <= i < |modules| && modules[i].parsed.None? && modules[i].path == path
        && forall j :: 0 <= j < i ==> modules[j].parsed.Some?;
      assert forall j :: 0 <= j < i ==> modules[j] == front[j];
      if i < |front| {
        assert front[i] == modules[i];
      }
    }
  }

  lemma {:induction false} EntriesErrIff(modules: seq<Module>, path: string)
    ensures Entries(modules).Ok? <==> forall j :: 0 <= j < |modules| ==> modules[j].parsed.Some?
    ensures Entries(modules) == Err(CannotParse(path)) <==> FirstBroken(modules, path)
    ensures Entries(modules).Err? ==> Entries(modules).error.CannotParse?
  {
    if modules != [] {
      var front, last := modules[..|modules| - 1], modules[|modules| - 1];
      EntriesErrIff(front, path);
      BrokenNext(front, last, path);
      assert modules == front + [last];
      assert forall j :: 0 <= j < |front| ==> modules[j] == front[j];
    }
  }

  /** The check fails exactly when there is no baseline, or else with the first module that cannot be parsed;
      an update fails in the second case only. */
  lemma ErrorsIff(tree: Tree, file: Option<Baseline>, path: string)
    ensures Checked(tree, file) == Err(NoBaseline) <==> file.None?
    ensures Checked(tree, file) == Err(CannotParse(path)) <==> file.Some? && FirstBroken(tree.modules, path)
    ensures Checked(tree, file).Ok?
       <==> file.Some? && forall j :: 0 <= j < |tree.modules| ==> tree.modules[j].parsed.Some?
    ensures Updated(tree, file) == Err(CannotParse(path)) <==> FirstBroken(tree.modules, path)
    ensures Updated(tree, file).Ok? <==> forall j :: 0 <= j < |tree.modules| ==> tree.modules[j].parsed.Some?
  {
    EntriesErrIff(tree.modules, path);
  }

  /** What the check reports is about the measured functions and the recorded files that exist. */
  lemma CheckedReports(tree: Tree, b: Baseline) returns (current: Lengths)
    requires Checked(tree, Some(b)).Ok?
    ensures forall path :: path in current <==> path in b.files && path in tree.lines
    ensures forall path :: path in current ==> current[path] == tree.lines[path]
    ensures Measured(tree).Ok? && Checked(tree, Some(b)).value == Reported(Measured(tree).value, current, b)
  {
    current := MeasureFiles(tree, b.files.Keys);
  }

  // ---- The new baseline ----------------------------------------------------------------------

  /** The new baseline records every function longer than a hundred lines, and of the files tracked before,
      or two files when there was no baseline, those that exist; each with its length. */
  lemma UpdatedExactly(tree: Tree, file: Option<Baseline>)
    requires Updated(tree, file).Ok?
    ensures var now, measured := Updated(tree, file).value, Measured(tree).value;
            && (forall key :: key in now.functions <==> key in measured && measured[key] > 100)
            && (forall key :: key in now.functions ==> now.functions[key] == measured[key])
            && (forall path :: path in now.files <==>
                  path in tree.lines
                  && match file {
                       case None => path == "app/schemas/trips.py" || path == "app/api/v1/endpoints/handover.py"
                       case Some(b) => path in b.files
                     })
            && (forall path :: path in now.files ==> now.files[path] == tree.lines[path])
  {
  }

  // ---- The description -----------------------------------------------------------------------

  /** The lines say what was added, removed, grown and shrunk, and nothing else. */
  ghost predicate Tells(lines: seq<Change>, section: Section, before: Lengths, after: Lengths) {
    && (forall key, n :: Added(section, key, n) in lines <==> key in after && key !in before && n == after[key])
    && (forall key, n :: Removed(section, key, n) in lines <==> key in before && key !in after && n == before[key])
    && (forall key, was, now :: Grew(section, key, was, now) in lines
                           <==> key in before && key in after && was == before[key] && now == after[key] > was)
    && (forall key, was, now :: Shrank(section, key, was, now) in lines
                           <==> key in before && key in after && was == before[key] && now == after[key] < was)
  }

  lemma ChangeIs(section: Section, before: Lengths, after: Lengths, c: Change)
    ensures c in ChangeOf(section, before, after, c.key) <==>
              && c.section == section
              && match c {
                   case Added(_, key, n) => key in after && key !in before && n == after[key]
                   case Removed(_, key, n) => key in before && key !in after && n == before[key]
                   case Grew(_, key, was, now) =>
                     key in before && key in after && was == before[key] && now == after[key] > was
                   case Shrank(_, key, was, now) =>
                     key in before && key in after && was == before[key] && now == after[key] < was
                 }
  {
  }

  /** What an update prints is every difference of the two baselines, told as what it is. */
  lemma DescribedExactly(b: Baseline, now: Baseline)
    ensures Tells(Described(Some(b), now), Functions, b.functions, now.functions)
    ensures Tells(Described(Some(b), now), Files, b.files, now.files)
  {
    forall c: Change ensures c in Described(Some(b), now) <==> IsChange(b, now, c) {
      DescribedIff(b, now, c);
    }
    SectionTold(Described(Some(b), now), b, now, Functions, b.functions, now.functions);
    SectionTold(Described(Some(b), now), b, now, Files, b.files, now.files);
  }

  lemma SectionTold(lines: seq<Change>, b: Baseline, now: Baseline, section: Section, before: Lengths, after: Lengths)
    requires forall c: Change :: c in lines <==> IsChange(b, now, c)
    requires (before, after) == if section.Functions? then (b.functions, now.functions) else (b.files, now.files)
    ensures Tells(lines, section, before, after)
  {
    forall c: Change | c.section == section ensures c in lines <==> c in ChangeOf(section, before, after, c.key) {
    }
    forall key, n ensures Added(section, key, n) in lines <==> key in after && key !in before && n == after[key] {
      ChangeIs(section, before, after, Added(section, key, n));
    }
    forall key, n ensures Removed(section, key, n) in lines <==> key in before && key !in after && n == before[key] {
      ChangeIs(section, before, after, Removed(section, key, n));
    }
    forall key, was, now_
      ensures Grew(section, key, was, now_) in lines
         <==> key in before && key in after && was == before[key] && now_ == after[key] > was
    {
      ChangeIs(section, before, after, Grew(section, key, was, now_));
    }
    forall key, was, now_
      ensures Shrank(section, key, was, now_) in lines
         <==> key in before && key in after && was == before[key] && now_ == after[key] < was
    {
      ChangeIs(section, before, after, Shrank(section, key, was, now_));
    }
  }

  // ---- The order of the description ----------------------------------------------------------

  ghost predicate InOrderOfKeys(lines: seq<Change>) {
    forall i, j :: 0 <= i < j < |lines| ==> TextLe(lines[i].key, lines[j].key) && lines[i].key != lines[j].key
  }

  /** A line for a key beyond all others goes last. */
  lemma LineNext(lines: seq<Change>, more: seq<Change>, front: seq<string>, last: string)
    requires InOrderOfKeys(lines) && (forall c :: c in lines ==> c.key in front)
    requires |more| <= 1 && (forall c :: c in more ==> c.key == last)
    requires forall k :: k in front ==> TextLe(k, last) && k != last
    ensures InOrderOfKeys(lines + more) && (forall c :: c in lines + more ==> c.key in front + [last])
  {
    forall i | 0 <= i < |lines| ensures TextLe(lines[i].key, last) && lines[i].key != last {
      assert lines[i] in lines;
    }
    assert more != [] ==> more[0] in more;
  }

  lemma {:induction false} ChangesAlong(section: Section, before: Lengths, after: Lengths, keys: seq<string>)
    requires SortedBy(keys, TextLe) && NoneTwice(keys)
    ensures InOrderOfKeys(Changes(section, before, after, keys))
    ensures forall c :: c in Changes(section, before, after, keys) ==> c.key in keys
  {
    if keys != [] {
      var front, last := keys[..|keys| - 1], keys[|keys| - 1];
      ChangesAlong(section, before, after, front);
      forall k | k in front ensures TextLe(k, last) && k != last {
        var i :| 0 <= i < |front| && front[i] == k;
        assert keys[i] == k;
      }
      LineNext(Changes(section, before, after, front), ChangeOf(section, before, after, last), front, last);
      assert keys == front + [last];
    }
  }

  /** A section lists what was added, then what was removed, then what changed, each in order of keys. */
  lemma SectionInOrder(section: Section, before: Lengths, after: Lengths)
    returns (added: seq<Change>, removed: seq<Change>, changed: seq<Change>)
    ensures SectionChanges(section, before, after) == added + removed + changed
    ensures InOrderOfKeys(added) && forall c :: c in added ==> c.Added?
    ensures InOrderOfKeys(removed) && forall c :: c in removed ==> c.Removed?
    ensures InOrderOfKeys(changed) && forall c :: c in changed ==> c.Grew? || c.Shrank?
  {
    added := PartInOrder(section, before, after, after.Keys - before.Keys);
    removed := PartInOrder(section, before, after, before.Keys - after.Keys);
    changed := PartInOrder(section, before, after, after.Keys * before.Keys);
    forall c | c in added ensures c.Added? {
      ChangeIs(section, before, after, c);
    }
    forall c | c in removed ensures c.Removed? {
      ChangeIs(section, before, after, c);
    }
    forall c | c in changed ensures c.Grew? || c.Shrank? {
      ChangeIs(section, before, after, c);
    }
  }

  lemma PartInOrder(section: Section, before: Lengths, after: Lengths, keys: set<string>) returns (lines: seq<Change>)
    ensures lines == Changes(section, before, after, InOrder(keys)) && InOrderOfKeys(lines)
    ensures forall c :: c in lines ==> c.key in keys && c in ChangeOf(section, before, after, c.key)
  {
    lines := Changes(section, before, after, InOrder(keys));
    InOrderSorted(keys);
    InOrderOnce(keys);
    ChangesAlong(section, before, after, InOrder(keys));
    forall c | c in lines ensures c in ChangeOf(section, before, after, c.key) {
      ChangesIff(section, before, after, InOrder(keys), c);
    }
  }
}
