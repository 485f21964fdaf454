/** `LoadSystemdCgroupState`: which cgroup hierarchies systemd placed a
    process in, read from `/proc/PID/cgroup` (cgroups(7), "/proc/[pid]/cgroup").

    Each line of that file is "hierarchy-ID:controller-list:cgroup-path".
    The line of the "name=systemd" hierarchy gives the group path; every
    other named hierarchy that sits at the same path is a mount the process
    shares with systemd, and its comma-separated controllers map to it; a
    line starting with "0::/" reveals the unified hierarchy.

    The file is its lines as `fgets` returned them (read as C strings), or
    `None` when it could not be opened.  Choosing `/proc/self/cgroup` or
    `/proc/PID/cgroup` is left out. */
module SystemdCgroup {
  import opened Wrappers
  import opened Words
  import opened Text
  import opened Numerals

  const SYSTEMD_NAME := "name=systemd"
  const UNIFIED_PREFIX := "0::/"

  /** What one line says. */
  datatype Entry = UnifiedLine | NamedLine(name: seq<char>, path: seq<char>) | OtherLine

  /** A named hierarchy as the source keeps it, in line order. */
  datatype Assignment = Assignment(name: seq<char>, path: seq<char>)

  /** `CgroupState` (its header is not part of this model): the systemd group
      path, the hierarchies to mount and which hierarchy serves each
      controller.  The default state has everything empty. */
  datatype CgroupState = CgroupState(groupPath: seq<char>, mounts: seq<seq<char>>, controllers: map<seq<char>, seq<char>>)

  const EMPTY_STATE := CgroupState([], [], map[])

  /** A hierarchy name the parser accepts: not empty, no ':'. */
  predicate ValidName(name: seq<char>)
  {
    |name| > 0 && ':' !in name
  }

  /** A path the parser accepts: absolute, not starting with "//". */
  predicate ValidPath(path: seq<char>)
  {
    |path| > 0 && path[0] == '/' && !(|path| > 1 && path[1] == '/')
  }

  /** The text of a line: number, ':', name, ':', path and what ends it. */
  function HierarchyLine(number: seq<char>, name: seq<char>, path: seq<char>, end: seq<char>): seq<char>
  {
    number + [':'] + name + [':'] + path + end
  }

  /** The text after the number's ':': a non-empty name up to the next ':',
      then a path starting with one '/' (not two) whose final newline is
      dropped.  Anything else is skipped. */
  function ParseHierarchy(rest: seq<char>): (r: Entry)
    ensures r.NamedLine? || r.OtherLine?
    ensures r.NamedLine? ==> ValidName(r.name) && ValidPath(r.path)
  {
    match IndexOf(rest, ':')
    case None => OtherLine
    case Some(n) =>
      if n == 0 || n + 1 == |rest| || rest[n + 1] != '/'
         || (n + 2 < |rest| && rest[n + 2] == '/') then OtherLine
      else
        var full := rest[n + 1..];
        NamedLine(rest[..n], if full[|full| - 1] == '\n' then full[..|full| - 1] else full)
  }

  /** One line as a C string.  A line starting with "0::/" is the unified
      hierarchy; otherwise the line must hold a number `strtoul` reads up to
      a ':', and the rest is a hierarchy. */
  function ParseText(line: seq<char>): (r: Entry)
    ensures r.UnifiedLine? <==> IsPrefix(UNIFIED_PREFIX, line)
    ensures r.NamedLine? ==> ValidName(r.name) && ValidPath(r.path)
  {
    if IsPrefix(UNIFIED_PREFIX, line) then UnifiedLine
    else
      var k := Strtoul(line).1;
      if k == 0 || k == |line| || line[k] != ':' then OtherLine
      else ParseHierarchy(line[k + 1..])
  }

  /** One iteration of the reading loop, on the line `fgets` returned. */
  function ParseLine(raw: seq<char>): (r: Entry)
    ensures r.UnifiedLine? <==> IsPrefix(UNIFIED_PREFIX, CStr(raw))
    ensures r.NamedLine? ==> ValidName(r.name) && ValidPath(r.path)
  {
    ParseText(CStr(raw))
  }

  /** A hierarchy read from `rest` is its name, ':', its path and at most a
      newline. */
  lemma HierarchyShape(rest: seq<char>)
    requires ParseHierarchy(rest).NamedLine?
    ensures var r := ParseHierarchy(rest);
            var m := |r.name| + 1 + |r.path|;
            && m <= |rest| && rest == r.name + [':'] + r.path + rest[m..]
            && (m == |rest| || rest[m..] == ['\n'])
  {
    var n := IndexOf(rest, ':').value;
    var r := ParseHierarchy(rest);
    var full := rest[n + 1..];
    var m := n + 1 + |r.path|;
    assert r.name == rest[..n] && rest[n] == ':';
    assert full == r.path + rest[m..] by {
      if full[|full| - 1] == '\n' {
        assert r.path == full[..|full| - 1];
        assert rest[m..] == ['\n'];
      } else {
        assert r.path == full;
        assert rest[m..] == [];
      }
    }
    assert rest == rest[..n] + [rest[n]] + full;
  }

  /** A line read as a named hierarchy is a numeral, ':', the name, ':',
      the path and at most a newline. */
  lemma ParseTextShape(line: seq<char>)
    requires ParseText(line).NamedLine?
    ensures var r := ParseText(line);
            exists number, end ::
              && IsNumeral(number) && (end == [] || end == ['\n'])
              && line == HierarchyLine(number, r.name, r.path, end)
  {
    ParseTextCut(line);
    var k := Strtoul(line).1;
    var rest := line[k + 1..];
    var r := ParseHierarchy(rest);
    HierarchyShape(rest);
    StrtoulPrefix(line);
    ShapeFrom(line, k, r.name, r.path);
  }

  /** Where the hierarchy of a named line starts. */
  lemma ParseTextCut(line: seq<char>)
    requires ParseText(line).NamedLine?
    ensures var k := Strtoul(line).1;
            && 0 < k < |line| && line[k] == ':'
            && ParseText(line) == ParseHierarchy(line[k + 1..])
  {
  }

  /** The witnesses of `ParseTextShape`: the numeral before `k` and what
      follows the path. */
  lemma ShapeFrom(line: seq<char>, k: nat, name: seq<char>, path: seq<char>)
    requires 0 < k < |line| && line[k] == ':' && IsNumeral(line[..k])
    requires k + 1 + |name| + 1 + |path| <= |line|
    requires var rest := line[k + 1..];
             var end := rest[|name| + 1 + |path|..];
             && rest == name + [':'] + path + end
             && (end == [] || end == ['\n'])
    ensures exists number, end ::
              && IsNumeral(number) && (end == [] || end == ['\n'])
              && line == HierarchyLine(number, name, path, end)
  {
    var rest := line[k + 1..];
    var end := rest[|name| + 1 + |path|..];
    Around(line, k);
    HierarchyLineGroups(line[..k], name, path, end);
    assert line == HierarchyLine(line[..k], name, path, end);
  }

  /** `HierarchyLine` regrouped as number, ':' and the hierarchy. */
  lemma HierarchyLineGroups(number: seq<char>, name: seq<char>, path: seq<char>, end: seq<char>)
    ensures HierarchyLine(number, name, path, end) == number + [':'] + (name + [':'] + path + end)
  {
  }

  /** A line whose second or third character is not ':' is not the unified
      hierarchy. */
  lemma NotUnified(line: seq<char>)
    requires |line| > 2 && (line[1] != ':' || line[2] != ':')
    ensures !IsPrefix(UNIFIED_PREFIX, line)
  {
    if |line| >= 4 {
      assert line[..4][1] == line[1] && line[..4][2] == line[2];
    }
  }

  /** Conversely, every well-formed hierarchy is read as its name and
      path. */
  lemma ParseHierarchyOf(name: seq<char>, path: seq<char>, end: seq<char>)
    requires ValidName(name) && ValidPath(path)
    requires end == [] || end == ['\n']
    requires end == ['\n'] || path[|path| - 1] != '\n'
    ensures ParseHierarchy(name + [':'] + path + end) == NamedLine(name, path)
  {
    var rest := name + [':'] + path + end;
    assert rest[..|name|] == name;
    IndexOfAt(rest, ':', |name|);
    assert rest[|name| + 1..] == path + end;
  }

  /** Conversely, every well-formed hierarchy line is read as its name and
      path. */
  lemma ParseTextOf(number: seq<char>, name: seq<char>, path: seq<char>, end: seq<char>)
    requires IsNumeral(number) && ValidName(name) && ValidPath(path)
    requires end == [] || end == ['\n']
    requires end == ['\n'] || path[|path| - 1] != '\n'
    ensures ParseText(HierarchyLine(number, name, path, end)) == NamedLine(name, path)
  {
    HierarchyLineCut(number, name, path, end);
    ParseTextAt(HierarchyLine(number, name, path, end), |number|);
    ParseHierarchyOf(name, path, end);
  }

  /** A line that is not unified and has a numeral ending at `k` before a
      ':' is read from the hierarchy after that ':'. */
  lemma ParseTextAt(line: seq<char>, k: nat)
    requires !IsPrefix(UNIFIED_PREFIX, line)
    requires Strtoul(line).1 == k && 0 < k < |line| && line[k] == ':'
    ensures ParseText(line) == ParseHierarchy(line[k + 1..])
  {
  }

  /** Where `strtoul` stops in a hierarchy line, and what follows. */
  lemma HierarchyLineCut(number: seq<char>, name: seq<char>, path: seq<char>, end: seq<char>)
    requires IsNumeral(number) && ValidName(name)
    ensures var line := HierarchyLine(number, name, path, end);
            var k := |number|;
            && Strtoul(line).1 == k && 0 < k < |line| && line[k] == ':'
            && line[k + 1..] == name + [':'] + path + end
            && !IsPrefix(UNIFIED_PREFIX, line)
  {
    var line := HierarchyLine(number, name, path, end);
    var rest := name + [':'] + path + end;
    HierarchyLineGroups(number, name, path, end);
    assert line == number + ([':'] + rest);
    StrtoulStopsAt(number, [':'] + rest);
    if |number| == 1 {
      assert line[2] == name[0] && name[0] in name;
    } else {
      assert line[1] == number[1];
    }
    NotUnified(line);
  }

  /** The same on the line `fgets` returned, when it holds no NUL. */
  lemma ParseHierarchyLine(number: seq<char>, name: seq<char>, path: seq<char>, end: seq<char>)
    requires '\0' !in HierarchyLine(number, name, path, end)
    requires IsNumeral(number) && ValidName(name) && ValidPath(path)
    requires end == [] || end == ['\n']
    requires end == ['\n'] || path[|path| - 1] != '\n'
    ensures ParseLine(HierarchyLine(number, name, path, end)) == NamedLine(name, path)
  {
    CStrWhole(HierarchyLine(number, name, path, end));
    ParseTextOf(number, name, path, end);
  }

  /** The lines read so far: the last systemd path, whether a unified line
      was seen, and the other named hierarchies in line order. */
  datatype Scan = Scan(systemdPath: seq<char>, unified: bool, assignments: seq<Assignment>)

  /** What each line says, in order. */
  function Entries(lines: seq<seq<char>>): (es: seq<Entry>)
    ensures |es| == |lines|
    ensures forall i :: 0 <= i < |lines| ==> es[i] == ParseLine(lines[i])
  {
    seq(|lines|, i requires 0 <= i < |lines| => ParseLine(lines[i]))
  }

  predicate IsSystemdEntry(e: Entry)
  {
    e.NamedLine? && e.name == SYSTEMD_NAME
  }

  /** The reading loop: a unified line sets the flag, the systemd line sets
      the path (a later one replaces it), every other named line is kept. */
  function ScanEntries(entries: seq<Entry>): (s: Scan)
    decreases |entries|
  {
    if |entries| == 0 then Scan([], false, [])
    else
      var s := ScanEntries(entries[..|entries| - 1]);
      match entries[|entries| - 1]
      case UnifiedLine => s.(unified := true)
      case OtherLine => s
      case NamedLine(name, path) =>
        if name == SYSTEMD_NAME then s.(systemdPath := path)
        else s.(assignments := s.assignments + [Assignment(name, path)])
  }

  /** What the loop keeps comes from the entries: the systemd path is empty
      or one of theirs, and the other hierarchies are theirs. */
  lemma {:induction false} ScanKeeps(entries: seq<Entry>)
    ensures var s := ScanEntries(entries);
            && (s.systemdPath == [] || NamedLine(SYSTEMD_NAME, s.systemdPath) in entries)
            && forall a :: a in s.assignments ==> a.name != SYSTEMD_NAME && NamedLine(a.name, a.path) in entries
    decreases |entries|
  {
    if |entries| > 0 {
      var init := entries[..|entries| - 1];
      ScanKeeps(init);
      assert entries == init + [entries[|entries| - 1]];
    }
  }

  /** The assignment a line contributes on its own: a named hierarchy
      other than systemd is one, every other line none. */
  function Other(e: Entry): (r: seq<Assignment>)
    ensures |r| <= 1
    ensures |r| == 1 <==> e.NamedLine? && !IsSystemdEntry(e)
    ensures |r| == 1 ==> r[0] == Assignment(e.name, e.path)
  {
    if e.NamedLine? && e.name != SYSTEMD_NAME then [Assignment(e.name, e.path)] else []
  }

  /** The named hierarchies other than systemd, first line first. */
  function Others(entries: seq<Entry>): (r: seq<Assignment>)
    ensures |r| <= |entries|
    decreases |entries|
  {
    if |entries| == 0 then [] else Other(entries[0]) + Others(entries[1..])
  }

  lemma {:induction false} OthersAppend(init: seq<Entry>, e: Entry)
    ensures Others(init + [e]) == Others(init) + Other(e)
    decreases |init|
  {
    var all := init + [e];
    if |init| == 0 {
      assert all[1..] == [];
    } else {
      var tail := init[1..];
      assert all[0] == init[0] && all[1..] == tail + [e];
      OthersAppend(tail, e);
      calc {
        Others(all);
        Other(init[0]) + Others(tail + [e]);
        Other(init[0]) + (Others(tail) + Other(e));
        (Other(init[0]) + Others(tail)) + Other(e);
      }
    }
  }

  /** The loop keeps exactly the other named hierarchies, in line order:
      nothing is dropped, reordered or invented. */
  lemma {:induction false} ScanOthers(entries: seq<Entry>)
    ensures ScanEntries(entries).assignments == Others(entries)
    decreases |entries|
  {
    if |entries| > 0 {
      var init := entries[..|entries| - 1];
      ScanOthers(init);
      OthersAppend(init, entries[|entries| - 1]);
      assert entries == init + [entries[|entries| - 1]];
    }
  }

  /** A unified line was seen exactly when one of the lines is one. */
  lemma {:induction false} ScanUnified(entries: seq<Entry>)
    ensures ScanEntries(entries).unified <==> UnifiedLine in entries
    decreases |entries|
  {
    if |entries| > 0 {
      var init := entries[..|entries| - 1];
      ScanUnified(init);
      assert entries == init + [entries[|entries| - 1]];
    }
  }

  /** The systemd path is the one of the last systemd line. */
  lemma {:induction false} ScanSystemdPath(entries: seq<Entry>, k: nat, path: seq<char>)
    requires k < |entries| && entries[k] == NamedLine(SYSTEMD_NAME, path)
    requires forall j :: k < j < |entries| ==> !IsSystemdEntry(entries[j])
    ensures ScanEntries(entries).systemdPath == path
    decreases |entries|
  {
    if k < |entries| - 1 {
      var init := entries[..|entries| - 1];
      assert init[k] == entries[k];
      forall j | k < j < |init|
        ensures !IsSystemdEntry(init[j])
      {
        assert init[j] == entries[j];
      }
      ScanSystemdPath(init, k, path);
      assert !IsSystemdEntry(entries[|entries| - 1]);
    }
  }

  /** Without a systemd line there is no systemd path. */
  lemma {:induction false} ScanNoSystemd(entries: seq<Entry>)
    requires forall j :: 0 <= j < |entries| ==> !IsSystemdEntry(entries[j])
    ensures ScanEntries(entries).systemdPath == []
    decreases |entries|
  {
    if |entries| > 0 {
      var init := entries[..|entries| - 1];
      forall j | 0 <= j < |init|
        ensures !IsSystemdEntry(init[j])
      {
        assert init[j] == entries[j];
      }
      ScanNoSystemd(init);
      assert !IsSystemdEntry(entries[|entries| - 1]);
    }
  }

  /** `std::map::emplace` of every key with value `v`: a key already present
      keeps its value. */
  function EmplaceAll(m: map<seq<char>, seq<char>>, keys: seq<seq<char>>, v: seq<char>): (r: map<seq<char>, seq<char>>)
    ensures forall c :: c in r <==> c in m || c in keys
    ensures forall c :: c in r ==> r[c] == if c in m then m[c] else v
    decreases |keys|
  {
    if |keys| == 0 then m
    else EmplaceAll(if keys[0] in m then m else m[keys[0] := v], keys[1..], v)
  }

  /** The loop over the assignments, newest first (the source keeps them in
      a list it pushes to the front): an assignment at `path` adds its
      controllers, each only if no newer hierarchy claimed it, and pushes
      its name to the front of the mounts. */
  function Collect(assignments: seq<Assignment>, path: seq<char>, mounts: seq<seq<char>>, controllers: map<seq<char>, seq<char>>): (r: (seq<seq<char>>, map<seq<char>, seq<char>>))
    decreases |assignments|
  {
    if |assignments| == 0 then (mounts, controllers)
    else
      var a := assignments[|assignments| - 1];
      var older := assignments[..|assignments| - 1];
      if a.path == path then Collect(older, path, [a.name] + mounts, EmplaceAll(controllers, Split(a.name, ','), a.name))
      else Collect(older, path, mounts, controllers)
  }

  /** The names of the hierarchies at `path`, in line order. */
  function Matching(assignments: seq<Assignment>, path: seq<char>): (r: seq<seq<char>>)
    decreases |assignments|
  {
    if |assignments| == 0 then []
    else
      var a := assignments[|assignments| - 1];
      Matching(assignments[..|assignments| - 1], path) + if a.path == path then [a.name] else []
  }

  /** The hierarchy a controller belongs to: the last one at `path` that
      lists it. */
  function Owner(assignments: seq<Assignment>, path: seq<char>, controller: seq<char>): (r: Option<seq<char>>)
    decreases |assignments|
  {
    if |assignments| == 0 then None
    else
      var a := assignments[|assignments| - 1];
      if a.path == path && controller in Split(a.name, ',') then Some(a.name)
      else Owner(assignments[..|assignments| - 1], path, controller)
  }

  /** Pushing newest first leaves the mounts in line order. */
  lemma {:induction false} CollectMounts(assignments: seq<Assignment>, path: seq<char>, mounts: seq<seq<char>>, controllers: map<seq<char>, seq<char>>)
    ensures Collect(assignments, path, mounts, controllers).0 == Matching(assignments, path) + mounts
    decreases |assignments|
  {
    if |assignments| > 0 {
      var a := assignments[|assignments| - 1];
      var older := assignments[..|assignments| - 1];
      if a.path == path {
        CollectMounts(older, path, [a.name] + mounts, EmplaceAll(controllers, Split(a.name, ','), a.name));
      } else {
        CollectMounts(older, path, mounts, controllers);
      }
    }
  }

  /** Inserting newest first without overwriting gives every controller to
      the last hierarchy that lists it. */
  lemma {:induction false} CollectControllers(assignments: seq<Assignment>, path: seq<char>, mounts: seq<seq<char>>, controllers: map<seq<char>, seq<char>>, c: seq<char>)
    ensures var r := Collect(assignments, path, mounts, controllers).1;
            && (c in r <==> c in controllers || Owner(assignments, path, c).Some?)
            && (c in r ==> r[c] == if c in controllers then controllers[c] else Owner(assignments, path, c).value)
    decreases |assignments|
  {
    if |assignments| > 0 {
      var a := assignments[|assignments| - 1];
      var older := assignments[..|assignments| - 1];
      if a.path == path {
        CollectControllers(older, path, [a.name] + mounts, EmplaceAll(controllers, Split(a.name, ','), a.name), c);
      } else {
        CollectControllers(older, path, mounts, controllers, c);
      }
    }
  }

  const SYSTEMD_MOUNT := "systemd"
  const UNIFIED_MOUNT := "unified"

  /** `LoadSystemdCgroupState`: without a file or a systemd line the state
      is empty; otherwise the group path is the systemd path and the mounts
      are "unified" (when seen), "systemd" and the hierarchies at that path. */
  function LoadSystemdCgroupState(file: Option<seq<seq<char>>>): (r: CgroupState)
    ensures file.None? ==> r == EMPTY_STATE
    ensures r != EMPTY_STATE ==> r.groupPath != [] && SYSTEMD_MOUNT in r.mounts
  {
    match file
    case None => EMPTY_STATE
    case Some(lines) =>
      var s := ScanEntries(Entries(lines));
      if |s.systemdPath| == 0 then EMPTY_STATE
      else
        var (names, controllers) := Collect(s.assignments, s.systemdPath, [], map[]);
        var head := if s.unified then [UNIFIED_MOUNT] else [];
        assert (head + [SYSTEMD_MOUNT] + names)[|head|] == SYSTEMD_MOUNT;
        CgroupState(s.systemdPath, head + [SYSTEMD_MOUNT] + names, controllers)
  }

  /** No systemd hierarchy: the feature is off. */
  lemma LoadWithoutSystemd(lines: seq<seq<char>>)
    requires forall j :: 0 <= j < |lines| ==> !IsSystemdEntry(ParseLine(lines[j]))
    ensures LoadSystemdCgroupState(Some(lines)) == EMPTY_STATE
  {
    ScanNoSystemd(Entries(lines));
  }

  /** With a systemd line, the last one gives the group path, and the mounts
      are "unified" exactly when a unified line was seen, then "systemd",
      then the other hierarchies at the group path in line order. */
  lemma LoadWithSystemd(lines: seq<seq<char>>, k: nat, path: seq<char>)
    requires k < |lines| && ParseLine(lines[k]) == NamedLine(SYSTEMD_NAME, path)
    requires forall j :: k < j < |lines| ==> !IsSystemdEntry(ParseLine(lines[j]))
    ensures var r := LoadSystemdCgroupState(Some(lines));
            var unified := UnifiedLine in Entries(lines);
            && ValidPath(r.groupPath) && r.groupPath == path
            && r.mounts == (if unified then [UNIFIED_MOUNT] else []) + [SYSTEMD_MOUNT]
                           + Matching(Others(Entries(lines)), path)
  {
    var es := Entries(lines);
    ScanOthers(es);
    ScanSystemdPath(es, k, path);
    ScanUnified(es);
    CollectMounts(ScanEntries(es).assignments, path, [], map[]);
  }

  /** Each controller maps to the last hierarchy at the group path that
      lists it, and only such controllers appear. */
  lemma LoadControllers(lines: seq<seq<char>>, c: seq<char>)
    requires LoadSystemdCgroupState(Some(lines)) != EMPTY_STATE
    ensures var r := LoadSystemdCgroupState(Some(lines));
            var owner := Owner(Others(Entries(lines)), r.groupPath, c);
            && (c in r.controllers <==> owner.Some?)
            && (c in r.controllers ==> r.controllers[c] == owner.value)
  {
    var s := ScanEntries(Entries(lines));
    ScanOthers(Entries(lines));
    CollectControllers(s.assignments, s.systemdPath, [], map[], c);
  }
}
