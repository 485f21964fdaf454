/** Reading `/proc/PID/mountinfo` (proc(5), "/proc/pid/mountinfo"): each
    line is split at spaces into at most ten columns; root and mount point
    are columns 3 and 4, and filesystem type and source are the two columns
    after the "-" that ends the optional tagged fields.

    The lines are whatever `fgets` returned, read as C strings; opening and
    reading the file is left out. */
module MountInfo {
  import opened Words
  import opened Text

  /** `SplitFill<N>`: the first N pieces in order, and empty columns after
      the last piece when there are fewer. */
  function SplitFill(n: nat, s: seq<char>, sep: char): (r: seq<seq<char>>)
    ensures |r| == n
    ensures var pieces := Split(s, sep);
            && (forall i :: 0 <= i < n && i < |pieces| ==> r[i] == pieces[i])
            && (forall i :: |pieces| <= i < n ==> r[i] == [])
  {
    Fill(n, Split(s, sep))
  }

  function Fill(n: nat, pieces: seq<seq<char>>): (r: seq<seq<char>>)
    ensures |r| == n
    ensures forall i :: 0 <= i < n && i < |pieces| ==> r[i] == pieces[i]
    ensures forall i :: |pieces| <= i < n ==> r[i] == []
  {
    if n == 0 then []
    else if |pieces| == 0 then [[]] + Fill(n - 1, [])
    else [pieces[0]] + Fill(n - 1, pieces[1..])
  }

  /** The columns `GetLine` looks at. */
  const COLUMNS: nat := 10

  datatype MountInfoView = MountInfoView(root: seq<char>, mountPoint: seq<char>, filesystem: seq<char>, source: seq<char>)

  datatype MountInfo = MountInfo(root: seq<char>, filesystem: seq<char>, source: seq<char>)

  const EMPTY_VIEW := MountInfoView([], [], [], [])

  /** The first column at or after `i` that is "-", or `|columns|`. */
  function Separator(columns: seq<seq<char>>, i: nat): (r: nat)
    requires i <= |columns|
    ensures i <= r <= |columns|
    ensures forall j :: i <= j < r ==> columns[j] != "-"
    ensures r < |columns| ==> columns[r] == "-"
    decreases |columns| - i
  {
    if i < |columns| && columns[i] != "-" then Separator(columns, i + 1) else i
  }

  /** The fields of a line that has enough columns; the view of a line that
      has no "-" from column 6 on with two columns after it is empty. */
  function ViewOf(columns: seq<seq<char>>): (r: MountInfoView)
    requires |columns| >= 6
  {
    var i := Separator(columns, 6);
    if i + 2 >= |columns| then EMPTY_VIEW
    else MountInfoView(columns[3], columns[4], columns[i + 1], columns[i + 2])
  }

  /** `MountInfoReader::GetLine`, as written: only the first ten columns. */
  function GetLine(line: seq<char>): (r: MountInfoView)
  {
    ViewOf(SplitFill(COLUMNS, CStr(line), ' '))
  }

  /** A line as proc(5) describes it: six fields, optional tagged fields, a
      "-", filesystem type, source and super options, separated by single
      spaces.  Every field is free of spaces and no tagged field is "-"; the
      line holds no NUL. */
  predicate WellFormedLine(fields: seq<seq<char>>, optional: seq<seq<char>>, fs: seq<char>, source: seq<char>, options: seq<char>)
  {
    && |fields| == 6
    && (forall i :: 0 <= i < 6 ==> ' ' !in fields[i])
    && (forall i :: 0 <= i < |optional| ==> ' ' !in optional[i] && optional[i] != "-")
    && ' ' !in fs && ' ' !in source && ' ' !in options
    && '\0' !in Line(fields, optional, fs, source, options)
  }

  function Line(fields: seq<seq<char>>, optional: seq<seq<char>>, fs: seq<char>, source: seq<char>, options: seq<char>): seq<char>
  {
    Join(fields + optional + ["-", fs, source, options], ' ')
  }

  /** The columns of a well-formed line are its fields. */
  lemma LineColumns(fields: seq<seq<char>>, optional: seq<seq<char>>, fs: seq<char>, source: seq<char>, options: seq<char>)
    requires WellFormedLine(fields, optional, fs, source, options)
    ensures Split(Line(fields, optional, fs, source, options), ' ') == fields + optional + ["-", fs, source, options]
  {
    var pieces := fields + optional + ["-", fs, source, options];
    forall i | 0 <= i < |pieces|
      ensures ' ' !in pieces[i]
    {
      if i < 6 {
        assert pieces[i] == fields[i];
      } else if i < 6 + |optional| {
        assert pieces[i] == optional[i - 6];
      }
    }
    SplitJoin(pieces, ' ');
  }

  /** Where the "-" of a well-formed line is. */
  lemma SeparatorOfLine(columns: seq<seq<char>>, optional: seq<seq<char>>, k: nat)
    requires 6 + |optional| + 1 <= |columns| && k == 6 + |optional|
    requires columns[6..k] == optional && columns[k] == "-"
    requires forall i :: 0 <= i < |optional| ==> optional[i] != "-"
    ensures Separator(columns, 6) == k
  {
  }

  /** With at most one optional field, `GetLine` finds root, mount point,
      filesystem type and source. */
  lemma GetLineFields(fields: seq<seq<char>>, optional: seq<seq<char>>, fs: seq<char>, source: seq<char>, options: seq<char>)
    requires WellFormedLine(fields, optional, fs, source, options) && |optional| <= 1
    ensures GetLine(Line(fields, optional, fs, source, options)) == MountInfoView(fields[3], fields[4], fs, source)
  {
    var pieces := fields + optional + ["-", fs, source, options];
    LineColumns(fields, optional, fs, source, options);
    CStrWhole(Line(fields, optional, fs, source, options));
    var columns := SplitFill(COLUMNS, Line(fields, optional, fs, source, options), ' ');
    var k := 6 + |optional|;
    assert columns == pieces[..10];
    assert columns[6..k] == optional;
    SeparatorOfLine(columns, optional, k);
  }

  /** Two optional fields push the source into the eleventh column, which
      `GetLine` does not keep: the whole line reads as empty. */
  lemma GetLineDropsTwoOptional(fields: seq<seq<char>>, optional: seq<seq<char>>, fs: seq<char>, source: seq<char>, options: seq<char>)
    requires WellFormedLine(fields, optional, fs, source, options) && |optional| == 2
    ensures GetLine(Line(fields, optional, fs, source, options)) == EMPTY_VIEW
  {
    LineColumns(fields, optional, fs, source, options);
    CStrWhole(Line(fields, optional, fs, source, options));
    var pieces := fields + optional + ["-", fs, source, options];
    var columns := SplitFill(COLUMNS, Line(fields, optional, fs, source, options), ' ');
    assert columns == pieces[..10];
    assert columns[6..8] == optional;
    SeparatorOfLine(columns, optional, 8);
  }

  /** `GetLine` as evidently intended: the "-" may follow any number of
      optional fields, so every column is kept (and, as in the source, a
      short line is padded with empty columns to ten). */
  function GetLineAll(line: seq<char>): (r: MountInfoView)
  {
    var text := CStr(line);
    var n := |Split(text, ' ')|;
    ViewOf(SplitFill(if n < COLUMNS then COLUMNS else n, text, ' '))
  }

  /** The intended reading finds the fields whatever the number of optional
      fields. */
  lemma GetLineAllFields(fields: seq<seq<char>>, optional: seq<seq<char>>, fs: seq<char>, source: seq<char>, options: seq<char>)
    requires WellFormedLine(fields, optional, fs, source, options)
    ensures GetLineAll(Line(fields, optional, fs, source, options)) == MountInfoView(fields[3], fields[4], fs, source)
  {
    LineColumns(fields, optional, fs, source, options);
    CStrWhole(Line(fields, optional, fs, source, options));
    var pieces := fields + optional + ["-", fs, source, options];
    var columns := SplitFill(|pieces|, Line(fields, optional, fs, source, options), ' ');
    assert columns == pieces;
    var k := 6 + |optional|;
    assert columns[6..k] == optional;
    SeparatorOfLine(columns, optional, k);
  }

  /** Where the first ten columns already hold the fields, both readings
      agree. */
  lemma GetLineAgrees(line: seq<char>)
    requires GetLine(line) != EMPTY_VIEW
    ensures GetLineAll(line) == GetLine(line)
  {
    var text := CStr(line);
    var n := |Split(text, ' ')|;
    var all := SplitFill(if n < COLUMNS then COLUMNS else n, text, ' ');
    var columns := SplitFill(COLUMNS, text, ' ');
    var i := Separator(columns, 6);
    assert i + 2 < COLUMNS;
    assert columns[..i + 3] == all[..i + 3];
    SeparatorPrefix(columns, all, i + 3);
  }

  /** `Separator` only looks as far as the first "-". */
  lemma SeparatorPrefix(a: seq<seq<char>>, b: seq<seq<char>>, n: nat)
    requires 6 < n <= |a| && n <= |b| && a[..n] == b[..n]
    requires Separator(a, 6) < n
    ensures Separator(b, 6) == Separator(a, 6)
  {
    var i := Separator(a, 6);
    var j := Separator(b, 6);
    assert a[i] == a[..n][i];
  }

  /** Converting a view to a `MountInfo` drops the mount point. */
  function ToMountInfo(v: MountInfoView): (m: MountInfo)
    ensures m.root == v.root && m.filesystem == v.filesystem && m.source == v.source
  {
    MountInfo(v.root, v.filesystem, v.source)
  }

  /** `ReadProcessMount` over the lines of the file: the first line whose
      mount point is `mountPoint`, else three empty strings.  Lines are read
      with `GetLineAll`, so a mount with several optional fields is found
      with its filesystem type and source. */
  function ReadProcessMount(lines: seq<seq<char>>, mountPoint: seq<char>): (r: MountInfo)
  {
    if |lines| == 0 then MountInfo([], [], [])
    else
      var v := GetLineAll(lines[0]);
      if v.mountPoint == mountPoint then ToMountInfo(v) else ReadProcessMount(lines[1..], mountPoint)
  }

  /** The result comes from the first matching line. */
  lemma {:induction false} ReadProcessMountFirst(lines: seq<seq<char>>, mountPoint: seq<char>, k: nat)
    requires k < |lines| && GetLineAll(lines[k]).mountPoint == mountPoint
    requires forall j :: 0 <= j < k ==> GetLineAll(lines[j]).mountPoint != mountPoint
    ensures ReadProcessMount(lines, mountPoint) == ToMountInfo(GetLineAll(lines[k]))
    decreases k
  {
    if k > 0 {
      assert GetLineAll(lines[0]).mountPoint != mountPoint;
      ReadProcessMountFirst(lines[1..], mountPoint, k - 1);
    }
  }

  /** No matching line: three empty strings. */
  lemma {:induction false} ReadProcessMountNone(lines: seq<seq<char>>, mountPoint: seq<char>)
    requires forall j :: 0 <= j < |lines| ==> GetLineAll(lines[j]).mountPoint != mountPoint
    ensures ReadProcessMount(lines, mountPoint) == MountInfo([], [], [])
    decreases |lines|
  {
    if |lines| > 0 {
      assert GetLineAll(lines[0]).mountPoint != mountPoint;
      ReadProcessMountNone(lines[1..], mountPoint);
    }
  }
}
