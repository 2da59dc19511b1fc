/** The schema-migration runner, upward runs (scripts/setup/migrate.js).
    The tracking table is the sequence of its rows. Each file is applied in its own transaction, which
    commits the row or leaves no trace; a run may fail at any file. */
module Migrations {
  import opened Text

  datatype Group = Schema | Migration

  datatype File = File(filename: string, group: Group, version: nat, checksum: string)

  datatype Row = Row(filename: string, group: Group, version: nat, checksum: string)

  datatype Error =
    | DuplicateName(filename: string)
    | DuplicateVersion(group: Group, version: nat)
    | MissingFromDisk(filenames: seq<string>)
    | ChecksumMismatch(files: seq<File>)
    | ApplyFailed(filename: string)

  // ---- Order ----

  /** `compareMigrations(a, b) < 0` for files of different group or version. */
  predicate Before(a: File, b: File) {
    if a.group != b.group then a.group == Schema else a.version < b.version
  }

  predicate SameSlot(a: File, b: File) {
    a.group == b.group && a.version == b.version
  }

  predicate DistinctNames(files: seq<File>) {
    forall i, j :: 0 <= i < j < |files| ==> files[i].filename != files[j].filename
  }

  predicate DistinctSlots(files: seq<File>) {
    forall i, j :: 0 <= i < j < |files| ==> !SameSlot(files[i], files[j])
  }

  predicate Valid(files: seq<File>) {
    DistinctNames(files) && DistinctSlots(files)
  }

  predicate InOrder(files: seq<File>) {
    forall i, j :: 0 <= i < j < |files| ==> Before(files[i], files[j])
  }

  function Insert(f: File, sorted: seq<File>): (r: seq<File>)
    ensures multiset(r) == multiset(sorted) + multiset{f}
    ensures |r| == |sorted| + 1
  {
    if sorted == [] then [f]
    else if Before(f, sorted[0]) then [f] + sorted
    else
      assert sorted == [sorted[0]] + sorted[1..];
      [sorted[0]] + Insert(f, sorted[1..])
  }

  /** `[...files].sort(compareMigrations)` */
  function Sort(files: seq<File>): (r: seq<File>)
    ensures multiset(r) == multiset(files) && |r| == |files|
  {
    if files == [] then []
    else
      assert files == files[..|files| - 1] + [files[|files| - 1]];
      Insert(files[|files| - 1], Sort(files[..|files| - 1]))
  }

  /** Everything in the inserted list comes after a file that is before all of it. */
  lemma InsertAfter(head: File, f: File, rest: seq<File>)
    requires Before(head, f) && forall i :: 0 <= i < |rest| ==> Before(head, rest[i])
    ensures forall i :: 0 <= i < |Insert(f, rest)| ==> Before(head, Insert(f, rest)[i])
  {
    var r := Insert(f, rest);
    forall i | 0 <= i < |r| ensures Before(head, r[i]) {
      assert r[i] in multiset(r);
      assert r[i] in multiset(rest) || r[i] == f;
      assert r[i] in rest || r[i] == f;
    }
  }

  lemma {:induction false} InsertInOrder(f: File, sorted: seq<File>)
    requires InOrder(sorted) && forall i :: 0 <= i < |sorted| ==> !SameSlot(f, sorted[i])
    ensures InOrder(Insert(f, sorted))
  {
    if sorted != [] && !Before(f, sorted[0]) {
      var rest := sorted[1..];
      InsertInOrder(f, rest);
      InsertAfter(sorted[0], f, rest);
    }
  }

  /** Validated files sort into one strict order. */
  lemma {:induction false} SortInOrder(files: seq<File>)
    requires DistinctSlots(files)
    ensures InOrder(Sort(files))
    decreases |files|
  {
    if files != [] {
      var front, last := files[..|files| - 1], files[|files| - 1];
      SortInOrder(front);
      var sorted := Sort(front);
      forall i | 0 <= i < |sorted| ensures !SameSlot(last, sorted[i]) {
        assert sorted[i] in multiset(front);
        var k :| 0 <= k < |front| && front[k] == sorted[i];
        assert !SameSlot(files[k], files[|files| - 1]);
      }
      InsertInOrder(last, sorted);
    }
  }

  /** An ordered list starts with the least of its files. */
  lemma HeadIsFirst(a: seq<File>, f: File)
    requires InOrder(a) && f in a
    ensures f == a[0] || Before(a[0], f)
  {
  }

  lemma TailMultiset(a: seq<File>)
    requires a != []
    ensures multiset(a[1..]) == multiset(a) - multiset{a[0]}
  {
    assert a == [a[0]] + a[1..];
  }

  lemma HeadsAgree(a: seq<File>, b: seq<File>)
    requires InOrder(a) && InOrder(b) && multiset(a) == multiset(b) && a != []
    ensures b != [] && a[0] == b[0]
  {
    assert a[0] in multiset(a);
    assert a[0] in b;
    assert b[0] in multiset(b);
    assert b[0] in a;
    HeadIsFirst(a, b[0]);
    HeadIsFirst(b, a[0]);
  }

  /** The order does not depend on how the files were listed. */
  lemma {:induction false} OrderUnique(a: seq<File>, b: seq<File>)
    requires InOrder(a) && InOrder(b) && multiset(a) == multiset(b)
    ensures a == b
    decreases |a|
  {
    if a == [] {
      assert |multiset(b)| == 0;
    } else {
      HeadsAgree(a, b);
      TailMultiset(a);
      TailMultiset(b);
      var c, d := a[1..], b[1..];
      assert InOrder(c) && InOrder(d) by {
        assert forall i :: 0 <= i < |c| ==> c[i] == a[i + 1];
        assert forall i :: 0 <= i < |d| ==> d[i] == b[i + 1];
      }
      OrderUnique(c, d);
      assert a == [a[0]] + c && b == [b[0]] + d;
    }
  }

  /** Two different places of a reordered list hold files from two different places of the original. */
  lemma ReorderedPlaces(files: seq<File>, listed: seq<File>, i: nat, j: nat) returns (k: nat, m: nat)
    requires DistinctNames(files) && multiset(files) == multiset(listed) && i < j < |listed|
    ensures k < |files| && m < |files| && k != m && files[k] == listed[i] && files[m] == listed[j]
  {
    assert listed[i] in multiset(files) && listed[j] in multiset(files);
    k :| 0 <= k < |files| && files[k] == listed[i];
    m :| 0 <= m < |files| && files[m] == listed[j];
    if k == m {
      TwiceInList(listed, i, j);
      OnceInDistinct(files, k);
    }
  }

  /** Validity does not depend on how the files are listed. */
  lemma ReorderingKeepsValid(files: seq<File>, listed: seq<File>)
    requires DistinctNames(files) && multiset(files) == multiset(listed)
    ensures DistinctNames(listed) && (DistinctSlots(files) ==> DistinctSlots(listed))
  {
    forall i, j | 0 <= i < j < |listed|
      ensures listed[i].filename != listed[j].filename
      ensures DistinctSlots(files) ==> !SameSlot(listed[i], listed[j])
    {
      var k, m := ReorderedPlaces(files, listed, i, j);
      assert k < m ==> files[k].filename != files[m].filename;
      assert m < k ==> files[m].filename != files[k].filename;
    }
  }

  lemma TwiceInList(s: seq<File>, i: nat, j: nat)
    requires i < j < |s| && s[i] == s[j]
    ensures multiset(s)[s[i]] >= 2
  {
    assert s == s[..j] + [s[j]] + s[j + 1..];
    assert s[..j][i] == s[i];
    assert s[i] in multiset(s[..j]);
  }

  lemma OnceInDistinct(files: seq<File>, k: nat)
    requires DistinctNames(files) && k < |files|
    ensures multiset(files)[files[k]] == 1
  {
    var l, r := files[..k], files[k + 1..];
    assert files == l + [files[k]] + r;
    assert files[k] !in l && files[k] !in r;
    assert files[k] !in multiset(l) && files[k] !in multiset(r);
  }

  // ---- Validation ----

  predicate GroupDistinct(files: seq<File>, group: Group, n: nat)
    requires n <= |files|
  {
    forall i, j :: 0 <= i < j < n && files[i].group == group ==> !SameSlot(files[i], files[j])
  }

  predicate NameTwice(files: seq<File>, name: string) {
    exists i, j :: 0 <= i < j < |files| && files[i].filename == name && files[j].filename == name
  }

  predicate VersionTwice(files: seq<File>, group: Group, version: nat) {
    exists i, j :: 0 <= i < j < |files|
      && files[i].group == group && files[i].version == version && SameSlot(files[i], files[j])
  }

  /** A name that occurs twice, if any does. */
  method DuplicateNameIn(files: seq<File>) returns (name: Option<string>)
    ensures name.None? <==> DistinctNames(files)
    ensures name.Some? ==> NameTwice(files, name.value)
  {
    var seen: set<string> := {};
    var i := 0;
    while i < |files|
      invariant 0 <= i <= |files|
      invariant seen == (set j | 0 <= j < i :: files[j].filename)
      invariant DistinctNames(files[..i])
    {
      if files[i].filename in seen {
        ghost var k :| 0 <= k < i && files[k].filename == files[i].filename;
        return Some(files[i].filename);
      }
      seen := seen + {files[i].filename};
      i := i + 1;
    }
    assert files[..i] == files;
    return None;
  }

  /** A version that occurs twice in the group, if any does. */
  method DuplicateVersionIn(files: seq<File>, group: Group) returns (version: Option<nat>)
    ensures version.None? <==> GroupDistinct(files, group, |files|)
    ensures version.Some? ==> VersionTwice(files, group, version.value)
  {
    var versions: set<nat> := {};
    var i := 0;
    while i < |files|
      invariant 0 <= i <= |files|
      invariant versions == (set j | 0 <= j < i && files[j].group == group :: files[j].version)
      invariant GroupDistinct(files, group, i)
    {
      if files[i].group == group {
        if files[i].version in versions {
          ghost var k :| 0 <= k < i && files[k].group == group && files[k].version == files[i].version;
          return Some(files[i].version);
        }
        versions := versions + {files[i].version};
      }
      i := i + 1;
    }
    return None;
  }

  /** `validateMigrations`: unique names, unique versions within each group, then the order. */
  method ValidateMigrations(files: seq<File>) returns (r: Result<seq<File>, Error>)
    ensures r.Ok? <==> Valid(files)
    ensures r.Ok? ==> r.value == Sort(files) && multiset(r.value) == multiset(files)
    ensures r.Ok? ==> InOrder(r.value) && DistinctNames(r.value)
    ensures r.Ok? ==> forall i, j :: 0 <= i < j < |r.value| ==>
      if r.value[i].group == r.value[j].group then r.value[i].version < r.value[j].version
      else r.value[i].group == Schema && r.value[j].group == Migration
    ensures r.Err? ==> if DistinctNames(files) then r.error.DuplicateVersion? else r.error.DuplicateName?
    ensures r.Err? && r.error.DuplicateName? ==> NameTwice(files, r.error.filename)
    ensures r.Err? && r.error.DuplicateVersion? ==> VersionTwice(files, r.error.group, r.error.version)
  {
    hide Sort, NameTwice, VersionTwice;
    var name := DuplicateNameIn(files);
    if name.Some? { return Err(DuplicateName(name.value)); }
    var groups := [Schema, Migration];
    var g := 0;
    while g < |groups|
      invariant 0 <= g <= |groups|
      invariant forall h :: 0 <= h < g ==> GroupDistinct(files, groups[h], |files|)
    {
      var version := DuplicateVersionIn(files, groups[g]);
      if version.Some? { return Err(DuplicateVersion(groups[g], version.value)); }
      g := g + 1;
    }
    assert GroupDistinct(files, groups[0], |files|) && GroupDistinct(files, groups[1], |files|);
    SortInOrder(files);
    ReorderingKeepsValid(files, Sort(files));
    return Ok(Sort(files));
  }

  // ---- Reconciliation ----

  datatype Reconciled = Reconciled(applied: seq<File>, pending: seq<File>, drifted: seq<File>, missing: seq<string>)

  function FileNamed(migrations: seq<File>, name: string): Option<File> {
    if migrations == [] then None
    else if migrations[|migrations| - 1].filename == name then Some(migrations[|migrations| - 1])
    else FileNamed(migrations[..|migrations| - 1], name)
  }

  predicate Recorded(rows: seq<Row>, name: string) {
    exists i :: 0 <= i < |rows| && rows[i].filename == name
  }

  function Pending(migrations: seq<File>, rows: seq<Row>): seq<File> {
    if migrations == [] then []
    else
      var front, last := Pending(migrations[..|migrations| - 1], rows), migrations[|migrations| - 1];
      if Recorded(rows, last.filename) then front else front + [last]
  }

  function Classified(migrations: seq<File>, rows: seq<Row>): Reconciled {
    if rows == [] then Reconciled([], [], [], [])
    else
      var front, last := Classified(migrations, rows[..|rows| - 1]), rows[|rows| - 1];
      match FileNamed(migrations, last.filename)
      case None => front.(missing := front.missing + [last.filename])
      case Some(file) =>
        if file.checksum != last.checksum then front.(drifted := front.drifted + [file])
        else front.(applied := front.applied + [file])
  }

  function Reconcile(migrations: seq<File>, rows: seq<Row>): Reconciled {
    Classified(migrations, rows).(pending := Pending(migrations, rows))
  }

  method ReconcileRows(migrations: seq<File>, rows: seq<Row>) returns (r: Reconciled)
    ensures r == Reconcile(migrations, rows)
  {
    r := Reconciled([], [], [], []);
    var i := 0;
    while i < |rows|
      invariant 0 <= i <= |rows|
      invariant r == Classified(migrations, rows[..i])
    {
      assert rows[..i + 1][..i] == rows[..i];
      match FileNamed(migrations, rows[i].filename) {
        case None => r := r.(missing := r.missing + [rows[i].filename]);
        case Some(file) =>
          if file.checksum != rows[i].checksum {
            r := r.(drifted := r.drifted + [file]);
          } else {
            r := r.(applied := r.applied + [file]);
          }
      }
      i := i + 1;
    }
    assert rows[..i] == rows;
    r := r.(pending := Pending(migrations, rows));
  }

  // ---- Integrity ----

  predicate MissingRow(migrations: seq<File>, row: Row) {
    forall i :: 0 <= i < |migrations| ==> migrations[i].filename != row.filename
  }

  predicate DriftedRow(migrations: seq<File>, row: Row) {
    exists i :: 0 <= i < |migrations|
      && migrations[i].filename == row.filename && migrations[i].checksum != row.checksum
  }

  predicate AnyMissing(migrations: seq<File>, rows: seq<Row>) {
    exists i :: 0 <= i < |rows| && MissingRow(migrations, rows[i])
  }

  predicate AnyDrifted(migrations: seq<File>, rows: seq<Row>) {
    exists i :: 0 <= i < |rows| && DriftedRow(migrations, rows[i])
  }

  // ---- Runs ----

  function RowOf(f: File): Row {
    Row(f.filename, f.group, f.version, f.checksum)
  }

  function RowsOf(files: seq<File>): (rows: seq<Row>)
    ensures |rows| == |files| && forall i :: 0 <= i < |files| ==> rows[i] == RowOf(files[i])
  {
    seq(|files|, i requires 0 <= i < |files| => RowOf(files[i]))
  }

  /** How far an untargeted upward run gets: it fails after `failAfter` commits, if that many files are
      pending at all. */
  function Committed(pending: seq<File>, failAfter: Option<nat>): seq<File> {
    if failAfter.Some? && failAfter.value < |pending| then pending[..failAfter.value] else pending
  }

  /** The tracking table after one run over the validated, ordered files. */
  function UpRun(migrations: seq<File>, rows: seq<Row>, failAfter: Option<nat>): seq<Row> {
    var state := Reconcile(migrations, rows);
    if state.missing != [] || state.drifted != [] then rows
    else rows + RowsOf(Committed(state.pending, failAfter))
  }

  class TrackingTable {
    var rows: seq<Row>

    constructor ()
      ensures rows == []
    {
      rows := [];
    }

    /** One transaction: the row is committed, or nothing is. */
    method ApplyMigration(file: File, fails: bool) returns (committed: bool)
      modifies this
      ensures committed <==> !fails && !Recorded(old(rows), file.filename)
      ensures rows == old(rows)
        + if committed then [Row(file.filename, file.group, file.version, file.checksum)] else []
    {
      if fails || Recorded(rows, file.filename) { return false; }
      rows := rows + [RowOf(file)];
      return true;
    }

    /** The loop over the selected files; it stops at the first failure. */
    method ApplyAll(selected: seq<File>, failAfter: Option<nat>) returns (failed: Option<string>)
      requires DistinctNames(selected)
      requires forall i :: 0 <= i < |selected| ==> !Recorded(rows, selected[i].filename)
      modifies this
      ensures rows == old(rows) + RowsOf(Committed(selected, failAfter))
      ensures failed == if failAfter.Some? && failAfter.value < |selected|
                        then Some(selected[failAfter.value].filename) else None
    {
      var i := 0;
      while i < |selected|
        invariant 0 <= i <= |selected|
        invariant rows == old(rows) + RowsOf(selected[..i])
        invariant failAfter.Some? ==> i <= failAfter.value
      {
        NotYetRecorded(old(rows), selected, i);
        var committed := ApplyMigration(selected[i], failAfter == Some(i));
        if !committed { return Some(selected[i].filename); }
        assert RowsOf(selected[..i + 1]) == RowsOf(selected[..i]) + [RowOf(selected[i])];
        i := i + 1;
      }
      assert selected[..i] == selected;
      return None;
    }

    /** A run succeeds exactly on valid files, of which every recorded one is on disk and unedited, when no
        transaction fails. Invalid files, then lost files, then edited files are refused without a change;
        a failing transaction leaves the files before it committed. */
    method RunMigrate(files: seq<File>, failAfter: Option<nat>) returns (r: Result<nat, Error>)
      modifies this
      ensures !Valid(files) ==> r.Err? && (r.error.DuplicateName? || r.error.DuplicateVersion?) && rows == old(rows)
      ensures Valid(files) ==> rows == UpRun(Sort(files), old(rows), failAfter)
      ensures Valid(files) && AnyMissing(files, old(rows)) ==>
        r.Err? && r.error.MissingFromDisk? && rows == old(rows)
      ensures Valid(files) && !AnyMissing(files, old(rows)) && AnyDrifted(files, old(rows)) ==>
        r.Err? && r.error.ChecksumMismatch? && rows == old(rows)
      ensures Valid(files) && !AnyMissing(files, old(rows)) && !AnyDrifted(files, old(rows)) ==>
        var pending := Pending(Sort(files), old(rows));
        if failAfter.Some? && failAfter.value < |pending|
        then r == Err(ApplyFailed(pending[failAfter.value].filename))
        else r == Ok(|pending|) && Pending(Sort(files), rows) == []
    {
      hide UpRun, Sort, Pending;
      var v := ValidateMigrations(files);
      if v.Err? { return Err(v.error); }
      IntegrityExact(v.value, rows);
      SortedIntegrity(files, v.value, rows);
      UpRunIs(v.value, rows, failAfter);
      var state := ReconcileRows(v.value, rows);
      if state.missing != [] { return Err(MissingFromDisk(state.missing)); }
      if state.drifted != [] { return Err(ChecksumMismatch(state.drifted)); }
      PendingDistinct(v.value, rows);
      NothingLeft(v.value, rows);
      var failed := ApplyAll(state.pending, failAfter);
      if failed.Some? { return Err(ApplyFailed(failed.value)); }
      return Ok(|state.pending|);
    }
  }

  /** The table after a run, by cases. */
  lemma UpRunIs(migrations: seq<File>, rows: seq<Row>, failAfter: Option<nat>)
    ensures var state := Reconcile(migrations, rows);
      UpRun(migrations, rows, failAfter)
      == if state.missing != [] || state.drifted != [] then rows
         else rows + RowsOf(Committed(Pending(migrations, rows), failAfter))
  {
  }

  /** Lost and edited files do not depend on the order of the list. */
  lemma SortedIntegrity(files: seq<File>, sorted: seq<File>, rows: seq<Row>)
    requires multiset(files) == multiset(sorted)
    ensures AnyMissing(files, rows) <==> AnyMissing(sorted, rows)
    ensures AnyDrifted(files, rows) <==> AnyDrifted(sorted, rows)
  {
    forall row: Row
      ensures MissingRow(files, row) <==> MissingRow(sorted, row)
      ensures DriftedRow(files, row) <==> DriftedRow(sorted, row)
    {
      SameMembersIntegrity(files, sorted, row);
      SameMembersIntegrity(sorted, files, row);
    }
  }

  lemma SameMembersIntegrity(a: seq<File>, b: seq<File>, row: Row)
    requires multiset(a) == multiset(b)
    ensures MissingRow(a, row) ==> MissingRow(b, row)
    ensures DriftedRow(a, row) ==> DriftedRow(b, row)
  {
    forall i | 0 <= i < |b| ensures b[i] in a {
      assert b[i] in multiset(b);
    }
    forall i | 0 <= i < |a| ensures a[i] in b {
      assert a[i] in multiset(a);
    }
  }

  /** A file is pending exactly when it is in the list and not recorded. */
  lemma {:induction false} PendingMember(migrations: seq<File>, rows: seq<Row>, f: File)
    ensures f in Pending(migrations, rows) <==> f in migrations && !Recorded(rows, f.filename)
    decreases |migrations|
  {
    if migrations != [] {
      PendingMember(migrations[..|migrations| - 1], rows, f);
      assert migrations == migrations[..|migrations| - 1] + [migrations[|migrations| - 1]];
    }
  }

  /** Pending files are unrecorded, each once. */
  lemma {:induction false} PendingDistinct(migrations: seq<File>, rows: seq<Row>)
    requires DistinctNames(migrations)
    ensures var p := Pending(migrations, rows);
      DistinctNames(p) && forall i :: 0 <= i < |p| ==> !Recorded(rows, p[i].filename)
    decreases |migrations|
  {
    if migrations != [] {
      var front, last := migrations[..|migrations| - 1], migrations[|migrations| - 1];
      PendingDistinct(front, rows);
      var p := Pending(front, rows);
      forall i | 0 <= i < |p| ensures p[i].filename != last.filename {
        PendingMember(front, rows, p[i]);
        var k :| 0 <= k < |front| && front[k] == p[i];
        assert migrations[k] == p[i];
      }
    }
  }

  lemma NotYetRecorded(rows: seq<Row>, selected: seq<File>, i: nat)
    requires i < |selected| && DistinctNames(selected) && !Recorded(rows, selected[i].filename)
    ensures !Recorded(rows + RowsOf(selected[..i]), selected[i].filename)
  {
  }

  lemma {:induction false} PendingEmpty(migrations: seq<File>, rows: seq<Row>)
    requires forall i :: 0 <= i < |migrations| ==> Recorded(rows, migrations[i].filename)
    ensures Pending(migrations, rows) == []
    decreases |migrations|
  {
    if migrations != [] {
      var front := migrations[..|migrations| - 1];
      assert forall i :: 0 <= i < |front| ==> front[i] == migrations[i];
      PendingEmpty(front, rows);
    }
  }

  /** A run that commits everything pending leaves nothing pending. */
  lemma NothingLeft(migrations: seq<File>, rows: seq<Row>)
    requires DistinctNames(migrations)
    ensures Pending(migrations, rows + RowsOf(Pending(migrations, rows))) == []
  {
    var p := Pending(migrations, rows);
    var all := rows + RowsOf(p);
    forall i | 0 <= i < |migrations| ensures Recorded(all, migrations[i].filename) {
      PendingMember(migrations, rows, migrations[i]);
      if Recorded(rows, migrations[i].filename) {
        var k :| 0 <= k < |rows| && rows[k].filename == migrations[i].filename;
        assert all[k] == rows[k];
      } else {
        var k :| 0 <= k < |p| && p[k] == migrations[i];
        assert all[|rows| + k] == RowOf(p[k]);
      }
    }
    PendingEmpty(migrations, all);
  }

  // ---- Fixed file set: the table is a prefix of the order ----

  /** With a prefix committed, exactly the rest is pending and nothing looks wrong. */
  lemma PrefixReconciles(migrations: seq<File>, n: nat)
    requires DistinctNames(migrations) && n <= |migrations|
    ensures var r := Reconcile(migrations, RowsOf(migrations[..n]));
      r.pending == migrations[n..] && r.missing == [] && r.drifted == [] && r.applied == migrations[..n]
  {
    PendingIsRest(migrations, n, |migrations|);
    assert migrations[..|migrations|] == migrations;
    ClassifiedPrefix(migrations, n);
  }

  lemma PrefixOfPrefix<T>(s: seq<T>, m: nat)
    requires 0 < m <= |s|
    ensures s[..m][..m - 1] == s[..m - 1] && s[..m][m - 1] == s[m - 1]
  {
  }

  lemma RecordedPrefix(migrations: seq<File>, n: nat, k: nat)
    requires DistinctNames(migrations) && n <= |migrations| && k < |migrations|
    ensures Recorded(RowsOf(migrations[..n]), migrations[k].filename) <==> k < n
  {
    var rows := RowsOf(migrations[..n]);
    assert forall i :: 0 <= i < n ==> rows[i].filename == migrations[i].filename;
  }

  lemma NothingPending(rows: seq<Row>)
    ensures Pending([], rows) == []
  {
  }

  lemma PendingLast(migrations: seq<File>, rows: seq<Row>)
    requires migrations != []
    ensures var front, last := migrations[..|migrations| - 1], migrations[|migrations| - 1];
      Pending(migrations, rows)
      == Pending(front, rows) + if Recorded(rows, last.filename) then [] else [last]
  {
  }

  lemma {:induction false} PendingIsRest(migrations: seq<File>, n: nat, m: nat)
    requires DistinctNames(migrations) && n <= |migrations| && m <= |migrations|
    ensures Pending(migrations[..m], RowsOf(migrations[..n])) == if m <= n then [] else migrations[n..m]
    decreases m
  {
    hide Recorded, Pending;
    var rows := RowsOf(migrations[..n]);
    if m == 0 {
      NothingPending(rows);
    } else {
      PendingIsRest(migrations, n, m - 1);
      PrefixOfPrefix(migrations, m);
      PendingLast(migrations[..m], rows);
      RecordedPrefix(migrations, n, m - 1);
      if m > n {
        assert migrations[n..m] == migrations[n..m - 1] + [migrations[m - 1]];
      }
    }
  }

  lemma {:induction false} FileNamedFinds(migrations: seq<File>, k: nat)
    requires DistinctNames(migrations) && k < |migrations|
    ensures FileNamed(migrations, migrations[k].filename) == Some(migrations[k])
    decreases |migrations|
  {
    if k < |migrations| - 1 {
      FileNamedFinds(migrations[..|migrations| - 1], k);
    }
  }

  lemma {:induction false} ClassifiedPrefix(migrations: seq<File>, n: nat)
    requires DistinctNames(migrations) && n <= |migrations|
    ensures Classified(migrations, RowsOf(migrations[..n])) == Reconciled(migrations[..n], [], [], [])
    decreases n
  {
    if n > 0 {
      ClassifiedPrefix(migrations, n - 1);
      assert RowsOf(migrations[..n])[..n - 1] == RowsOf(migrations[..n - 1]);
      FileNamedFinds(migrations, n - 1);
      assert migrations[..n] == migrations[..n - 1] + [migrations[n - 1]];
    }
  }

  function TableAfter(migrations: seq<File>, runs: seq<Option<nat>>): seq<Row> {
    if runs == [] then []
    else UpRun(migrations, TableAfter(migrations, runs[..|runs| - 1]), runs[|runs| - 1])
  }

  /** Number of files committed after the runs. */
  function Progress(migrations: seq<File>, runs: seq<Option<nat>>): (n: nat)
    ensures n <= |migrations|
  {
    if runs == [] then 0
    else
      var before, fail := Progress(migrations, runs[..|runs| - 1]), runs[|runs| - 1];
      if fail.Some? && before + fail.value < |migrations| then before + fail.value else |migrations|
  }

  /** From an empty table, any sequence of runs, each failing wherever it likes, leaves exactly a
      prefix of the (group, version) order committed. */
  lemma {:induction false} TableIsPrefix(migrations: seq<File>, runs: seq<Option<nat>>)
    requires DistinctNames(migrations)
    ensures TableAfter(migrations, runs) == RowsOf(migrations[..Progress(migrations, runs)])
    decreases |runs|
  {
    if runs != [] {
      var front, fail := runs[..|runs| - 1], runs[|runs| - 1];
      TableIsPrefix(migrations, front);
      RunExtendsPrefix(migrations, Progress(migrations, front), Progress(migrations, runs), fail);
    }
  }

  lemma RunExtendsPrefix(migrations: seq<File>, n: nat, m: nat, fail: Option<nat>)
    requires DistinctNames(migrations) && n <= |migrations|
    requires m == if fail.Some? && n + fail.value < |migrations| then n + fail.value else |migrations|
    ensures UpRun(migrations, RowsOf(migrations[..n]), fail) == RowsOf(migrations[..m])
  {
    PrefixReconciles(migrations, n);
    var rest := migrations[n..];
    assert Committed(rest, fail) == migrations[n..m];
    assert RowsOf(migrations[..n]) + RowsOf(migrations[n..m]) == RowsOf(migrations[..m]);
  }

  /** The same, for the files as discovered: the committed rows are a strictly ordered prefix with no
      file twice, whatever order discovery listed the files in. */
  lemma RunsCommitOrderedPrefix(files: seq<File>, listed: seq<File>, runs: seq<Option<nat>>)
    requires Valid(files) && multiset(files) == multiset(listed)
    ensures var rows := TableAfter(Sort(listed), runs);
      && rows == RowsOf(Sort(files)[..Progress(Sort(files), runs)])
      && (forall i, j :: 0 <= i < j < |rows| ==> rows[i].filename != rows[j].filename)
      && InOrder(Sort(files))
  {
    ReorderingKeepsValid(files, listed);
    SortInOrder(files);
    SortInOrder(listed);
    OrderUnique(Sort(files), Sort(listed));
    ReorderingKeepsValid(files, Sort(files));
    TableIsPrefix(Sort(files), runs);
  }

  /** After a run that completes nothing is pending, and running again changes nothing. */
  lemma CompletedIsFinal(migrations: seq<File>, runs: seq<Option<nat>>, again: Option<nat>)
    requires DistinctNames(migrations)
    requires Progress(migrations, runs) == |migrations|
    ensures TableAfter(migrations, runs) == RowsOf(migrations)
    ensures Reconcile(migrations, TableAfter(migrations, runs)).pending == []
    ensures UpRun(migrations, TableAfter(migrations, runs), again) == TableAfter(migrations, runs)
  {
    TableIsPrefix(migrations, runs);
    assert migrations[..|migrations|] == migrations;
    PrefixReconciles(migrations, |migrations|);
  }

  // ---- Changing file sets: the table only grows, without duplicates ----

  predicate DistinctRows(rows: seq<Row>) {
    forall i, j :: 0 <= i < j < |rows| ==> rows[i].filename != rows[j].filename
  }

  /** Whatever files are on disk, a run keeps the table's rows and never records a name twice. */
  lemma RunOnlyAppends(migrations: seq<File>, rows: seq<Row>, failAfter: Option<nat>)
    requires DistinctNames(migrations) && DistinctRows(rows)
    ensures rows <= UpRun(migrations, rows, failAfter)
    ensures DistinctRows(UpRun(migrations, rows, failAfter))
  {
    PendingDistinct(migrations, rows);
    var p := Pending(migrations, rows);
    var c := Committed(p, failAfter);
    forall i, j | 0 <= i < |rows| && 0 <= j < |c| ensures rows[i].filename != c[j].filename {
      assert c[j] == p[j];
    }
  }

  // ---- What reconciliation finds ----

  lemma {:induction false} FileNamedMissing(migrations: seq<File>, row: Row)
    ensures FileNamed(migrations, row.filename).None? <==> MissingRow(migrations, row)
    decreases |migrations|
  {
    if migrations != [] {
      FileNamedMissing(migrations[..|migrations| - 1], row);
    }
  }

  lemma FileNamedDrifted(migrations: seq<File>, row: Row)
    requires DistinctNames(migrations)
    ensures DriftedRow(migrations, row) <==>
      var f := FileNamed(migrations, row.filename); f.Some? && f.value.checksum != row.checksum
  {
    FileNamedMissing(migrations, row);
    if !MissingRow(migrations, row) {
      var k :| 0 <= k < |migrations| && migrations[k].filename == row.filename;
      FileNamedFinds(migrations, k);
      assert forall i :: 0 <= i < |migrations| && migrations[i].filename == row.filename ==> i == k;
    }
  }

  /** Something is missing or drifted exactly when some recorded file is gone from disk or was edited. */
  lemma {:induction false} IntegrityExact(migrations: seq<File>, rows: seq<Row>)
    requires DistinctNames(migrations)
    ensures var r := Reconcile(migrations, rows);
      && (r.missing != [] <==> AnyMissing(migrations, rows))
      && (r.drifted != [] <==> AnyDrifted(migrations, rows))
    decreases |rows|
  {
    if rows != [] {
      var front, last := rows[..|rows| - 1], rows[|rows| - 1];
      IntegrityExact(migrations, front);
      FileNamedMissing(migrations, last);
      FileNamedDrifted(migrations, last);
      assert forall i :: 0 <= i < |front| ==> front[i] == rows[i];
    }
  }

  predicate SameName(f: File, row: Row) {
    f.filename == row.filename
  }

  /** The lists, file by file: applied files have a row of their name and checksum, drifted files one of
      their name and another checksum, pending files none, and the missing names are those of rows
      without a file. */
  lemma {:induction false} ReconcileExact(migrations: seq<File>, rows: seq<Row>, f: File, name: string)
    requires DistinctNames(migrations)
    ensures var r := Reconcile(migrations, rows);
      && (f in r.applied <==>
            f in migrations && exists i :: 0 <= i < |rows| && SameName(f, rows[i]) && rows[i].checksum == f.checksum)
      && (f in r.drifted <==>
            f in migrations && exists i :: 0 <= i < |rows| && SameName(f, rows[i]) && rows[i].checksum != f.checksum)
      && (f in r.pending <==>
            f in migrations && forall i :: 0 <= i < |rows| ==> !SameName(f, rows[i]))
      && (name in r.missing <==>
            exists i :: 0 <= i < |rows| && rows[i].filename == name && MissingRow(migrations, rows[i]))
    decreases |rows|
  {
    PendingMember(migrations, rows, f);
    if rows != [] {
      var front, last := rows[..|rows| - 1], rows[|rows| - 1];
      ReconcileExact(migrations, front, f, name);
      FileNamedMissing(migrations, last);
      if !MissingRow(migrations, last) {
        var k :| 0 <= k < |migrations| && migrations[k].filename == last.filename;
        FileNamedFinds(migrations, k);
        assert f in migrations && SameName(f, last) ==> f == migrations[k];
      }
      assert forall i :: 0 <= i < |front| ==> front[i] == rows[i];
    }
  }
}
