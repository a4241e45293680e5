/**
 * The cleaning pass of the Analyzer as functions on values: the Cleaner registry
 * (Analyzer.__cleanerDict) with its get-or-create rule, the dispatch of table rows to
 * per-field Cleaners, and the choice of which directory entries are read at all.
 */
module Cleaning {
  import opened Collaborators
  import opened OrderedDict

  /** Analyzer.__cleanerDict: field value to its Cleaner, in the order the fields were first seen */
  type Registry = Dict<FieldValue, Cleaner>

  /** Every registered field is non-empty and owns the Cleaner that was created for it */
  ghost predicate WellFormed(reg: Registry) {
    && Valid(reg)
    && forall f :: f in reg.entries ==> !IsEmptyData(f) && reg.entries[f].field == f
  }

  /** The registry after getCleanerFor(v): empty values and registered fields leave it as it is */
  function Register(reg: Registry, v: FieldValue): Registry {
    if IsEmptyData(v) || v in reg.entries then reg else Put(reg, v, NewCleaner(v))
  }

  lemma RegisterWellFormed(reg: Registry, v: FieldValue)
    requires WellFormed(reg)
    ensures WellFormed(Register(reg, v))
    ensures reg.keys <= Register(reg, v).keys
  {
    if !IsEmptyData(v) && v !in reg.entries {
      PutValid(reg, v, NewCleaner(v));
    }
  }

  /** One pass of the row loop of __cleanDataForFile: look the row's Department value up
      (creating its Cleaner on first sight) and hand the row to that Cleaner */
  function DispatchRow(reg: Registry, row: Row): Registry {
    var v := row.department;
    if IsEmptyData(v) then reg
    else
      var r := Register(reg, v);
      Put(r, v, CleanRow(r.entries[v], row))
  }

  lemma DispatchRowWellFormed(reg: Registry, row: Row)
    requires WellFormed(reg)
    ensures WellFormed(DispatchRow(reg, row))
    ensures reg.keys <= DispatchRow(reg, row).keys
  {
    var v := row.department;
    if !IsEmptyData(v) {
      RegisterWellFormed(reg, v);
      var r := Register(reg, v);
      PutValid(r, v, CleanRow(r.entries[v], row));
    }
  }

  /** The registry after the row loop has run over all of rows */
  function DispatchRows(reg: Registry, rows: seq<Row>): Registry
    decreases |rows|
  {
    if rows == [] then reg
    else DispatchRow(DispatchRows(reg, rows[..|rows| - 1]), rows[|rows| - 1])
  }

  /** The rows of rows whose Department value is f, in order */
  function RowsFor(rows: seq<Row>, f: FieldValue): seq<Row>
    decreases |rows|
  {
    if rows == [] then []
    else RowsFor(rows[..|rows| - 1], f) + (if rows[|rows| - 1].department == f then [rows[|rows| - 1]] else [])
  }

  /** The rows a field's Cleaner already held before a pass */
  function PriorRows(reg: Registry, f: FieldValue): seq<Row> {
    if f in reg.entries then reg.entries[f].rows else []
  }

  /** RowsFor keeps exactly the rows with that Department value */
  lemma {:induction false} RowsForMembers(rows: seq<Row>, f: FieldValue)
    ensures forall r :: r in RowsFor(rows, f) <==> r in rows && r.department == f
    decreases |rows|
  {
    if rows != [] {
      var init := rows[..|rows| - 1];
      RowsForMembers(init, f);
      assert rows == init + [rows[|rows| - 1]];
    }
  }

  lemma {:induction false} RowsForAbsent(rows: seq<Row>, f: FieldValue)
    requires forall r :: r in rows ==> r.department != f
    ensures RowsFor(rows, f) == []
    decreases |rows|
  {
    if rows != [] {
      RowsForAbsent(rows[..|rows| - 1], f);
    }
  }

  /** Dispatch keeps the registry well formed, and the fields already registered keep their
      place in the iteration order */
  lemma {:induction false} DispatchRowsWellFormed(reg: Registry, rows: seq<Row>)
    requires WellFormed(reg)
    ensures WellFormed(DispatchRows(reg, rows))
    ensures reg.keys <= DispatchRows(reg, rows).keys
    decreases |rows|
  {
    if rows != [] {
      var init := rows[..|rows| - 1];
      DispatchRowsWellFormed(reg, init);
      DispatchRowWellFormed(DispatchRows(reg, init), rows[|rows| - 1]);
    }
  }

  /** f is the non-empty Department value of some row of rows */
  ghost predicate IsDepartmentIn(f: FieldValue, rows: seq<Row>) {
    !IsEmptyData(f) && exists r :: r in rows && r.department == f
  }

  /** After a pass the registered fields are the old ones plus every non-empty Department
      value of the rows; an empty value never gets a Cleaner */
  lemma {:induction false} DispatchRowsKeys(reg: Registry, rows: seq<Row>)
    ensures forall f :: f in DispatchRows(reg, rows).entries <==> f in reg.entries || IsDepartmentIn(f, rows)
    decreases |rows|
  {
    if rows != [] {
      var init, last := rows[..|rows| - 1], rows[|rows| - 1];
      DispatchRowsKeys(reg, init);
      assert rows == init + [last];
    }
  }

  /** After a pass a field's Cleaner holds the rows it held before followed by exactly the rows
      of the pass whose Department value is that field, in table order */
  lemma {:induction false} DispatchRowsCleaner(reg: Registry, rows: seq<Row>, f: FieldValue)
    requires WellFormed(reg)
    requires f in DispatchRows(reg, rows).entries
    ensures DispatchRows(reg, rows).entries[f] == Cleaner(f, PriorRows(reg, f) + RowsFor(rows, f))
    decreases |rows|
  {
    if rows == [] {
      assert reg.entries[f].field == f;
    } else {
      var init, last := rows[..|rows| - 1], rows[|rows| - 1];
      var mid := DispatchRows(reg, init);
      DispatchRowsWellFormed(reg, init);
      if f in mid.entries {
        DispatchRowsCleaner(reg, init, f);
        if last.department == f {
          assert PriorRows(reg, f) + RowsFor(init, f) + [last] == PriorRows(reg, f) + (RowsFor(init, f) + [last]);
        }
      } else {
        assert last.department == f && !IsEmptyData(f);
        DispatchRowsKeys(reg, init);
        RowsForAbsent(init, f);
      }
    }
  }

  /** Two passes in a row do what one pass over the concatenated rows does */
  lemma {:induction false} DispatchRowsAppend(reg: Registry, a: seq<Row>, b: seq<Row>)
    ensures DispatchRows(reg, a + b) == DispatchRows(DispatchRows(reg, a), b)
    decreases |b|
  {
    if b == [] {
      assert a + b == a;
    } else {
      var init := b[..|b| - 1];
      DispatchRowsAppend(reg, a, init);
      assert (a + b)[..|a + b| - 1] == a + init;
    }
  }

  /** One more row of a table, as the row loop of __cleanDataForFile takes it */
  lemma DispatchPrefixStep(reg: Registry, rows: seq<Row>, i: int)
    requires 0 <= i < |rows|
    ensures DispatchRows(reg, rows[..i + 1]) == DispatchRow(DispatchRows(reg, rows[..i]), rows[i])
  {
    assert rows[..i + 1][..i] == rows[..i];
  }

  /** The index of the last '.' in s, or -1 when there is none */
  function LastDot(s: string): (r: int)
    ensures -1 <= r < |s|
    ensures r >= 0 ==> s[r] == '.'
    ensures forall i :: r < i < |s| ==> s[i] != '.'
    decreases |s|
  {
    if s == [] then -1
    else if s[|s| - 1] == '.' then |s| - 1
    else LastDot(s[..|s| - 1])
  }

  /** os.path.splitext(name)[1] for a name without directory separators: the text from the last
      dot on, except that a dot preceded only by dots does not start an extension */
  function Extension(name: string): (r: string)
    ensures r == "" || (r[0] == '.' && |r| <= |name| && r == name[|name| - |r|..])
  {
    var d := LastDot(name);
    if d >= 0 && exists i :: 0 <= i < d && name[i] != '.' then name[d..] else ""
  }

  /** A lock file left by the spreadsheet editor: its name starts with "~$" */
  predicate IsLockFile(name: string) {
    |name| >= 2 && name[..2] == "~$"
  }

  /** cleanData reads a directory entry only if it is not a lock file and has extension .xlsx */
  predicate IsCleanTarget(name: string) {
    !IsLockFile(name) && Extension(name) == ".xlsx"
  }

  /** A name has extension ".xlsx" exactly when it ends in ".xlsx" after at least one
      character other than a dot */
  lemma ExtensionIsXlsx(name: string)
    ensures Extension(name) == ".xlsx" <==>
      |name| >= 5 && name[|name| - 5..] == ".xlsx" && exists i :: 0 <= i < |name| - 5 && name[i] != '.'
  {
    var d := LastDot(name);
    if |name| >= 5 && name[|name| - 5..] == ".xlsx" {
      var e := |name| - 5;
      assert name[e] == '.';
      assert forall i :: e < i < |name| ==> name[i] == name[e..][i - e];
      assert d == e;
    }
    if Extension(name) == ".xlsx" {
      assert |name[d..]| == 5;
    }
  }

  /** The rows the cleaning pass hands on, file by file in listing order */
  function CleanedRows(listing: seq<string>, read: string -> seq<Row>): seq<Row>
    decreases |listing|
  {
    if listing == [] then []
    else
      var name := listing[|listing| - 1];
      CleanedRows(listing[..|listing| - 1], read) + (if IsCleanTarget(name) then read(name) else [])
  }

  /** A row is handed on exactly when it comes from a listed file that is a cleaning target */
  lemma {:induction false} CleanedRowsMembers(listing: seq<string>, read: string -> seq<Row>)
    ensures forall r :: r in CleanedRows(listing, read) <==>
      exists name :: name in listing && IsCleanTarget(name) && r in read(name)
    decreases |listing|
  {
    if listing != [] {
      var init := listing[..|listing| - 1];
      CleanedRowsMembers(init, read);
      assert listing == init + [listing[|listing| - 1]];
    }
  }
}
