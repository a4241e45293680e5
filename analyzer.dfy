/**
 * The Analyzer orchestrator. It owns four pieces of mutable state: the institution-ID registry,
 * the institution store, the Cleaner registry and the cleaned flag. It fills the registry from a
 * directory of raw tables and answers per-field and all-field queries by delegating to the
 * Cleaners. The Cleaners' own computations (Gini coefficient, MVR rank, average moves) are
 * parameters of the queries, and an export is returned as the request it makes of a Cleaner.
 */
module Analyzer {
  import opened Collaborators
  import opened OrderedDict
  import opened IdRegistry
  import opened Cleaning

  /** The refusals the queries report, in the order a query reports them */
  datatype Denial =
    | NotCleaned       // "Attempt denied. Data are not cleaned yet."
    | InvalidFieldName // the field has no Cleaner
    | FieldNotString   // "Field name should be a string"

  /** Cleaner.exportVertexAndEdgeListAs(format), asked of the Cleaner registered for field */
  datatype ExportRequest = ExportRequest(field: FieldValue, format: FileExt)

  /** The export requests of exportVertexAndEdgeListForAll: one per string-keyed field, in
      iteration order */
  function StringFieldExports(fields: seq<FieldValue>, format: FileExt): seq<ExportRequest>
    decreases |fields|
  {
    if fields == [] then []
    else
      var f := fields[|fields| - 1];
      StringFieldExports(fields[..|fields| - 1], format) + (if f.Str? then [ExportRequest(f, format)] else [])
  }

  /** An export is requested exactly for the listed fields that are strings, in the given format */
  lemma {:induction false} StringFieldExportsMembers(fields: seq<FieldValue>, format: FileExt)
    ensures forall e :: e in StringFieldExports(fields, format) <==>
      e.field in fields && e.field.Str? && e.format == format
    decreases |fields|
  {
    if fields != [] {
      var init := fields[..|fields| - 1];
      StringFieldExportsMembers(init, format);
      assert fields == init + [fields[|fields| - 1]];
    }
  }

  class Analyzer {
    var cleanerDict: Registry
    var instIdDict: IdMap
    var instDict: map<int, Institution>
    var cleanedFlag: bool

    ghost predicate Valid()
      reads this
    {
      && WellFormed(cleanerDict)
      && DenseIds(instIdDict)
      && forall id :: id in instDict ==> instDict[id].info.instId == id
    }

    constructor ()
      ensures Valid()
      ensures cleanerDict == Empty() && instIdDict == map[] && instDict == map[] && !cleanedFlag
    {
      cleanerDict := Empty();
      instIdDict := map[];
      instDict := map[];
      cleanedFlag := false;
    }

    // ---- institution store ----

    /** The record for info's ID, created from info on first use; the field is registered with it */
    method GetInstitution(info: InstInfo, field: FieldValue) returns (inst: Institution)
      requires Valid()
      modifies this
      ensures Valid()
      ensures instDict == old(instDict)[info.instId := inst]
      ensures info.instId in old(instDict) ==>
        inst.info == old(instDict)[info.instId].info &&
        inst.fieldRequests == old(instDict)[info.instId].fieldRequests + [field]
      ensures info.instId !in old(instDict) ==> inst == Institution(info, [field])
      ensures cleanerDict == old(cleanerDict) && instIdDict == old(instIdDict) && cleanedFlag == old(cleanedFlag)
    {
      if info.instId !in instDict {
        instDict := instDict[info.instId := NewInstitution(info)];
      }
      instDict := instDict[info.instId := GetField(instDict[info.instId], field)];
      inst := instDict[info.instId];
    }

    /** The record registered under id, or None when there is none */
    method GetExistingInstitution(id: int) returns (inst: Option<Institution>)
      requires Valid()
      ensures inst.None? <==> id !in instDict
      ensures inst.Some? ==> inst.value == instDict[id] && inst.value.info.instId == id
    {
      if id !in instDict {
        return None;
      }
      return Some(instDict[id]);
    }

    // ---- Cleaner registry ----

    /** The Cleaner for field, created on first use; None for an empty value */
    method GetCleanerFor(field: FieldValue) returns (cleaner: Option<Cleaner>)
      requires Valid()
      modifies this
      ensures Valid()
      ensures cleanerDict == Register(old(cleanerDict), field)
      ensures IsEmptyData(field) ==> cleaner == None && cleanerDict == old(cleanerDict)
      ensures field in old(cleanerDict.entries) ==>
        cleaner == Some(old(cleanerDict.entries[field])) && cleanerDict == old(cleanerDict)
      ensures !IsEmptyData(field) && field !in old(cleanerDict.entries) ==>
        && cleaner == Some(NewCleaner(field))
        && cleanerDict.entries == old(cleanerDict.entries)[field := NewCleaner(field)]
        && cleanerDict.keys == old(cleanerDict.keys) + [field]
      ensures instIdDict == old(instIdDict) && instDict == old(instDict) && cleanedFlag == old(cleanedFlag)
    {
      if IsEmptyData(field) {
        return None;
      }
      if field !in cleanerDict.entries {
        PutValid(cleanerDict, field, NewCleaner(field));
        cleanerDict := Put(cleanerDict, field, NewCleaner(field));
      }
      cleaner := Some(cleanerDict.entries[field]);
    }

    // ---- institution-ID registry ----

    /** The ID of info's key triple; a key seen for the first time gets the registry's size plus one */
    method GetInstIdFor(info: InstInfo) returns (id: int)
      requires Valid()
      modifies this
      ensures Valid()
      ensures instIdDict == Allocate(old(instIdDict), info.keyTuple)
      ensures info.keyTuple in old(instIdDict) ==>
        id == old(instIdDict)[info.keyTuple] && instIdDict == old(instIdDict)
      ensures info.keyTuple !in old(instIdDict) ==>
        && id == |old(instIdDict)| + 1
        && id !in old(instIdDict).Values
        && instIdDict == old(instIdDict)[info.keyTuple := id]
      ensures id == instIdDict[info.keyTuple]
      ensures cleanerDict == old(cleanerDict) && instDict == old(instDict) && cleanedFlag == old(cleanedFlag)
    {
      var key := info.keyTuple;
      AllocateDense(instIdDict, key);
      if key in instIdDict {
        id := instIdDict[key];
      } else {
        id := |instIdDict| + 1;
        instIdDict := instIdDict[key := id];
      }
    }

    /** Preload one key triple: 0 and no change if it is registered already, otherwise allocate and 1 */
    method GetInstIdForInit(key: KeyTriple) returns (ok: int)
      requires Valid()
      modifies this
      ensures Valid()
      ensures instIdDict == Allocate(old(instIdDict), key)
      ensures ok == if key in old(instIdDict) then 0 else 1
      ensures cleanerDict == old(cleanerDict) && instDict == old(instDict) && cleanedFlag == old(cleanedFlag)
    {
      AllocateDense(instIdDict, key);
      if key in instIdDict {
        return 0;
      }
      instIdDict := instIdDict[key := |instIdDict| + 1];
      return 1;
    }

    /** Preload the registry from a table of key triples (its first three columns, row by row).
        An empty table gives 0; otherwise every row is tried, and the result is 1 exactly when no row
        was registered already, rows allocated before a duplicate staying allocated. */
    method LoadInstIdDictFrom(table: seq<KeyTriple>) returns (r: int)
      requires Valid()
      modifies this
      ensures Valid()
      ensures table == [] ==> r == 0 && instIdDict == old(instIdDict)
      ensures instIdDict == AllocateAll(old(instIdDict), table)
      ensures r == 1 <==> table != [] && AllFresh(old(instIdDict), table)
      ensures r == 0 || r == 1
      ensures forall k :: k in instIdDict <==> k in old(instIdDict) || k in table
      ensures forall k :: k in old(instIdDict) ==> instIdDict[k] == old(instIdDict)[k]
      ensures cleanerDict == old(cleanerDict) && instDict == old(instDict) && cleanedFlag == old(cleanedFlag)
    {
      if table == [] {
        return 0;
      }
      ghost var start := instIdDict;
      r := 1;
      var i := 0;
      while i < |table|
        invariant 0 <= i <= |table|
        invariant Valid()
        invariant instIdDict == AllocateAll(start, table[..i])
        invariant r == 1 <==> NoneRegistered(start, table[..i])
        invariant r == 0 || r == 1
        invariant cleanerDict == old(cleanerDict) && instDict == old(instDict) && cleanedFlag == old(cleanedFlag)
      {
        AllocatePrefixStep(start, table, i);
        var ok := GetInstIdForInit(table[i]);
        // returnValue &= ok, on the values 0 and 1
        r := if r == 1 && ok == 1 then 1 else 0;
        i := i + 1;
      }
      assert table[..i] == table;
      NoneRegisteredIsAllFresh(start, table);
      AllocateAllKeys(start, table);
      AllocateAllKeepsIds(start, table);
    }

    // ---- cleaning pass ----

    /** The row loop over one table: each row goes to the Cleaner of its Department value,
        rows with an empty value are skipped */
    method CleanDataForFile(table: seq<Row>)
      requires Valid()
      modifies this
      ensures Valid()
      ensures cleanerDict == DispatchRows(old(cleanerDict), table)
      ensures forall f :: f in cleanerDict.entries <==> f in old(cleanerDict.entries) || IsDepartmentIn(f, table)
      ensures cleanedFlag == old(cleanedFlag)
    {
      var i := 0;
      while i < |table|
        invariant 0 <= i <= |table|
        invariant Valid()
        invariant cleanerDict == DispatchRows(old(cleanerDict), table[..i])
        invariant cleanedFlag == old(cleanedFlag)
      {
        var row := table[i];
        ghost var before := cleanerDict;
        DispatchRowWellFormed(before, row);
        var cleaner := GetCleanerFor(row.department);
        if cleaner.Some? {
          cleanerDict := Put(cleanerDict, row.department, CleanRow(cleaner.value, row));
        }
        assert cleanerDict == DispatchRow(before, row);
        DispatchPrefixStep(old(cleanerDict), table, i);
        i := i + 1;
      }
      assert table[..i] == table;
      DispatchRowsKeys(old(cleanerDict), table);
    }

    /** The whole pass over a directory listing: lock files and names whose extension is not
        .xlsx are skipped, every other file's table (as read gives it) goes through the row loop,
        and the cleaned flag is raised afterwards */
    method CleanData(listing: seq<string>, read: string -> seq<Row>)
      requires Valid()
      modifies this
      ensures Valid()
      ensures cleanerDict == DispatchRows(old(cleanerDict), CleanedRows(listing, read))
      ensures forall f :: f in cleanerDict.entries <==>
        f in old(cleanerDict.entries) || IsDepartmentIn(f, CleanedRows(listing, read))
      ensures cleanedFlag
    {
      var i := 0;
      while i < |listing|
        invariant 0 <= i <= |listing|
        invariant Valid()
        invariant cleanerDict == DispatchRows(old(cleanerDict), CleanedRows(listing[..i], read))
      {
        var name := listing[i];
        ghost var done := CleanedRows(listing[..i], read);
        assert listing[..i + 1][..i] == listing[..i] && listing[..i + 1][i] == name;
        if !IsLockFile(name) && Extension(name) == ".xlsx" {
          var table := read(name);
          CleanDataForFile(table);
          assert CleanedRows(listing[..i + 1], read) == done + table;
          DispatchRowsAppend(old(cleanerDict), done, table);
        } else {
          assert CleanedRows(listing[..i + 1], read) == done + [];
          assert done + [] == done;
        }
        i := i + 1;
      }
      assert listing[..i] == listing;
      DispatchRowsKeys(old(cleanerDict), CleanedRows(listing, read));
      cleanedFlag := true;
    }

    // ---- export ----

    /** exportVertexAndEdgeListFor as written: the denial for unclean data is reported, but the export
        still goes ahead; only an unregistered field stops it */
    method ExportVertexAndEdgeListFor(field: FieldValue, format: FileExt)
      returns (r: int, request: Option<ExportRequest>, reports: seq<Denial>)
      ensures r == 1 <==> field in cleanerDict.entries
      ensures r == 0 || r == 1
      ensures request == if field in cleanerDict.entries then Some(ExportRequest(field, format)) else None
      ensures reports ==
        (if cleanedFlag then [] else [NotCleaned]) + (if field in cleanerDict.entries then [] else [InvalidFieldName])
    {
      reports := [];
      if !cleanedFlag {
        reports := reports + [NotCleaned];
      }
      if field !in cleanerDict.entries {
        return 0, None, reports + [InvalidFieldName];
      }
      return 1, Some(ExportRequest(field, format)), reports;
    }

    /** exportVertexAndEdgeListFor as evidently intended: refused while the data are not cleaned */
    method ExportVertexAndEdgeListForGated(field: FieldValue, format: FileExt)
      returns (r: int, request: Option<ExportRequest>, reports: seq<Denial>)
      ensures r == 1 <==> cleanedFlag && field in cleanerDict.entries
      ensures r == 0 || r == 1
      ensures request.Some? <==> r == 1
      ensures request.Some? ==> request.value == ExportRequest(field, format)
      ensures !cleanedFlag ==> reports == [NotCleaned]
      ensures cleanedFlag ==> reports == if field in cleanerDict.entries then [] else [InvalidFieldName]
    {
      if !cleanedFlag {
        return 0, None, [NotCleaned];
      }
      if field !in cleanerDict.entries {
        return 0, None, [InvalidFieldName];
      }
      return 1, Some(ExportRequest(field, format)), [];
    }

    /** Export every string-keyed field in iteration order; refused while the data are not cleaned */
    method ExportVertexAndEdgeListForAll(format: FileExt)
      returns (r: int, requests: seq<ExportRequest>, reports: seq<Denial>)
      requires Valid()
      ensures reports == if cleanedFlag then [] else [NotCleaned]
      ensures !cleanedFlag ==> r == 0 && requests == []
      ensures cleanedFlag ==> r == 1 && requests == StringFieldExports(cleanerDict.keys, format)
      ensures forall e :: e in requests <==>
        cleanedFlag && e.field in cleanerDict.entries && e.field.Str? && e.format == format
    {
      if !cleanedFlag {
        return 0, [], [NotCleaned];
      }
      var keys := cleanerDict.keys;
      requests := [];
      var i := 0;
      while i < |keys|
        invariant 0 <= i <= |keys|
        invariant requests == StringFieldExports(keys[..i], format)
      {
        var cleaner := cleanerDict.entries[keys[i]];
        if cleaner.field.Str? {
          requests := requests + [ExportRequest(cleaner.field, format)];
        }
        assert keys[..i + 1][..i] == keys[..i];
        i := i + 1;
      }
      assert keys[..i] == keys;
      StringFieldExportsMembers(keys, format);
      return 1, requests, [];
    }

    // ---- Gini coefficient ----

    /** The Gini coefficient of field's Cleaner; 0 while the data are not cleaned or
        when the field has no Cleaner */
    method CalcGiniCoeffFor(field: FieldValue, gini: Cleaner -> real) returns (r: real, reports: seq<Denial>)
      ensures reports == [] <==> cleanedFlag && field in cleanerDict.entries
      ensures reports == [] ==> r == gini(cleanerDict.entries[field])
      ensures reports != [] ==> r == 0.0
      ensures !cleanedFlag ==> reports == [NotCleaned]
      ensures cleanedFlag && field !in cleanerDict.entries ==> reports == [InvalidFieldName]
    {
      if !cleanedFlag {
        return 0.0, [NotCleaned];
      }
      if field !in cleanerDict.entries {
        return 0.0, [InvalidFieldName];
      }
      return gini(cleanerDict.entries[field]), [];
    }

    /** The Gini coefficient of every registered field; an empty map while the data are not cleaned */
    method CalcGiniCoeffForAll(gini: Cleaner -> real) returns (coeffs: map<FieldValue, real>, reports: seq<Denial>)
      requires Valid()
      ensures reports == if cleanedFlag then [] else [NotCleaned]
      ensures !cleanedFlag ==> coeffs == map[]
      ensures cleanedFlag ==> coeffs.Keys == cleanerDict.entries.Keys
      ensures forall f :: f in coeffs ==> f in cleanerDict.entries && coeffs[f] == gini(cleanerDict.entries[f])
    {
      if !cleanedFlag {
        return map[], [NotCleaned];
      }
      var keys := cleanerDict.keys;
      coeffs := map[];
      reports := [];
      var i := 0;
      while i < |keys|
        invariant 0 <= i <= |keys|
        invariant forall f :: f in coeffs <==> f in keys[..i]
        invariant forall f :: f in coeffs ==> f in cleanerDict.entries && coeffs[f] == gini(cleanerDict.entries[f])
        invariant reports == []
      {
        var c, denied := CalcGiniCoeffFor(keys[i], gini);
        coeffs := coeffs[keys[i] := c];
        reports := reports + denied;
        assert keys[..i + 1] == keys[..i] + [keys[i]];
        i := i + 1;
      }
      assert keys[..i] == keys;
    }

    // ---- MVR rank ----

    /** What calcMVRRAnkFor gives for a registered field once the data are cleaned:
        the Cleaner's rank for a string field and 0 for any other */
    function RankOf(field: FieldValue, mvr: Cleaner -> int): int
      reads this
      requires field in cleanerDict.entries
    {
      if field.Str? then mvr(cleanerDict.entries[field]) else 0
    }

    /** The MVR rank of field's Cleaner. The argument's type is checked before the flag, and the
        flag before registration; each failure gives 0 */
    method CalcMvrRankFor(field: FieldValue, mvr: Cleaner -> int) returns (r: int, reports: seq<Denial>)
      ensures reports == [] <==> field.Str? && cleanedFlag && field in cleanerDict.entries
      ensures reports == [] ==> r == mvr(cleanerDict.entries[field])
      ensures reports != [] ==> r == 0 && |reports| == 1
      ensures !field.Str? ==> reports == [FieldNotString]
      ensures field.Str? && !cleanedFlag ==> reports == [NotCleaned]
      ensures field.Str? && cleanedFlag && field !in cleanerDict.entries ==> reports == [InvalidFieldName]
    {
      if !field.Str? {
        return 0, [FieldNotString];
      }
      if !cleanedFlag {
        return 0, [NotCleaned];
      }
      if field !in cleanerDict.entries {
        return 0, [InvalidFieldName];
      }
      return mvr(cleanerDict.entries[field]), [];
    }

    /** Rank every field in iteration order, folding the results with Python's `and`: once a rank
        is 0 no later field is ranked. evaluated lists the fields that were ranked; since a field
        that is not a string ranks 0, only the last of them can be refused as not a string. */
    method CalcMvrRankForAll(mvr: Cleaner -> int) returns (r: int, evaluated: seq<FieldValue>, reports: seq<Denial>)
      requires Valid()
      ensures !cleanedFlag ==> r == 0 && evaluated == [] && reports == [NotCleaned]
      ensures cleanedFlag ==>
        reports == if evaluated != [] && !evaluated[|evaluated| - 1].Str? then [FieldNotString] else []
      ensures cleanedFlag ==>
        && evaluated <= cleanerDict.keys
        && (forall j :: 0 <= j < |evaluated| - 1 ==> RankOf(evaluated[j], mvr) != 0)
        && (|evaluated| < |cleanerDict.keys| ==> evaluated != [] && RankOf(evaluated[|evaluated| - 1], mvr) == 0)
        && r == (if evaluated == [] then 1 else RankOf(evaluated[|evaluated| - 1], mvr))
      ensures cleanedFlag ==>
        (r == 0 <==> exists j :: 0 <= j < |cleanerDict.keys| && RankOf(cleanerDict.keys[j], mvr) == 0)
    {
      if !cleanedFlag {
        return 0, [], [NotCleaned];
      }
      var keys := cleanerDict.keys;
      r := 1;
      evaluated := [];
      reports := [];
      var i := 0;
      while i < |keys|
        invariant 0 <= i <= |keys|
        invariant |evaluated| <= i
        invariant evaluated == keys[..|evaluated|]
        invariant forall j :: 0 <= j < |evaluated| - 1 ==> RankOf(keys[j], mvr) != 0
        invariant r == if evaluated == [] then 1 else RankOf(keys[|evaluated| - 1], mvr)
        invariant |evaluated| < i ==> evaluated != [] && r == 0
        invariant r == 0 <==> exists j :: 0 <= j < i && RankOf(keys[j], mvr) == 0
        invariant reports == if evaluated != [] && !keys[|evaluated| - 1].Str? then [FieldNotString] else []
      {
        if r != 0 {
          assert |evaluated| == i;
          var x, denied := CalcMvrRankFor(keys[i], mvr);
          r := x;
          evaluated := evaluated + [keys[i]];
          reports := reports + denied;
          assert evaluated == keys[..i + 1];
        }
        i := i + 1;
      }
    }

    // ---- average moves (not gated by the cleaned flag) ----

    /** The gender-restricted average move of every registered field, keyed by the Cleaner's field */
    method CalcAvgMvrMoveBasedOnGender<G, R>(gender: G, avg: (Cleaner, G) -> R) returns (averages: map<FieldValue, R>)
      requires Valid()
      ensures averages.Keys == cleanerDict.entries.Keys
      ensures forall f :: f in averages ==> averages[f] == avg(cleanerDict.entries[f], gender)
    {
      var keys := cleanerDict.keys;
      averages := map[];
      var i := 0;
      while i < |keys|
        invariant 0 <= i <= |keys|
        invariant forall f :: f in averages <==> f in keys[..i]
        invariant forall f :: f in averages ==> f in cleanerDict.entries && averages[f] == avg(cleanerDict.entries[f], gender)
      {
        var cleaner := cleanerDict.entries[keys[i]];
        averages := averages[cleaner.field := avg(cleaner, gender)];
        assert keys[..i + 1] == keys[..i] + [keys[i]];
        i := i + 1;
      }
      assert keys[..i] == keys;
    }

    /** The gender-restricted average move of one field. An unregistered field is reported and then
        registered through getCleanerFor; for an empty value getCleanerFor gives None and the call
        fails (None here). */
    method CalcAvgMvrMoveBasedOnGenderForField<G, R>(gender: G, field: FieldValue, avg: (Cleaner, G) -> R)
      returns (averages: Option<map<FieldValue, R>>, reports: seq<Denial>)
      requires Valid()
      modifies this
      ensures Valid()
      ensures reports == if field in old(cleanerDict.entries) then [] else [InvalidFieldName]
      ensures cleanerDict == Register(old(cleanerDict), field)
      ensures IsEmptyData(field) ==> averages == None
      ensures !IsEmptyData(field) ==> averages == Some(map[field := avg(cleanerDict.entries[field], gender)])
      ensures instIdDict == old(instIdDict) && instDict == old(instDict) && cleanedFlag == old(cleanedFlag)
    {
      reports := if field in cleanerDict.entries then [] else [InvalidFieldName];
      var cleaner := GetCleanerFor(field);
      if cleaner.None? {
        return None, reports;
      }
      averages := Some(map[field := avg(cleaner.value, gender)]);
    }

    /** The average move of every registered field over the percentile range [low, high] */
    method CalcAvgMvrMoveForRange<R>(low: int, high: int, avg: (Cleaner, int, int) -> R)
      returns (averages: map<FieldValue, R>)
      requires Valid()
      ensures averages.Keys == cleanerDict.entries.Keys
      ensures forall f :: f in averages ==> averages[f] == avg(cleanerDict.entries[f], low, high)
    {
      var keys := cleanerDict.keys;
      averages := map[];
      var i := 0;
      while i < |keys|
        invariant 0 <= i <= |keys|
        invariant forall f :: f in averages <==> f in keys[..i]
        invariant forall f :: f in averages ==> f in cleanerDict.entries && averages[f] == avg(cleanerDict.entries[f], low, high)
      {
        var cleaner := cleanerDict.entries[keys[i]];
        averages := averages[cleaner.field := avg(cleaner, low, high)];
        assert keys[..i + 1] == keys[..i] + [keys[i]];
        i := i + 1;
      }
      assert keys[..i] == keys;
    }

    /** The average move of one field over the percentile range [low, high], with the same
        report-then-register behaviour as the gender variant */
    method CalcAvgMvrMoveForRangeForField<R>(low: int, high: int, field: FieldValue, avg: (Cleaner, int, int) -> R)
      returns (averages: Option<map<FieldValue, R>>, reports: seq<Denial>)
      requires Valid()
      modifies this
      ensures Valid()
      ensures reports == if field in old(cleanerDict.entries) then [] else [InvalidFieldName]
      ensures cleanerDict == Register(old(cleanerDict), field)
      ensures IsEmptyData(field) ==> averages == None
      ensures !IsEmptyData(field) ==> averages == Some(map[field := avg(cleanerDict.entries[field], low, high)])
      ensures instIdDict == old(instIdDict) && instDict == old(instDict) && cleanedFlag == old(cleanedFlag)
    {
      reports := if field in cleanerDict.entries then [] else [InvalidFieldName];
      var cleaner := GetCleanerFor(field);
      if cleaner.None? {
        return None, reports;
      }
      averages := Some(map[field := avg(cleaner.value, low, high)]);
    }
  }

  /** The export gate is missing: right after construction, with the data never cleaned, a field
      registered through getCleanerFor is exported all the same */
  method ExportBeforeCleaning() returns (r: int, request: Option<ExportRequest>, reports: seq<Denial>)
    ensures r == 1 && request == Some(ExportRequest(Str("CS"), XLSX)) && reports == [NotCleaned]
  {
    var analyzer := new Analyzer();
    var _ := analyzer.GetCleanerFor(Str("CS"));
    r, request, reports := analyzer.ExportVertexAndEdgeListFor(Str("CS"), XLSX);
  }
}
