# Analyzer: a verified model of the cleaning-and-analysis orchestrator

The `Analyzer` class of `src/analyzer.py` sits between a directory of raw spreadsheet tables and
the per-field `Cleaner` objects that analyse them. It owns four pieces of mutable state:

- the institution-ID registry `instIdDict`, which maps a key triple (primary name, alternate name,
  country) to an ID; a key seen for the first time gets the registry's size plus one;
- the institution store `instDict`, which maps an ID to its `Institution` record, created on first use;
- the Cleaner registry `__cleanerDict`, which maps a non-empty field value to its `Cleaner`, created on
  first use and iterated in insertion order;
- the cleaned flag `__cleanedFlag`, raised by `cleanData`; it gates the Gini and MVR-rank queries and the
  all-fields export (the per-field export only reports it, see Findings).

The model is a Dafny class `Analyzer.Analyzer` with these four fields and one method per operation.
Each method is proved against specification functions on values:

- `IdRegistry.Allocate` and `IdRegistry.AllocateAll` for ID allocation;
- `Cleaning.Register`, `Cleaning.DispatchRows` and `Cleaning.CleanedRows` for the cleaning pass.

Lemmas about those functions state what the code promises:

- the IDs in use are always exactly `1..n`, so distinct keys have distinct IDs and an ID is never
  handed out twice;
- get-or-create never replaces an entry;
- an empty field value never gets a Cleaner;
- after a pass, the registered fields are the old ones plus the non-empty Department values read;
- each Cleaner receives exactly the rows of its field, in table order.

Files:

- `collaborators.dfy`: the entities the Analyzer orchestrates, as values that record the calls made on
  them: cells (`FieldValue`, with `util.isEmptyData`), `InstInfo`, `Institution`, `Row`, `Cleaner`,
  `FileExt`.
- `ordered_dict.dfy`: a Python dict as the Analyzer relies on it, a map plus the insertion order of its keys.
- `id_registry.dfy`: ID allocation and the dense-ID invariant.
- `cleaning.dfy`: the Cleaner registry's get-or-create rule, row dispatch, and the file-name filter
  of `cleanData` (a `~$` prefix and `os.path.splitext`).
- `analyzer.dfy`: the `Analyzer` class and the query methods.

Inputs that the source reads from the outside world are parameters:

- the directory listing;
- the table each file holds, as a function from file name to rows, each row with its resolved
  Department value;
- the rows of the ID table;
- the Cleaners' own computations (Gini coefficient, MVR rank, average moves), as functions of the Cleaner.

An export is returned as the request it makes of the Cleaner (`ExportRequest`). The refusals the
gated queries, the exports and the per-field average queries log ("Attempt denied", "Invalid Field
Name", "Field name should be a string", "Invalid Field.") are returned as a list of `Denial` values,
in the order the source logs them. The all-fields queries return the refusals of the per-field calls
they make. The warnings of `getExistingInstitution` and `loadInstIdDictFrom` are not returned: their
None and 0 results carry the same information.

## Model

| member | source | states |
|---|---|---|
| OrderedDict.Put | src/analyzer.py:92 | after `d[k] = v` the key k is present and maps to v |
| OrderedDict.PutValid | src/analyzer.py:92 | assignment keeps the dict well formed and changes only key k; an existing key keeps its place in the iteration order and a new key goes last |
| IdRegistry.IdRange | src/analyzer.py:105-106 | helper: the set holds exactly the IDs 1..n, the shape of the registry's ID set |
| IdRegistry.Allocate | src/analyzer.py:102-106 | computes the registry after resolving one key triple: unchanged for a registered key, otherwise the key mapped to the size plus one (also the rule of lines 114-118) |
| IdRegistry.AllocateAll | src/analyzer.py:138-139 | computes the registry after the preload loop has resolved the table's rows in order |
| IdRegistry.NoneRegistered | src/analyzer.py:136-139 | computes the running `returnValue` of the preload loop: true while every row so far was new when its turn came |
| IdRegistry.DenseIsInjective | src/analyzer.py:105-106 | in a registry whose IDs are exactly 1..n, distinct key triples never share an ID |
| IdRegistry.AllocateDense | src/analyzer.py:102-106 | allocating a key keeps the IDs exactly 1..n, and a newly allocated ID was not in use before |
| IdRegistry.AllocateKeys | src/analyzer.py:102-106 | helper: allocation adds exactly the requested key and keeps every existing ID |
| IdRegistry.AllocateAllDense | src/analyzer.py:138-139 | allocating a whole table row by row keeps the IDs exactly 1..n |
| IdRegistry.AllocateAllKeys | src/analyzer.py:138-139 | after a bulk load, the registered keys are the old keys plus the table's keys |
| IdRegistry.AllocateAllKeepsIds | src/analyzer.py:138-139 | a bulk load never changes or drops an ID registered before it |
| IdRegistry.AllFreshStep | src/analyzer.py:136-139 | helper: one more row keeps the table all new exactly when that row was not registered by the rows before it |
| IdRegistry.NoneRegisteredIsAllFresh | src/analyzer.py:136-139 | judging the rows one at a time as the loop does agrees with "the rows are distinct and none was registered before" |
| IdRegistry.AllocatePrefixStep | src/analyzer.py:138-139 | helper, unfolding one pass of the loop: allocating the first i+1 rows is allocating the first i and then row i, and the freshness verdict is extended by row i alone |
| Collaborators.IsEmptyData | src/analyzer.py:87 | `util.isEmptyData`: a missing cell (None or NaN) or the empty string |
| Cleaning.Register | src/analyzer.py:87-95 | computes the registry after `getCleanerFor(v)`: unchanged for an empty value or a registered field, otherwise a new Cleaner for v appended |
| Cleaning.DispatchRow | src/analyzer.py:156-162 | computes the registry after one pass of the row loop: a row with an empty Department value changes nothing, otherwise the row is appended to the (possibly new) Cleaner of its value |
| Cleaning.DispatchRows | src/analyzer.py:154-162 | computes the registry after the row loop over a whole table, row by row in order |
| Cleaning.RegisterWellFormed | src/analyzer.py:87-95 | get-or-create keeps every registered field non-empty and owning its own Cleaner, and never drops or reorders a field |
| Cleaning.DispatchRowWellFormed | src/analyzer.py:156-162 | dispatching one row keeps the registry well formed and keeps the old fields |
| Cleaning.RowsForMembers | src/analyzer.py:154-162 | the rows a field receives are exactly the rows whose Department value is that field |
| Cleaning.RowsForAbsent | src/analyzer.py:154-162 | a field that no row carries receives no row |
| Cleaning.DispatchRowsWellFormed | src/analyzer.py:154-162 | a row loop keeps the registry well formed and the old fields as a prefix of the iteration order |
| Cleaning.DispatchRowsKeys | src/analyzer.py:154-162 | after a row loop, the registered fields are the old fields plus every non-empty Department value of the rows, in both directions |
| Cleaning.DispatchRowsCleaner | src/analyzer.py:154-162 | after a row loop, a field's Cleaner holds the rows it held before, followed by exactly the rows of that field in table order |
| Cleaning.DispatchRowsAppend | src/analyzer.py:176-181 | running the row loop over two tables in turn is running it over their concatenation |
| Cleaning.DispatchPrefixStep | src/analyzer.py:154-162 | helper, unfolding one pass of the loop: the loop over the first i+1 rows is the loop over the first i followed by dispatch of row i |
| Cleaning.Extension | src/analyzer.py:180 | `os.path.splitext(name)[1]` for a bare name: empty, or a suffix of the name that starts with '.'; a dot preceded only by dots starts no extension |
| Cleaning.IsLockFile | src/analyzer.py:177 | `fileName[0:2] == '~$'`: the name is at least two characters long and starts with "~$" |
| Cleaning.IsCleanTarget | src/analyzer.py:177-181 | a directory entry is read exactly when it is not a lock file and its extension is ".xlsx" |
| Cleaning.CleanedRows | src/analyzer.py:176-181 | computes the rows the pass hands to the row loop: the tables of the cleaning targets, file by file in listing order |
| Cleaning.LastDot | src/analyzer.py:180 | the result is the index of the last '.' in the name, or -1 when the name has none |
| Cleaning.ExtensionIsXlsx | src/analyzer.py:180 | `os.path.splitext(name)[1] == '.xlsx'` exactly when the name ends in ".xlsx" after at least one character other than a dot |
| Cleaning.CleanedRowsMembers | src/analyzer.py:176-181 | a row is handed to the row loop exactly when it comes from a listed file that is not a `~$` lock file and has extension `.xlsx` |
| Analyzer.StringFieldExports | src/analyzer.py:210-213 | computes the exports the all-fields loop requests: one per string-valued field, in iteration order |
| Analyzer.Analyzer.RankOf | src/analyzer.py:249-264 | what `calcMVRRAnkFor` returns for a registered field once the data are cleaned, as the fold at line 278 uses it: the Cleaner's rank for a string field, 0 for any other |
| Analyzer.StringFieldExportsMembers | src/analyzer.py:210-213 | an export is requested exactly for the registered fields that are strings, in the requested format |
| Analyzer.Analyzer.constructor | src/analyzer.py:26-32 | a new Analyzer has empty registries and store and a lowered flag, satisfying the invariant |
| Analyzer.Analyzer.GetInstitution | src/analyzer.py:48-56 | the ID ends up in the store; an existing record keeps its identity and only gets the field request appended; a new record is built from the given info; nothing else changes |
| Analyzer.Analyzer.GetExistingInstitution | src/analyzer.py:59-65 | None exactly when the ID is not in the store, otherwise the stored record, whose ID is the one asked for; nothing changes |
| Analyzer.Analyzer.GetCleanerFor | src/analyzer.py:85-95 | an empty value gives None and no change; a registered field gives its Cleaner and no change; otherwise exactly one new Cleaner for that field is added at the end of the iteration order |
| Analyzer.Analyzer.GetInstIdFor | src/analyzer.py:98-109 | a registered key gives its ID and no change; a new key gets the size plus one, an ID not in use before, and the registry grows by exactly that entry; the IDs stay exactly 1..n |
| Analyzer.Analyzer.GetInstIdForInit | src/analyzer.py:112-120 | 0 and no change for a registered key, otherwise 1 and the key is allocated; the IDs stay exactly 1..n |
| Analyzer.Analyzer.LoadInstIdDictFrom | src/analyzer.py:128-143 | 0 and no change for an empty table; otherwise every row is allocated, and the result is 1 exactly when the rows are distinct and none was registered before; the rows allocated before a duplicate stay allocated and old IDs are kept |
| Analyzer.Analyzer.CleanDataForFile | src/analyzer.py:146-164 | the registry becomes the row loop over the table; the registered fields become the old ones plus the table's non-empty Department values; the flag is untouched |
| Analyzer.Analyzer.CleanData | src/analyzer.py:167-185 | the registry becomes the row loop over the rows of the listed `.xlsx` files that are not lock files, in listing order; the fields are the old ones plus their non-empty Department values; the flag is raised |
| Analyzer.Analyzer.ExportVertexAndEdgeListFor | src/analyzer.py:188-199 | as written: 1 and an export exactly when the field is registered, whatever the flag; the refusal for unclean data is only reported |
| Analyzer.Analyzer.ExportVertexAndEdgeListForGated | src/analyzer.py:188-199 | as intended: 1 and an export exactly when the data are cleaned and the field is registered; unclean data are refused before the field is looked up |
| Analyzer.ExportBeforeCleaning | src/analyzer.py:188-199 | on a fresh Analyzer with one registered field and the data never cleaned, the as-written export gives 1 and issues the export |
| Analyzer.Analyzer.ExportVertexAndEdgeListForAll | src/analyzer.py:202-216 | 0, no export and the unclean refusal while unclean; otherwise 1, no refusal, and one export per string-valued field in iteration order, and exactly those |
| Analyzer.Analyzer.CalcGiniCoeffFor | src/analyzer.py:219-229 | 0 with the unclean refusal while unclean, 0 with the invalid-field refusal for an unregistered field, otherwise the field's Cleaner's coefficient |
| Analyzer.Analyzer.CalcGiniCoeffForAll | src/analyzer.py:232-246 | an empty map and the unclean refusal while unclean; otherwise no refusal, and the keys are exactly the registered fields, each mapped to its Cleaner's coefficient |
| Analyzer.Analyzer.CalcMvrRankFor | src/analyzer.py:249-264 | the string check comes first, then the flag, then registration, each failure giving 0 and that one refusal; otherwise the field's Cleaner's rank |
| Analyzer.Analyzer.CalcMvrRankForAll | src/analyzer.py:267-282 | 0 and the unclean refusal while unclean; otherwise the fields are ranked in iteration order until the first 0, none after it; the result is the last rank computed (1 if none), and it is 0 exactly when some field has rank 0; the only refusal is "not a string", for the last field ranked when it is not a string |
| Analyzer.Analyzer.CalcAvgMvrMoveBasedOnGender | src/analyzer.py:285-292 | ungated; the keys are exactly the registered fields, each mapped to its Cleaner's average for the gender |
| Analyzer.Analyzer.CalcAvgMvrMoveBasedOnGenderForField | src/analyzer.py:295-304 | an unregistered field is reported and then registered through getCleanerFor; an empty value fails (None); otherwise a one-entry map for the field |
| Analyzer.Analyzer.CalcAvgMvrMoveForRange | src/analyzer.py:307-314 | ungated; the keys are exactly the registered fields, each mapped to its Cleaner's average over the range |
| Analyzer.Analyzer.CalcAvgMvrMoveForRangeForField | src/analyzer.py:317-326 | as for the gender variant, with the range average |

## Left out

- Cleaner, Institution and InstInfo internals (`cleanRow`, `calcGiniCoeff`, `calcMVRRank`,
  `calcAvgMVRMove*`, `exportVertexAndEdgeListAs`, `getField`, `returnKeyTuple`) are outside this
  model: `cleaner.py` and `institution.py` are not part of it. A Cleaner is the field plus the rows
  it has received, an Institution is its info plus the field requests made on it, and the computed
  results are uninterpreted function parameters.
- Cleaners and Institutions are values, not shared objects. The aliasing of the object returned
  by `getCleanerFor` or `getInstitution` with the one kept in the dict is not modelled. In the model
  the updated value is written back.
- The Gini coefficient and the average moves are floating point in the source. The model takes
  them as opaque `real`s or as a type parameter.
- `util.readFileFor`, the fuzzy column match `rowIterator.findFirstIndex('Department', 'APPROX')`,
  and the `rowIterator` argument passed to `cleanRow` are not modelled. A table is given as its rows,
  each with its resolved Department value.
- `os.path.isdir`, `os.listdir` and `os.path.join` are not modelled. The listing of `../dataset/dirty`
  is an input, which assumes the directory exists. When it does not, the source logs and then
  `os.listdir` raises FileNotFoundError, so the pass stops and the flag is never raised; that
  exception is not modelled. The file name filter works on bare names.
- Pandas cells: NaN and None are both `Missing`. Any other non-string scalar is kept by its printed
  form (`NonStr`). Python's dict takes 1, 1.0 and True as one key, but `NonStr("1")` and
  `NonStr("1.0")` are two different Cleaner keys in the model.
- `KeyTriple` is three strings, so an ID-table row whose first three cells hold NaN or a number
  (line 139) cannot be represented.
- Analyzer.Analyzer.CalcAvgMvrMoveBasedOnGenderForField: for an empty field value the source calls
  `calcAvgMVRMoveBasedOnGender` on the None that `getCleanerFor` returns, which raises
  AttributeError (line 302); the model renders that exception as a `None` result, with the report
  logged before it.
- Analyzer.Analyzer.CalcAvgMvrMoveForRangeForField: the same AttributeError at line 324 is
  rendered as a `None` result.
- The all-fields queries `calcGiniCoeffForAll`, `calcAvgMVRMoveBasedOnGender` and
  `calcAvgMVRMoveForRange` return a `map`, so the key order of the source's result dicts (the
  iteration order of `__cleanerDict`, lines 242-243, 289-290, 311-312) is not kept. Nothing in the
  Analyzer reads that order.
- Printing (`printAllInstitutions`, `printInstIdDict`), `error.LOGGER` messages beyond the refusal
  kinds, the `error.callStackRoutine` decorator and the `__main__` guard are diagnostics only.
- `getInstDict` (it returns the store itself) and the private one-line helpers (`__raiseCleanedFlag`,
  `__ifCleanedFlagNotRaised`, `__queryInstDictById`, `__queryCleanerDict`) are inlined as field reads
  and writes.
- Analyzer.Analyzer.CleanDataForFile: does not promise that the ID registry and the institution
  store are unchanged. In the source, `cleanRow` calls back into `getInstIdFor` and `getInstitution`,
  and those callbacks are not modelled.
- Analyzer.Analyzer.CleanData: for the same reason, does not promise that the ID registry and the
  institution store are unchanged.
- Python's `type(x) == str` is the `Str` constructor test. Truthiness in `returnValue and x` is
  `x != 0` on ranks, which are taken to be integers.

## Findings

| source | as written | input that shows it | evidently intended | confidence | as-written member | corrected member |
|---|---|---|---|---|---|---|
| src/analyzer.py:190-191 | when the cleaned flag is not raised, `exportVertexAndEdgeListFor` logs "Attempt denied" but does not return, so the export goes ahead | a fresh Analyzer, `getCleanerFor("CS")`, then `exportVertexAndEdgeListFor("CS", XLSX)` before `cleanData`: the result is 1 and the export is issued | refuse with 0 and no export while the data are not cleaned, as `exportVertexAndEdgeListForAll` does at lines 204-206 | not executed | Analyzer.ExportBeforeCleaning | Analyzer.Analyzer.ExportVertexAndEdgeListForGated |
