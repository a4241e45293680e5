/**
 * Stand-ins for the collaborators the Analyzer orchestrates: table cells and rows,
 * institution identities and records, per-field cleaners and the export formats.
 * Their own logic lives outside the Analyzer; each is modelled here as a value that
 * records the calls the Analyzer makes on it.
 */
module Collaborators {

  datatype Option<+T> = None | Some(value: T)

  /** A cell as it comes out of a table: missing (None or NaN), a string, or any other scalar
      (a number, say), kept by its printed form. */
  datatype FieldValue = Missing | Str(s: string) | NonStr(text: string)

  /** util.isEmptyData: a missing cell or the empty string */
  predicate IsEmptyData(v: FieldValue) {
    v.Missing? || v == Str("")
  }

  /** The identity key of an institution: primary name, alternate name, country */
  type KeyTriple = (string, string, string)

  /** institution.InstInfo: the ID it carries and the key triple it returns from returnKeyTuple() */
  datatype InstInfo = InstInfo(instId: int, keyTuple: KeyTriple)

  /** institution.Institution: built from an InstInfo; records every getField request made on it */
  datatype Institution = Institution(info: InstInfo, fieldRequests: seq<FieldValue>)

  function NewInstitution(info: InstInfo): Institution {
    Institution(info, [])
  }

  /** Institution.getField(field), which registers the field with the institution */
  function GetField(inst: Institution, field: FieldValue): Institution {
    inst.(fieldRequests := inst.fieldRequests + [field])
  }

  /** A table row: the value resolved for its Department column and the remaining cells */
  datatype Row = Row(department: FieldValue, cells: seq<FieldValue>)

  /** cleaner.Cleaner: the field it was created for and the rows handed to its cleanRow, in order */
  datatype Cleaner = Cleaner(field: FieldValue, rows: seq<Row>)

  function NewCleaner(field: FieldValue): Cleaner {
    Cleaner(field, [])
  }

  /** Cleaner.cleanRow(row, rowIterator) */
  function CleanRow(c: Cleaner, row: Row): Cleaner {
    c.(rows := c.rows + [row])
  }

  /** util.FileExt: the formats a table is read from or exported to */
  datatype FileExt = XLSX | CSV
}
