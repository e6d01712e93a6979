/** The file registry of app.py: an ordered table of records, one per stored
    upload or colorized result, persisted as one document that is read whole
    and rewritten whole. */
module Registry {

  /** One registry entry: where the file is, when it was registered (whole
      seconds) and which browser session owns it. */
  datatype Record = Record(path: string, created: int, sessionId: string)

  /** What the persisted registry document holds: nothing yet, text that does
      not parse, or a saved table. */
  datatype Stored = Missing | Unparsable | Saved(files: seq<Record>)

  /** `get_file_db`: the table a load yields. A missing or unparsable document
      reads back as the empty table; a saved one as exactly what was saved. */
  function Load(s: Stored): (files: seq<Record>)
    ensures s.Saved? ==> files == s.files
    ensures !s.Saved? ==> files == []
  {
    match s
    case Saved(f) => f
    case _ => []
  }

  /** The list comprehension `[f for f in files if f not in marked]`: the
      records of `t`, in order, that are not equal to any marked record. A
      record survives exactly when it was in the table and is not marked. */
  function Without(t: seq<Record>, marked: seq<Record>): (r: seq<Record>)
    ensures |r| <= |t|
    ensures forall x :: x in r <==> x in t && x !in marked
  {
    if t == [] then []
    else Without(t[..|t| - 1], marked) + (if t[|t| - 1] in marked then [] else [t[|t| - 1]])
  }

  /** The paths of a list of records. */
  function PathsOf(rs: seq<Record>): set<string> {
    set r | r in rs :: r.path
  }

  lemma PathsOfAppend(rs: seq<Record>, r: Record)
    ensures PathsOf(rs + [r]) == PathsOf(rs) + {r.path}
  {
  }

  /** Removing nothing keeps the whole table. */
  lemma {:induction false} WithoutNothing(t: seq<Record>)
    ensures Without(t, []) == t
  {
    if t != [] {
      WithoutNothing(t[..|t| - 1]);
      assert t == t[..|t| - 1] + [t[|t| - 1]];
    }
  }
}
