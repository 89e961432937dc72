/**
 * Loading the course catalogue: raw spreadsheet rows are de-duplicated on the course
 * name (first row wins), rows with a missing required cell are dropped, and each
 * remaining row gets its search text, name + " " + description + " " + category.
 */
module Catalog {
  import opened Wrappers
  import opened Frames

  /** A spreadsheet row as read; None is an empty (NaN) cell. */
  datatype RawRecord = RawRecord(
    id: string,
    name: Option<string>,
    description: Option<string>,
    category: Option<string>,
    language: Option<string>,
    duration: Option<real>)

  /** A catalogue course: a complete row together with its derived search text. */
  datatype Course = Course(
    id: string,
    name: string,
    description: string,
    category: string,
    language: string,
    duration: real,
    text: string)

  /** The de-duplication key of a row; two empty name cells count as the same key. */
  function RawName(r: RawRecord): Option<string>
  {
    r.name
  }

  /** The key of a loaded course. */
  function CourseName(c: Course): string
  {
    c.name
  }

  /** The row has a value in every required cell: name, description, category, language, duration. */
  predicate Complete(r: RawRecord): (b: bool)
    ensures b <==> r.duration.Some? && None !in [r.name, r.description, r.category, r.language]
  {
    r.name.Some? && r.description.Some? && r.category.Some? && r.language.Some? && r.duration.Some?
  }

  /** The course a complete row becomes. */
  function Derive(r: RawRecord): (c: Course)
    requires Complete(r)
    ensures c.id == r.id && Some(c.name) == r.name && Some(c.description) == r.description
    ensures Some(c.category) == r.category && Some(c.language) == r.language && Some(c.duration) == r.duration
    ensures c.text == r.name.value + " " + r.description.value + " " + r.category.value
  {
    var name := r.name.value;
    var description := r.description.value;
    var category := r.category.value;
    Course(r.id, name, description, category, r.language.value, r.duration.value,
           name + " " + description + " " + category)
  }

  /** Every row of rows, turned into a course, position by position. */
  function DeriveAll(rows: seq<RawRecord>): (cs: seq<Course>)
    requires forall r :: r in rows ==> Complete(r)
    ensures |cs| == |rows|
    ensures forall i :: 0 <= i < |rows| ==> cs[i] == Derive(rows[i])
    decreases |rows|
  {
    if rows == [] then [] else [Derive(rows[0])] + DeriveAll(rows[1..])
  }

  /**
   * load_data: drop later rows repeating a course name, then drop incomplete rows,
   * then derive the search text. The loaded names are distinct, every course is the
   * first row of its name, and its text is the space-joined name, description and category.
   */
  function Load(raw: seq<RawRecord>): (corpus: seq<Course>)
    ensures |corpus| <= |raw|
    ensures DistinctKeys(corpus, CourseName)
    ensures forall c :: c in corpus ==> c.text == c.name + " " + c.description + " " + c.category
    ensures forall c :: c in corpus ==>
              exists i :: 0 <= i < |raw| && IsFirstKey(raw, RawName, i) && Complete(raw[i]) && c == Derive(raw[i])
  {
    var unique := DropDuplicates(raw, RawName);
    var complete := Filter(unique, Complete);
    var corpus := DeriveAll(complete);
    FilterDistinct(unique, Complete, RawName);
    forall c | c in corpus
      ensures exists i :: 0 <= i < |raw| && IsFirstKey(raw, RawName, i) && Complete(raw[i]) && c == Derive(raw[i])
    {
      var k :| 0 <= k < |corpus| && corpus[k] == c;
      DropDuplicatesKeepsFirst(raw, RawName, complete[k]);
    }
    corpus
  }

  /** The rows load_data keeps: those first with their name that are also complete. */
  ghost function LoadMask(raw: seq<RawRecord>): (m: seq<bool>)
    ensures |m| == |raw|
    ensures forall i :: 0 <= i < |raw| ==> (m[i] <==> IsFirstKey(raw, RawName, i) && Complete(raw[i]))
  {
    AndMask(raw, FirstMask(raw, RawName, {}), Complete)
  }

  /**
   * The loaded corpus is exactly the kept rows, in input order, each turned into a course:
   * de-duplication sees incomplete rows too, because it runs before they are dropped.
   */
  lemma LoadIsKeptRows(raw: seq<RawRecord>)
    ensures forall r :: r in Select(raw, LoadMask(raw)) ==> Complete(r)
    ensures Load(raw) == DeriveAll(Select(raw, LoadMask(raw)))
  {
    DropSeenIsSelect(raw, RawName, {});
    FilterOfSelect(raw, FirstMask(raw, RawName, {}), Complete);
    assert AndMask(raw, FirstMask(raw, RawName, {}), Complete) == LoadMask(raw);
  }

  /** The first row of a name is loaded when it is complete. */
  lemma LoadKeepsFirst(raw: seq<RawRecord>, i: int)
    requires 0 <= i < |raw| && IsFirstKey(raw, RawName, i) && Complete(raw[i])
    ensures Derive(raw[i]) in Load(raw)
  {
    var unique := DropDuplicates(raw, RawName);
    var complete := Filter(unique, Complete);
    DropDuplicatesKeepsFirst(raw, RawName, raw[i]);
    var k :| 0 <= k < |complete| && complete[k] == raw[i];
    assert Load(raw)[k] == Derive(raw[i]);
  }

  /** A name is in the corpus exactly when the first row carrying it is complete. */
  lemma LoadedNameIff(raw: seq<RawRecord>, n: string)
    ensures (exists c :: c in Load(raw) && c.name == n) <==>
            (exists i :: 0 <= i < |raw| && IsFirstKey(raw, RawName, i) && raw[i].name == Some(n) && Complete(raw[i]))
  {
    if exists i :: 0 <= i < |raw| && IsFirstKey(raw, RawName, i) && raw[i].name == Some(n) && Complete(raw[i]) {
      var i :| 0 <= i < |raw| && IsFirstKey(raw, RawName, i) && raw[i].name == Some(n) && Complete(raw[i]);
      LoadKeepsFirst(raw, i);
      assert Derive(raw[i]).name == n;
    }
  }

  /**
   * An incomplete first row of a name hides every later complete row of that name:
   * the later row was removed as a duplicate before the first was removed as incomplete.
   */
  lemma IncompleteFirstHidesName(raw: seq<RawRecord>, i: int, j: int)
    requires 0 <= i < j < |raw|
    requires IsFirstKey(raw, RawName, i) && !Complete(raw[i])
    requires raw[j].name == raw[i].name && Complete(raw[j])
    ensures forall c :: c in Load(raw) ==> Some(c.name) != raw[j].name
  {
    forall c | c in Load(raw)
      ensures Some(c.name) != raw[j].name
    {
      var i' :| 0 <= i' < |raw| && IsFirstKey(raw, RawName, i') && Complete(raw[i']) && c == Derive(raw[i']);
      if Some(c.name) == raw[j].name {
        assert false;
      }
    }
  }
}
