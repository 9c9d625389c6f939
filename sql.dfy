/**
  The statements a model builds, as text, and what the rows that come back
  turn into. Everything here is pure; the methods UpdateStatement and
  InsertStatement are the string-building loops of `save()` and `create()`,
  proved against the reference definitions UpdateSql and InsertSql.
 */
module Sql {
  import opened Wrappers
  import opened Scalars
  import opened Rows
  import opened Database
  import opened SqlText

  /** What a concrete model class declares: its `TABLE_NAME` and its `$uidName`. */
  datatype ModelKind = ModelKind(table: string, uid: Column)

  /** The unique-id column of a model class that does not choose its own. */
  const DefaultUid: Column := "id"

  // ---------------------------------------------------------------------------
  // save()
  // ---------------------------------------------------------------------------

  /**
    `array_diff_assoc($data, $originalData)`: the entries of d that o does
    not hold under the same name with the same value. The id entry is not
    exempt.
   */
  function DiffAssoc(d: Row, o: Row): Row
    decreases |d|
  {
    if d == [] then []
    else
      var e := d[|d| - 1];
      DiffAssoc(d[..|d| - 1], o) + (if Has(o, e.0) && Get(o, e.0) == e.1 then [] else [e])
  }

  /** The test of the save loop for one entry: not the id, and not equal to the snapshot's value (null when absent). */
  predicate Changes(uid: Column, o: Row, e: (Column, Scalar)) {
    e.0 != uid && e.1 != Get(o, e.0)
  }

  /** The entries of d that the save loop writes, in d's order. */
  function Changed(uid: Column, d: Row, o: Row): Row
    decreases |d|
  {
    if d == [] then []
    else
      var e := d[|d| - 1];
      Changed(uid, d[..|d| - 1], o) + (if Changes(uid, o, e) then [e] else [])
  }

  /** One item of the `SET` list: the back-quoted column, then the escaped value in single quotes. */
  function Assignment(e: (Column, Scalar), esc: string -> string): string {
    Backticked(e.0) + "='" + esc(Text(e.1)) + "'"
  }

  function Assignments(ch: Row, esc: string -> string): seq<string> {
    seq(|ch|, i requires 0 <= i < |ch| => Assignment(ch[i], esc))
  }

  /** The end of the `UPDATE`: the id column pinned to the id's current value, one row. */
  function WhereId(uid: Column, d: Row): string {
    " WHERE " + Backticked(uid) + "='" + Text(Get(d, uid)) + "' LIMIT 1"
  }

  /**
    The `UPDATE` that `save()` sends: the changed non-id columns as a
    comma-separated `SET` list, then the id condition.
   */
  function UpdateSql(kind: ModelKind, d: Row, o: Row, esc: string -> string): string {
    "UPDATE " + Backticked(kind.table) + " SET"
      + SpacedList(Assignments(Changed(kind.uid, d, o), esc))
      + WhereId(kind.uid, d)
  }

  /** What `save()` does with an entity whose live data is d and whose snapshot is o. */
  datatype SavePlan =
    | Refused           // returns false, sends nothing
    | NothingToSave     // returns true, sends nothing
    | Update(sql: string)

  function PlanSave(kind: ModelKind, d: Row, o: Row, esc: string -> string): SavePlan {
    if IsEmpty(Str(kind.table)) || IsEmpty(Get(d, kind.uid)) then Refused
    else if |DiffAssoc(d, o)| == 0 then NothingToSave
    else Update(UpdateSql(kind, d, o, esc))
  }

  /** The loop of `save()` that builds the `UPDATE`, then the trim and the id condition. */
  method UpdateStatement(kind: ModelKind, d: Row, o: Row, esc: string -> string) returns (sql: string)
    ensures sql == UpdateSql(kind, d, o, esc)
  {
    var lead := "UPDATE " + Backticked(kind.table) + " SET";
    sql := lead + " ";
    ghost var items: seq<string> := [];
    for i := 0 to |d|
      invariant items == Assignments(Changed(kind.uid, d[..i], o), esc)
      invariant sql == lead + " " + Terminated(items, ", ")
    {
      UpdateLoopStep(kind.uid, d, o, i, esc);
      if d[i].0 != kind.uid && d[i].1 != Get(o, d[i].0) {
        var a := Assignment(d[i], esc);
        TerminatedStep(items, a, ", ");
        AppendAssoc(lead + " ", Terminated(items, ", "), a + ", ");
        sql := sql + (a + ", ");
        items := items + [a];
      }
    }
    assert d[..|d|] == d;
    UpdateTrimmed(kind, d, o, esc);
    sql := RTrim(sql, TrimChars);
    sql := sql + WhereId(kind.uid, d);
  }

  /** Trimming the built list leaves the `SET` clause of UpdateSql. */
  lemma UpdateTrimmed(kind: ModelKind, d: Row, o: Row, esc: string -> string)
    ensures var lead := "UPDATE " + Backticked(kind.table) + " SET";
      RTrim(lead + " " + Terminated(Assignments(Changed(kind.uid, d, o), esc), ", "), TrimChars) + WhereId(kind.uid, d)
      == UpdateSql(kind, d, o, esc)
  {
    var lead := "UPDATE " + Backticked(kind.table) + " SET";
    var items := Assignments(Changed(kind.uid, d, o), esc);
    forall i | 0 <= i < |items| ensures EndsOutside(items[i], TrimChars) {
      var a := items[i];
      assert a[|a| - 1] == '\'';
    }
    assert EndsOutside(lead, TrimChars) by {
      assert lead[|lead| - 1] == 'T';
    }
    TrimmedList(lead, items);
  }

  lemma UpdateLoopStep(uid: Column, d: Row, o: Row, i: int, esc: string -> string)
    requires 0 <= i < |d|
    ensures Assignments(Changed(uid, d[..i + 1], o), esc)
         == Assignments(Changed(uid, d[..i], o), esc) + (if Changes(uid, o, d[i]) then [Assignment(d[i], esc)] else [])
  {
    ChangedStep(uid, d, o, i);
    AssignmentsStep(Changed(uid, d[..i], o), d[i], esc);
  }

  lemma ChangedStep(uid: Column, d: Row, o: Row, i: int)
    requires 0 <= i < |d|
    ensures Changed(uid, d[..i + 1], o) == Changed(uid, d[..i], o) + (if Changes(uid, o, d[i]) then [d[i]] else [])
  {
    assert d[..i + 1][..i] == d[..i];
  }

  lemma AssignmentsStep(ch: Row, e: (Column, Scalar), esc: string -> string)
    ensures Assignments(ch + [e], esc) == Assignments(ch, esc) + [Assignment(e, esc)]
  {
  }

  /** An entry goes into the `SET` list exactly when it is in d, is not the id and differs from the snapshot. */
  lemma {:induction false} ChangedMember(uid: Column, d: Row, o: Row, e: (Column, Scalar))
    ensures e in Changed(uid, d, o) <==> e in d && Changes(uid, o, e)
    decreases |d|
  {
    if d != [] {
      var init := d[..|d| - 1];
      ChangedMember(uid, init, o, e);
      assert d == init + [d[|d| - 1]];
    }
  }

  /** The `SET` list keeps d's order. */
  lemma {:induction false} ChangedInOrder(uid: Column, d: Row, o: Row)
    ensures Subsequence(Changed(uid, d, o), d)
    decreases |d|
  {
    if d != [] {
      var init := d[..|d| - 1];
      ChangedInOrder(uid, init, o);
      var ch := Changed(uid, d, o);
      if Changes(uid, o, d[|d| - 1]) {
        assert ch == Changed(uid, init, o) + [d[|d| - 1]];
        assert ch[..|ch| - 1] == Changed(uid, init, o);
        assert ch[|ch| - 1] == d[|d| - 1];
      } else {
        assert ch == Changed(uid, init, o);
        assert ch == [] || Subsequence(ch, d[..|d| - 1]);
      }
    }
  }

  /** An entry is in the diff exactly when it is in d and the snapshot does not hold it. */
  lemma {:induction false} DiffMember(d: Row, o: Row, e: (Column, Scalar))
    ensures e in DiffAssoc(d, o) <==> e in d && !(Has(o, e.0) && Get(o, e.0) == e.1)
    decreases |d|
  {
    if d != [] {
      var init := d[..|d| - 1];
      DiffMember(init, o, e);
      assert d == init + [d[|d| - 1]];
    }
  }

  /**
    The two tests of `save()` disagree in two ways only: the diff also holds
    a changed id, and a new property whose value is null.
   */
  lemma DiffVersusChanged(uid: Column, d: Row, o: Row, e: (Column, Scalar))
    ensures e in Changed(uid, d, o) ==> e in DiffAssoc(d, o)
    ensures e in DiffAssoc(d, o) && e !in Changed(uid, d, o) ==> e.0 == uid || (!Has(o, e.0) && e.1 == Null)
  {
    ChangedMember(uid, d, o, e);
    DiffMember(d, o, e);
  }

  lemma {:induction false} ChangedConcat(uid: Column, a: Row, b: Row, o: Row)
    ensures Changed(uid, a + b, o) == Changed(uid, a, o) + Changed(uid, b, o)
    decreases |b|
  {
    if b == [] {
      assert a + b == a;
    } else {
      var init := b[..|b| - 1];
      assert (a + b)[..|a + b| - 1] == a + init;
      ChangedConcat(uid, a, init, o);
    }
  }

  /** Entries that all read the same in the snapshot change nothing. */
  lemma NoneChanged(uid: Column, d: Row, o: Row)
    requires forall j | 0 <= j < |d| :: Get(o, d[j].0) == d[j].1
    ensures Changed(uid, d, o) == []
  {
    var ch := Changed(uid, d, o);
    if ch != [] {
      ChangedMember(uid, d, o, ch[0]);
    }
  }

  /** Entries that the snapshot holds as they are give no diff. */
  lemma NoDiff(d: Row, o: Row)
    requires forall j | 0 <= j < |d| :: Has(o, d[j].0) && Get(o, d[j].0) == d[j].1
    ensures DiffAssoc(d, o) == []
  {
    var diff := DiffAssoc(d, o);
    if diff != [] {
      DiffMember(d, o, diff[0]);
    }
  }

  /** After one assignment to a freshly loaded row, the `SET` list is that one column if its value changed, and empty otherwise. */
  lemma ChangedAfterSet(uid: Column, o: Row, c: Column, v: Scalar)
    requires Distinct(o)
    ensures Changed(uid, SetColumn(o, c, v), o) == if Changes(uid, o, (c, v)) then [(c, v)] else []
  {
    ChangedOne(uid, o, (c, v));
    if Has(o, c) {
      ChangedReplace(uid, o, IndexOf(o, c), (c, v));
    } else {
      ChangedAppend(uid, o, (c, v));
    }
  }

  /** Replacing one entry of the loaded row changes that entry at most. */
  lemma ChangedReplace(uid: Column, o: Row, k: int, e: (Column, Scalar))
    requires Distinct(o) && 0 <= k < |o|
    ensures Changed(uid, o[k := e], o) == Changed(uid, [e], o)
  {
    var left, right := o[0..k], o[k + 1..|o|];
    assert o[k := e] == left + [e] + right;
    LoadedUnchanged(uid, o, 0, k);
    LoadedUnchanged(uid, o, k + 1, |o|);
    ChangedConcat(uid, left + [e], right, o);
    ChangedConcat(uid, left, [e], o);
  }

  /** Appending one entry to the loaded row changes that entry at most. */
  lemma ChangedAppend(uid: Column, o: Row, e: (Column, Scalar))
    requires Distinct(o)
    ensures Changed(uid, o + [e], o) == Changed(uid, [e], o)
  {
    LoadedUnchanged(uid, o, 0, |o|);
    assert o[0..|o|] == o;
    ChangedConcat(uid, o, [e], o);
  }

  lemma ChangedOne(uid: Column, o: Row, e: (Column, Scalar))
    ensures Changed(uid, [e], o) == if Changes(uid, o, e) then [e] else []
  {
    assert [e][..0] == [];
  }

  /** A stretch of the loaded row itself changes nothing. */
  lemma LoadedUnchanged(uid: Column, o: Row, lo: int, hi: int)
    requires Distinct(o) && 0 <= lo <= hi <= |o|
    ensures Changed(uid, o[lo..hi], o) == []
  {
    var s := o[lo..hi];
    forall j | 0 <= j < |s| ensures Get(o, s[j].0) == s[j].1 {
      GetAt(o, lo + j);
    }
    NoneChanged(uid, s, o);
  }

  /** An entity saved as it was loaded sends nothing. */
  lemma UnchangedSendsNothing(kind: ModelKind, r: Row, esc: string -> string)
    requires Distinct(r)
    ensures PlanSave(kind, r, r, esc)
      == if IsEmpty(Str(kind.table)) || IsEmpty(Get(r, kind.uid)) then Refused else NothingToSave
  {
    forall j | 0 <= j < |r| ensures Has(r, r[j].0) && Get(r, r[j].0) == r[j].1 {
      GetAt(r, j);
    }
    NoDiff(r, r);
  }

  /**
    Changing one non-id column of a loaded entity and saving sends an
    `UPDATE` of that column alone, pinned to the unchanged id.
   */
  lemma SingleChangeUpdate(kind: ModelKind, o: Row, c: Column, v: Scalar, esc: string -> string)
    requires Distinct(o)
    requires !IsEmpty(Str(kind.table)) && !IsEmpty(Get(o, kind.uid))
    requires c != kind.uid && v != Get(o, c)
    ensures PlanSave(kind, SetColumn(o, c, v), o, esc)
         == Update("UPDATE " + Backticked(kind.table) + " SET " + Assignment((c, v), esc) + WhereId(kind.uid, o))
  {
    var d := SetColumn(o, c, v);
    assert Changed(kind.uid, d, o) == [(c, v)] by {
      ChangedAfterSet(kind.uid, o, c, v);
    }
    assert |DiffAssoc(d, o)| > 0 by {
      DiffMember(d, o, (c, v));
    }
    assert WhereId(kind.uid, d) == WhereId(kind.uid, o) by {
      assert Get(d, kind.uid) == Get(o, kind.uid);
    }
    UpdateOfOne(kind, d, o, (c, v), esc);
  }

  /** An `UPDATE` with a single changed entry. */
  lemma UpdateOfOne(kind: ModelKind, d: Row, o: Row, e: (Column, Scalar), esc: string -> string)
    requires Changed(kind.uid, d, o) == [e]
    ensures UpdateSql(kind, d, o, esc)
         == "UPDATE " + Backticked(kind.table) + " SET " + Assignment(e, esc) + WhereId(kind.uid, d)
  {
    var a := Assignment(e, esc);
    assert Assignments([e], esc) == [a];
    var p := "UPDATE " + Backticked(kind.table);
    AppendAssoc(p + " SET", " ", a);
    AppendAssoc(p, " SET", " ");
    assert " SET" + " " == " SET ";
  }

  /**
    Changing only the id and saving still sends an `UPDATE`, with an empty
    `SET` list, pinned to the new id.
   */
  lemma OnlyIdChangedUpdate(kind: ModelKind, o: Row, id: Scalar, esc: string -> string)
    requires Distinct(o)
    requires !IsEmpty(Str(kind.table)) && !IsEmpty(id) && id != Get(o, kind.uid)
    ensures PlanSave(kind, SetColumn(o, kind.uid, id), o, esc)
         == Update("UPDATE " + Backticked(kind.table) + " SET" + WhereId(kind.uid, SetColumn(o, kind.uid, id)))
    ensures WhereId(kind.uid, SetColumn(o, kind.uid, id))
         == " WHERE " + Backticked(kind.uid) + "='" + Text(id) + "' LIMIT 1"
  {
    var d := SetColumn(o, kind.uid, id);
    assert Changed(kind.uid, d, o) == [] by {
      ChangedAfterSet(kind.uid, o, kind.uid, id);
    }
    assert |DiffAssoc(d, o)| > 0 by {
      DiffMember(d, o, (kind.uid, id));
    }
    assert Get(d, kind.uid) == id;
    UpdateOfNone(kind, d, o, esc);
  }

  /** An `UPDATE` with no changed entry: `SET` is followed directly by the id condition. */
  lemma UpdateOfNone(kind: ModelKind, d: Row, o: Row, esc: string -> string)
    requires Changed(kind.uid, d, o) == []
    ensures UpdateSql(kind, d, o, esc) == "UPDATE " + Backticked(kind.table) + " SET" + WhereId(kind.uid, d)
  {
    assert Assignments([], esc) == [];
    assert SpacedList([]) == "";
    var p := "UPDATE " + Backticked(kind.table) + " SET";
    assert p + "" == p;
  }

  // ---------------------------------------------------------------------------
  // delete(), the lookups, count() and deleteByID()
  // ---------------------------------------------------------------------------

  /** The `DELETE` that `delete()` sends (note the spaces around `=`, unlike save's). */
  function DeleteSql(kind: ModelKind, d: Row): string {
    "DELETE FROM " + Backticked(kind.table) + " WHERE " + Backticked(kind.uid)
      + " = '" + Text(Get(d, kind.uid)) + "' LIMIT 1"
  }

  /** Where `save()` refuses an entity without an id, `delete()` still sends its statement, with an empty id. */
  lemma DeleteWithoutId(kind: ModelKind, d: Row, o: Row, esc: string -> string)
    requires !Has(d, kind.uid)
    ensures PlanSave(kind, d, o, esc) == Refused
    ensures DeleteSql(kind, d) == "DELETE FROM " + Backticked(kind.table) + " WHERE " + Backticked(kind.uid) + " = '' LIMIT 1"
  {
  }

  /** `if ($whereQuery)`: a filter counts unless it is absent, "" or "0". */
  predicate Given(filter: Option<string>) {
    filter.Some? && filter.value != "" && filter.value != "0"
  }

  function SelectAll(table: string): string {
    "SELECT * FROM " + Backticked(table)
  }

  /** The `SELECT` of `lookup()`. */
  function LookupSql(table: string, filter: Option<string>): string {
    if Given(filter) then SelectAll(table) + " WHERE " + filter.value + " LIMIT 1"
    else SelectAll(table) + " LIMIT 1"
  }

  /** The filter `lookupRandom()` hands to `lookup()`. */
  function RandomFilter(filter: Option<string>): string {
    (if Given(filter) then filter.value else "1=1") + " ORDER BY RAND()"
  }

  /** `lookupRandom()` always filters, by the caller's condition or by one that holds of every row. */
  lemma RandomLookupSql(table: string, filter: Option<string>)
    ensures LookupSql(table, Some(RandomFilter(filter)))
         == SelectAll(table) + " WHERE " + (if Given(filter) then filter.value else "1=1") + " ORDER BY RAND() LIMIT 1"
  {
    var w := RandomFilter(filter);
    assert |w| >= 16;
  }

  /** `strtoupper(substr($w, 0, 8)) == 'ORDER BY'`. */
  predicate IsOrderBy(w: string) {
    Upper(Prefix(w, 8)) == "ORDER BY"
  }

  /** The prefix test looks at the first eight characters only, whatever their case. */
  lemma OrderByTest(w: string)
    ensures IsOrderBy(w) <==> |w| >= 8 && forall i | 0 <= i < 8 :: UpperChar(w[i]) == "ORDER BY"[i]
  {
    if |w| >= 8 && forall i | 0 <= i < 8 :: UpperChar(w[i]) == "ORDER BY"[i] {
      assert Upper(Prefix(w, 8)) == "ORDER BY";
    }
    if IsOrderBy(w) {
      assert |Upper(Prefix(w, 8))| == 8;
    }
  }

  /** The `SELECT` of `lookupEach()`. */
  function LookupEachSql(table: string, filter: Option<string>): string {
    SelectAll(table)
      + if !Given(filter) then ""
        else if IsOrderBy(filter.value) then " " + filter.value
        else " WHERE " + filter.value
  }

  /**
    `lookupEach()` adds nothing without a filter, appends an `ORDER BY`
    filter as it is, and puts `WHERE` before any other filter.
   */
  lemma LookupEachClause(table: string, filter: Option<string>)
    ensures !Given(filter) ==> LookupEachSql(table, filter) == SelectAll(table)
    ensures Given(filter) ==>
      (LookupEachSql(table, filter) == SelectAll(table) + " WHERE " + filter.value <==> !IsOrderBy(filter.value))
    ensures Given(filter) && IsOrderBy(filter.value) ==>
      LookupEachSql(table, filter) == SelectAll(table) + " " + filter.value
  {
  }

  /** The `SELECT` of `count()`. */
  function CountSql(table: string, filter: Option<string>): string {
    "SELECT COUNT(*) as `count` FROM " + Backticked(table)
      + if Given(filter) then " WHERE " + filter.value else ""
  }

  /** What `count()` returns: the `count` column of the first row, or nothing (false). */
  function CountResult(a: Answer): (r: Option<Scalar>)
    ensures r.Some? ==> r.value != Null && FirstRow(a).Some? && ("count", r.value) in FirstRow(a).value
    ensures r.None? ==> FirstRow(a).None? || Get(FirstRow(a).value, "count") == Null
  {
    match FirstRow(a)
    case None => None
    case Some(row) =>
      var c := Get(row, "count");
      if c == Null then None else Some(c)
  }

  /** The prepared `SELECT` of `lookupByID()`: the id is never part of the text. */
  function LookupByIdSql(kind: ModelKind): string {
    SelectAll(kind.table) + " WHERE " + Backticked(kind.uid) + " = ? LIMIT 1"
  }

  /** `lookupByID($id)`: the id cast to an integer and bound as a string parameter. */
  function LookupByIdStatement(kind: ModelKind, id: Scalar): Statement {
    Prepared(LookupByIdSql(kind), "s", [Int(ToInt(id))])
  }

  /** The statement `deleteByID()` sends: the escaped id cast to an integer, in a `SELECT`. */
  function DeleteByIdSql(kind: ModelKind, id: Scalar, esc: string -> string): string {
    SelectAll(kind.table) + IdCondition(kind.uid, IntToText(ToInt(Str(esc(Text(id))))))
  }

  function IdCondition(uid: Column, idText: string): string {
    " WHERE " + Backticked(uid) + "='" + idText + "' LIMIT 1"
  }

  /** A plain decimal numeral, possibly negative: nothing an SQL string could be broken out of with. */
  predicate IsNumeral(n: string) {
    n != [] && forall k | 0 <= k < |n| :: IsDigit(n[k]) || (k == 0 && n[k] == '-')
  }

  /**
    `deleteByID()` selects and never deletes: its text starts with
    `SELECT * FROM` and the table, and whatever the id, what
    stands between the quotes is a plain decimal numeral that reads back as
    the cast id.
   */
  lemma DeleteByIdSelects(kind: ModelKind, id: Scalar, esc: string -> string)
    ensures "SELECT * FROM `" <= DeleteByIdSql(kind, id, esc)
    ensures exists n: string | IsNumeral(n) ::
      && LeadingInt(n) == ToInt(Str(esc(Text(id))))
      && DeleteByIdSql(kind, id, esc) == SelectAll(kind.table) + IdCondition(kind.uid, n)
  {
    var i := ToInt(Str(esc(Text(id))));
    var n := IntToText(i);
    IntTextRoundTrip(i);
    assert IsNumeral(n);
    var s := DeleteByIdSql(kind, id, esc);
    var sel := SelectAll(kind.table);
    assert s == sel + IdCondition(kind.uid, n);
  }

  // ---------------------------------------------------------------------------
  // lookupEach(): rows keyed by id
  // ---------------------------------------------------------------------------

  /**
    `$itemsToReturn[$item->$uidName] = ...` over the rows in order: an
    ordered array of (id, row), a later row with a known id overwriting the
    earlier one in its place.
   */
  function KeyById(uid: Column, rows: seq<Row>): (m: seq<(Scalar, Row)>)
    ensures Distinct(m)
    decreases |rows|
  {
    if rows == [] then []
    else
      var last := rows[|rows| - 1];
      var m' := KeyById(uid, rows[..|rows| - 1]);
      PutDistinct(m', Get(last, uid), last);
      Put(m', Get(last, uid), last)
  }

  /** The position of the first row with id k, or -1 when there is none. */
  function FirstWithId(uid: Column, rows: seq<Row>, k: Scalar): (f: int)
    ensures -1 <= f < |rows|
    ensures 0 <= f ==> Get(rows[f], uid) == k && forall j | 0 <= j < f :: Get(rows[j], uid) != k
    ensures f < 0 ==> forall j | 0 <= j < |rows| :: Get(rows[j], uid) != k
    decreases |rows|
  {
    if rows == [] then -1
    else
      var f := FirstWithId(uid, rows[..|rows| - 1], k);
      if 0 <= f then f
      else if Get(rows[|rows| - 1], uid) == k then |rows| - 1
      else -1
  }

  /** The keys are exactly the ids of the rows; no rows give no keys. */
  lemma {:induction false} KeyByIdKeys(uid: Column, rows: seq<Row>, k: Scalar)
    ensures 0 <= IndexOf(KeyById(uid, rows), k) <==> exists j | 0 <= j < |rows| :: Get(rows[j], uid) == k
    ensures rows == [] ==> KeyById(uid, rows) == []
    decreases |rows|
  {
    if rows != [] {
      var init, last := rows[..|rows| - 1], rows[|rows| - 1];
      KeyByIdKeys(uid, init, k);
      PutIndexOf(KeyById(uid, init), Get(last, uid), last, k);
      if exists j | 0 <= j < |rows| :: Get(rows[j], uid) == k {
        var j :| 0 <= j < |rows| && Get(rows[j], uid) == k;
        if j < |init| {
          assert Get(init[j], uid) == k;
        }
      }
      if exists j | 0 <= j < |init| :: Get(init[j], uid) == k {
        var j :| 0 <= j < |init| && Get(init[j], uid) == k;
        assert Get(rows[j], uid) == k;
      }
    }
  }

  /** Each key holds the last row with that id: a later row overwrites an earlier one. */
  lemma {:induction false} KeyByIdLastWins(uid: Column, rows: seq<Row>, k: Scalar)
    requires 0 <= IndexOf(KeyById(uid, rows), k)
    ensures exists j | 0 <= j < |rows| ::
      && Get(rows[j], uid) == k
      && KeyById(uid, rows)[IndexOf(KeyById(uid, rows), k)].1 == rows[j]
      && forall j' | j < j' < |rows| :: Get(rows[j'], uid) != k
    decreases |rows|
  {
    var n := |rows|;
    var init, last := rows[..n - 1], rows[n - 1];
    var m' := KeyById(uid, init);
    if Get(last, uid) == k {
      PutSelf(m', k, last);
    } else {
      assert 0 <= IndexOf(m', k) by {
        PutIndexOf(m', Get(last, uid), last, k);
      }
      PutOther(m', Get(last, uid), last, k);
      KeyByIdLastWins(uid, init, k);
      var j :| 0 <= j < |init| && Get(init[j], uid) == k && m'[IndexOf(m', k)].1 == init[j]
        && forall j' | j < j' < |init| :: Get(init[j'], uid) != k;
      LaterRows(uid, rows, init, j, k);
    }
  }

  lemma LaterRows(uid: Column, rows: seq<Row>, init: seq<Row>, j: int, k: Scalar)
    requires 0 <= j < |rows| && init == rows[..|rows| - 1]
    requires forall j' | j < j' < |init| :: Get(init[j'], uid) != k
    requires Get(rows[|rows| - 1], uid) != k
    ensures forall j' | j < j' < |rows| :: Get(rows[j'], uid) != k
  {
    forall j' | j < j' < |rows| ensures Get(rows[j'], uid) != k {
      if j' < |init| {
        assert rows[j'] == init[j'];
      }
    }
  }

  /**
    The keys come in the order of their first rows: an id keeps the place
    its first row gave it, however often later rows overwrite its entry.
   */
  lemma {:induction false} KeyByIdOrder(uid: Column, rows: seq<Row>)
    ensures var m := KeyById(uid, rows);
      && (forall p | 0 <= p < |m| :: 0 <= FirstWithId(uid, rows, m[p].0))
      && (forall p, q | 0 <= p < q < |m| :: FirstWithId(uid, rows, m[p].0) < FirstWithId(uid, rows, m[q].0))
    decreases |rows|
  {
    if rows != [] {
      var init, last := rows[..|rows| - 1], rows[|rows| - 1];
      var key := Get(last, uid);
      var m', m := KeyById(uid, init), KeyById(uid, rows);
      KeyByIdOrder(uid, init);
      assert var mm := KeyById(uid, init); forall p | 0 <= p < |mm| :: 0 <= FirstWithId(uid, init, mm[p].0);
      PutKeys(m', key, last);
      if IndexOf(m', key) < 0 {
        KeyByIdKeys(uid, init, key);
        assert FirstWithId(uid, rows, key) == |init|;
      }
      KeyByIdOrderStep(uid, rows, init, m', m, key);
    }
  }

  /** The step of `KeyByIdOrder`: one more row keeps the old keys' first rows and puts a new key last. */
  lemma KeyByIdOrderStep(uid: Column, rows: seq<Row>, init: seq<Row>, m': seq<(Scalar, Row)>, m: seq<(Scalar, Row)>, key: Scalar)
    requires rows != [] && init == rows[..|rows| - 1]
    requires |m'| <= |m| <= |m'| + 1
    requires |m| == |m'| + 1 ==> m[|m'|].0 == key && FirstWithId(uid, rows, key) == |init|
    requires forall p | 0 <= p < |m'| :: m[p].0 == m'[p].0
    requires forall p | 0 <= p < |m'| :: 0 <= FirstWithId(uid, init, m'[p].0)
    requires forall p, q | 0 <= p < q < |m'| :: FirstWithId(uid, init, m'[p].0) < FirstWithId(uid, init, m'[q].0)
    ensures forall p | 0 <= p < |m| :: 0 <= FirstWithId(uid, rows, m[p].0)
    ensures forall p, q | 0 <= p < q < |m| :: FirstWithId(uid, rows, m[p].0) < FirstWithId(uid, rows, m[q].0)
  {
    forall p | 0 <= p < |m|
      ensures 0 <= FirstWithId(uid, rows, m[p].0)
      ensures p < |m'| ==> FirstWithId(uid, rows, m[p].0) == FirstWithId(uid, init, m'[p].0) < |init|
    {
      if p < |m'| {
        FirstWithIdKept(uid, rows, init, m'[p].0);
      } else {
        assert p == |m'| && m[p].0 == key;
      }
    }
    forall p, q | 0 <= p < q < |m|
      ensures FirstWithId(uid, rows, m[p].0) < FirstWithId(uid, rows, m[q].0)
    {
      if q < |m'| {
        assert FirstWithId(uid, init, m'[p].0) < FirstWithId(uid, init, m'[q].0);
      } else {
        assert q == |m'| && m[q].0 == key;
      }
    }
  }

  /** A row appended after the first row with an id leaves that first row in place. */
  lemma FirstWithIdKept(uid: Column, rows: seq<Row>, init: seq<Row>, k: Scalar)
    requires rows != [] && init == rows[..|rows| - 1] && 0 <= FirstWithId(uid, init, k)
    ensures FirstWithId(uid, rows, k) == FirstWithId(uid, init, k)
  {
  }

  // ---------------------------------------------------------------------------
  // create() and getBindType()
  // ---------------------------------------------------------------------------

  /** A value `getBindType()` gives a type letter to. */
  predicate Typed(v: Scalar) {
    v.Int? || v.Dbl? || v.Str?
  }

  /**
    `getBindType($value)` as written: 'i', then 'd', then 'b' for a string
    form longer than 255 bytes, then 's'; a null or a boolean passes no test and the
    function returns nothing, which `.=` appends as "".
   */
  function BindTypeAsWritten(v: Scalar): string {
    if v.Int? then "i"
    else if v.Dbl? then "d"
    else if ByteLength(Text(v)) > 255 then "b"
    else if v.Str? then "s"
    else ""
  }

  /**
    What each letter of `getBindType()` means: integers get 'i' and floats
    'd' whatever their length; a string gets 'b' when its UTF-8 encoding
    is longer than 255 bytes and 's' otherwise; a null or a boolean gets nothing.
   */
  lemma BindTypeChecksInOrder(v: Scalar)
    ensures BindTypeAsWritten(v) == "i" <==> v.Int?
    ensures BindTypeAsWritten(v) == "d" <==> v.Dbl?
    ensures BindTypeAsWritten(v) == "b" <==> v.Str? && ByteLength(v.s) > 255
    ensures BindTypeAsWritten(v) == "s" <==> v.Str? && ByteLength(v.s) <= 255
    ensures BindTypeAsWritten(v) == "" <==> v.Bool? || v.Null?
  {
  }

  /**
    The type letter a bound value gets: the same checks in the same order,
    with 's' for the values `getBindType()` leaves untyped.
   */
  function BindLetter(v: Scalar): (t: char)
    ensures t in "idbs"
    ensures Typed(v) ==> BindTypeAsWritten(v) == [t]
    ensures !Typed(v) ==> BindTypeAsWritten(v) == "" && t == 's'
  {
    if v.Int? then 'i'
    else if v.Dbl? then 'd'
    else if ByteLength(Text(v)) > 255 then 'b'
    else 's'
  }

  /**
    The 255 is a count of bytes: a string of 128 two-byte characters is
    bound as a blob, while 255 ASCII characters are still a plain string.
   */
  lemma BindLetterCountsBytes()
    ensures BindLetter(Str(seq(128, _ => '\U{00E9}'))) == 'b'
    ensures BindLetter(Str(seq(255, _ => 'x'))) == 's'
  {
    TwoByteLength(seq(128, _ => '\U{00E9}'));
    AsciiByteLength(seq(255, _ => 'x'));
  }

  /** The properties `create()` inserts: all but the id, in their order. */
  function InsertColumns(uid: Column, props: Row): Row
    decreases |props|
  {
    if props == [] then []
    else
      var e := props[|props| - 1];
      InsertColumns(uid, props[..|props| - 1]) + (if e.0 != uid then [e] else [])
  }

  lemma {:induction false} InsertColumnMember(uid: Column, props: Row, e: (Column, Scalar))
    ensures e in InsertColumns(uid, props) <==> e in props && e.0 != uid
    decreases |props|
  {
    if props != [] {
      var init := props[..|props| - 1];
      InsertColumnMember(uid, init, e);
      assert props == init + [props[|props| - 1]];
    }
  }

  lemma {:induction false} InsertColumnsInOrder(uid: Column, props: Row)
    ensures Subsequence(InsertColumns(uid, props), props)
    decreases |props|
  {
    if props != [] {
      var init := props[..|props| - 1];
      InsertColumnsInOrder(uid, init);
      var cols := InsertColumns(uid, props);
      if props[|props| - 1].0 != uid {
        assert cols == InsertColumns(uid, init) + [props[|props| - 1]];
        assert cols[..|cols| - 1] == InsertColumns(uid, init);
        assert cols[|cols| - 1] == props[|props| - 1];
      } else {
        assert cols == InsertColumns(uid, init);
        assert cols == [] || Subsequence(cols, props[..|props| - 1]);
      }
    }
  }

  function Placeholder(c: Column): string {
    Backticked(c) + "= ?"
  }

  function Placeholders(cols: Row): seq<string> {
    seq(|cols|, i requires 0 <= i < |cols| => Placeholder(cols[i].0))
  }

  /** The `INSERT` that `create()` prepares: one ``col`= ?` per inserted column. */
  function InsertSql(table: string, cols: Row): string {
    "INSERT INTO " + Backticked(table) + " SET" + SpacedList(Placeholders(cols))
  }

  /** One type letter per bound value. */
  function InsertTypes(values: seq<Scalar>): string {
    seq(|values|, i requires 0 <= i < |values| => BindLetter(values[i]))
  }

  /** The type string as `create()` builds it with `getBindType()` as written. */
  function InsertTypesAsWritten(values: seq<Scalar>): string
    decreases |values|
  {
    if values == [] then ""
    else InsertTypesAsWritten(values[..|values| - 1]) + BindTypeAsWritten(values[|values| - 1])
  }

  /**
    The type string as written has one letter per value exactly when every
    value is an integer, a float or a string, and then it is the corrected one.
   */
  lemma TypesAsWrittenAligned(values: seq<Scalar>)
    ensures |InsertTypesAsWritten(values)| <= |values|
    ensures |InsertTypesAsWritten(values)| == |values| <==> forall i | 0 <= i < |values| :: Typed(values[i])
    ensures (forall i | 0 <= i < |values| :: Typed(values[i])) ==> InsertTypesAsWritten(values) == InsertTypes(values)
  {
    TypesAsWrittenLength(values);
    if forall i | 0 <= i < |values| :: Typed(values[i]) {
      TypesAsWrittenMatch(values);
    }
  }

  lemma {:induction false} TypesAsWrittenLength(values: seq<Scalar>)
    ensures |InsertTypesAsWritten(values)| <= |values|
    ensures |InsertTypesAsWritten(values)| == |values| <==> forall i | 0 <= i < |values| :: Typed(values[i])
    decreases |values|
  {
    if values != [] {
      var init, last := values[..|values| - 1], values[|values| - 1];
      TypesAsWrittenLength(init);
      assert |BindTypeAsWritten(last)| == if Typed(last) then 1 else 0;
      assert (forall i | 0 <= i < |values| :: Typed(values[i]))
         <==> (forall i | 0 <= i < |init| :: Typed(init[i])) && Typed(last) by {
        assert forall i | 0 <= i < |init| :: init[i] == values[i];
      }
    }
  }

  lemma {:induction false} TypesAsWrittenMatch(values: seq<Scalar>)
    requires forall i | 0 <= i < |values| :: Typed(values[i])
    ensures InsertTypesAsWritten(values) == InsertTypes(values)
    decreases |values|
  {
    if values != [] {
      var init, last := values[..|values| - 1], values[|values| - 1];
      assert forall i | 0 <= i < |init| :: init[i] == values[i];
      TypesAsWrittenMatch(init);
      assert BindTypeAsWritten(last) == [BindLetter(last)];
      assert InsertTypes(values) == InsertTypes(init) + [BindLetter(last)];
    }
  }

  /** A null property gives `create()` a value to bind and no type letter for it. */
  lemma NullPropertyMisaligned()
    ensures var values := Values(InsertColumns(DefaultUid, [("name", Null)]));
      |values| == 1 && InsertTypesAsWritten(values) == ""
  {
    var props: Row := [("name", Null)];
    assert props[..0] == [];
    assert InsertColumns(DefaultUid, props) == props;
    assert [Null][..0] == [];
  }

  /** The prepared statement of `create()`. */
  function InsertStatementOf(kind: ModelKind, props: Row): Statement {
    var cols := InsertColumns(kind.uid, props);
    Prepared(InsertSql(kind.table, cols), InsertTypes(Values(cols)), Values(cols))
  }

  /** The loop of `create()` that builds the `INSERT`, its type string and its values. */
  method InsertStatement(kind: ModelKind, props: Row) returns (sql: string, types: string, values: seq<Scalar>)
    ensures sql == InsertSql(kind.table, InsertColumns(kind.uid, props))
    ensures values == Values(InsertColumns(kind.uid, props))
    ensures |types| == |values| && forall i | 0 <= i < |values| :: types[i] == BindLetter(values[i])
    ensures Prepared(sql, types, values) == InsertStatementOf(kind, props)
  {
    var lead := "INSERT INTO " + Backticked(kind.table) + " SET";
    sql := lead + " ";
    types, values := "", [];
    ghost var items: seq<string> := [];
    for i := 0 to |props|
      invariant items == Placeholders(InsertColumns(kind.uid, props[..i]))
      invariant sql == lead + " " + Terminated(items, ", ")
      invariant values == Values(InsertColumns(kind.uid, props[..i]))
      invariant types == InsertTypes(values)
    {
      InsertStep(kind.uid, props, i);
      if props[i].0 != kind.uid {
        var p := Placeholder(props[i].0);
        TerminatedStep(items, p, ", ");
        AppendAssoc(lead + " ", Terminated(items, ", "), p + ", ");
        sql := sql + (p + ", ");
        items := items + [p];
        types := types + [BindLetter(props[i].1)];
        values := values + [props[i].1];
      }
    }
    assert props[..|props|] == props;
    InsertTrimmed(kind, InsertColumns(kind.uid, props));
    sql := RTrim(sql, TrimChars);
  }

  /** Trimming the built list leaves InsertSql. */
  lemma InsertTrimmed(kind: ModelKind, cols: Row)
    ensures var lead := "INSERT INTO " + Backticked(kind.table) + " SET";
      RTrim(lead + " " + Terminated(Placeholders(cols), ", "), TrimChars) == InsertSql(kind.table, cols)
  {
    var lead := "INSERT INTO " + Backticked(kind.table) + " SET";
    var items := Placeholders(cols);
    forall i | 0 <= i < |items| ensures EndsOutside(items[i], TrimChars) {
      var a := items[i];
      assert a[|a| - 1] == '?';
    }
    assert EndsOutside(lead, TrimChars) by {
      assert lead[|lead| - 1] == 'T';
    }
    TrimmedList(lead, items);
  }

  lemma InsertStep(uid: Column, props: Row, i: int)
    requires 0 <= i < |props|
    ensures var before, after := InsertColumns(uid, props[..i]), InsertColumns(uid, props[..i + 1]);
      && after == before + (if props[i].0 != uid then [props[i]] else [])
      && Placeholders(after) == Placeholders(before) + (if props[i].0 != uid then [Placeholder(props[i].0)] else [])
      && Values(after) == Values(before) + (if props[i].0 != uid then [props[i].1] else [])
      && InsertTypes(Values(after))
         == InsertTypes(Values(before)) + (if props[i].0 != uid then [BindLetter(props[i].1)] else [])
  {
    assert props[..i + 1][..i] == props[..i];
  }

  /** `create()` of a name and an age: the id is left out, the order and the types follow the values. */
  lemma CreateExample()
    ensures InsertStatementOf(ModelKind("users", DefaultUid), [("id", Int(7)), ("name", Str("Alice")), ("age", Int(30))])
         == Prepared("INSERT INTO `users` SET `name`= ?, `age`= ?", "si", [Str("Alice"), Int(30)])
  {
    var props: Row := [("id", Int(7)), ("name", Str("Alice")), ("age", Int(30))];
    var cols: Row := [("name", Str("Alice")), ("age", Int(30))];
    ExampleColumns(props, cols);
    ExampleSql(cols);
    assert Values(cols) == [Str("Alice"), Int(30)];
    assert InsertTypes([Str("Alice"), Int(30)]) == "si";
  }

  lemma ExampleSql(cols: Row)
    requires cols == [("name", Str("Alice")), ("age", Int(30))]
    ensures InsertSql("users", cols) == "INSERT INTO `users` SET `name`= ?, `age`= ?"
  {
    ExamplePlaceholders(cols);
    JoinTwo("`name`= ?", "`age`= ?", ", ");
  }

  lemma ExamplePlaceholders(cols: Row)
    requires cols == [("name", Str("Alice")), ("age", Int(30))]
    ensures Placeholders(cols) == ["`name`= ?", "`age`= ?"]
  {
    var ph := Placeholders(cols);
    assert |ph| == 2 && ph[0] == Placeholder("name") && ph[1] == Placeholder("age");
    assert Placeholder("name") == "`name`= ?";
    assert Placeholder("age") == "`age`= ?";
  }

  lemma ExampleColumns(props: Row, cols: Row)
    requires props == [("id", Int(7)), ("name", Str("Alice")), ("age", Int(30))]
    requires cols == [("name", Str("Alice")), ("age", Int(30))]
    ensures InsertColumns(DefaultUid, props) == cols
  {
    assert props[..1][..0] == [];
    assert InsertColumns(DefaultUid, props[..1]) == [];
    assert props[..2][..1] == props[..1];
    assert InsertColumns(DefaultUid, props[..2]) == cols[..1];
    assert props[..2] == props[..|props| - 1];
  }

  /** `setEscaped()` of an array: each value replaced by its escaped string form. */
  function EscapeValues(ps: Row, esc: string -> string): (r: Row)
    ensures |r| == |ps|
    ensures forall i | 0 <= i < |ps| :: r[i] == (ps[i].0, Str(esc(Text(ps[i].1))))
  {
    seq(|ps|, i requires 0 <= i < |ps| => (ps[i].0, Str(esc(Text(ps[i].1)))))
  }
}
