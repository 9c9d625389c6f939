/**
  The Active-Record base class: an entity holds the row it was loaded from
  twice, as its live data and as a snapshot to compare against, and the
  static operations of a model class fetch, count, create and delete rows of
  its table through a connection.
 */
module HandyModel {
  import opened Wrappers
  import opened Scalars
  import opened Rows
  import opened Database
  import opened SqlText
  import opened Sql

  /** An entity, or a hydrated instance of a model class. */
  class Entity {
    const kind: ModelKind
    var data: Row
    var originalData: Row

    /** Neither the live data nor the snapshot holds a property name twice, as a PHP object cannot. */
    ghost predicate Valid()
      reads this
    {
      Distinct(data) && Distinct(originalData)
    }

    /** Both the live data and the snapshot start as copies of the loaded row. */
    constructor (kind: ModelKind, row: Row)
      ensures this.kind == kind && data == row && originalData == row
      ensures Distinct(row) ==> Valid()
    {
      this.kind := kind;
      data := row;
      originalData := row;
    }

    /** `get($name)`: the live value of a property, null when there is none. */
    function Get(column: Column): (v: Scalar)
      reads this
      ensures Has(data, column) ==> (column, v) in data
      ensures !Has(data, column) ==> v == Null
    {
      Rows.Get(data, column)
    }

    /** `notEmpty($name)`: the live value passes PHP's `!empty()`. */
    predicate NotEmpty(column: Column): (b: bool)
      reads this
      ensures b ==> Has(data, column)
    {
      !IsEmpty(Get(column))
    }

    /** `set($name, $value)`: assigns one property of the live data; the snapshot is untouched. */
    method Set(column: Column, value: Scalar := Str("")) returns (ok: bool)
      modifies this
      ensures data == SetColumn(old(data), column, value)
      ensures Get(column) == value
      ensures forall c | c != column :: Get(c) == old(Get(c))
      ensures originalData == old(originalData)
      ensures old(Valid()) ==> Valid()
      ensures ok
    {
      data := SetColumn(data, column, value);
      ok := true;
    }

    /** `set($array)`: assigns each entry of the array in its order. */
    method SetMany(values: Row) returns (ok: bool)
      modifies this
      ensures data == SetAll(old(data), values)
      ensures Distinct(values) ==> forall c :: Get(c) == if Has(values, c) then Rows.Get(values, c) else old(Get(c))
      ensures originalData == old(originalData)
      ensures old(Valid()) ==> Valid()
      ensures ok
    {
      for i := 0 to |values|
        invariant data == SetAll(old(data), values[..i])
        invariant originalData == old(originalData)
      {
        assert values[..i + 1][..i] == values[..i];
        data := SetColumn(data, values[i].0, values[i].1);
      }
      assert values[..|values|] == values;
      if Distinct(values) {
        forall c ensures Get(c) == if Has(values, c) then Rows.Get(values, c) else old(Get(c)) {
          SetAllGet(old(data), values, c);
        }
      }
      ok := true;
    }

    /** `setEscaped($name, $value)`: assigns the connection's escaping of the value's string form. */
    method SetEscaped(db: Connection, column: Column, value: Scalar := Str("")) returns (ok: bool)
      modifies this
      ensures data == SetColumn(old(data), column, Str(db.escape(Text(value))))
      ensures Get(column) == Str(db.escape(Text(value)))
      ensures originalData == old(originalData)
      ensures old(Valid()) ==> Valid()
      ensures ok
    {
      data := SetColumn(data, column, Str(db.escape(Text(value))));
      ok := true;
    }

    /** `setEscaped($array)`: assigns each entry's escaped string form in its order. */
    method SetManyEscaped(db: Connection, values: Row) returns (ok: bool)
      modifies this
      ensures data == SetAll(old(data), EscapeValues(values, db.escape))
      ensures Distinct(values) ==>
        forall c :: Get(c) == if Has(values, c) then Str(db.escape(Text(Rows.Get(values, c)))) else old(Get(c))
      ensures originalData == old(originalData)
      ensures old(Valid()) ==> Valid()
      ensures ok
    {
      for i := 0 to |values|
        invariant data == SetAll(old(data), EscapeValues(values[..i], db.escape))
        invariant originalData == old(originalData)
      {
        ghost var next := EscapeValues(values[..i + 1], db.escape);
        assert next[..i] == EscapeValues(values[..i], db.escape);
        data := SetColumn(data, values[i].0, Str(db.escape(Text(values[i].1))));
      }
      assert values[..|values|] == values;
      if Distinct(values) {
        forall c ensures Get(c) == if Has(values, c) then Str(db.escape(Text(Rows.Get(values, c)))) else old(Get(c)) {
          var escaped := EscapeValues(values, db.escape);
          EscapeKeepsNames(values, db.escape);
          SetAllGet(old(data), escaped, c);
          EscapedGet(values, db.escape, c);
        }
      }
      ok := true;
    }

    /**
      `save()`: refused without a table name or an id; nothing to send when
      the diff is empty; otherwise one `UPDATE`, whose outcome is the result.
      The snapshot is not refreshed, so saving again sends the same statement.
      An entity saved as it was loaded sends nothing.
     */
    method Save(db: Connection) returns (ok: bool)
      modifies db
      ensures data == old(data) && originalData == old(originalData)
      ensures Valid() && data == originalData ==>
        db.log == old(db.log) && (ok <==> !IsEmpty(Str(kind.table)) && NotEmpty(kind.uid))
      ensures match PlanSave(kind, data, originalData, db.escape)
        case Refused => !ok && db.log == old(db.log)
        case NothingToSave => ok && db.log == old(db.log)
        case Update(sql) => db.log == old(db.log) + [Query(sql)] && ok == Succeeded(db.answer(old(db.log), Query(sql)))
    {
      if Valid() && data == originalData {
        UnchangedSendsNothing(kind, data, db.escape);
      }
      if IsEmpty(Str(kind.table)) {
        return false;
      }
      if IsEmpty(Rows.Get(data, kind.uid)) {
        return false;
      }
      var diff := DiffAssoc(data, originalData);
      if |diff| > 0 {
        var sql := UpdateStatement(kind, data, originalData, db.escape);
        var a := db.Run(Query(sql));
        ok := Succeeded(a);
      } else {
        ok := true;
      }
    }

    /** `delete()`: refused without a table name; otherwise one `DELETE`, sent even without an id. */
    method Delete(db: Connection) returns (ok: bool)
      modifies db
      ensures data == old(data) && originalData == old(originalData)
      ensures IsEmpty(Str(kind.table)) ==> !ok && db.log == old(db.log)
      ensures !IsEmpty(Str(kind.table)) ==>
        && db.log == old(db.log) + [Query(DeleteSql(kind, data))]
        && ok == Succeeded(db.answer(old(db.log), Query(DeleteSql(kind, data))))
    {
      if IsEmpty(Str(kind.table)) {
        return false;
      }
      var a := db.Run(Query(DeleteSql(kind, data)));
      ok := Succeeded(a);
    }
  }

  /** Apart from floats, a property is not empty exactly when its string form is neither "" nor "0". */
  lemma NotEmptyText(e: Entity, column: Column)
    requires !e.Get(column).Dbl?
    ensures e.NotEmpty(column) <==> Text(e.Get(column)) != "" && Text(e.Get(column)) != "0"
  {
    EmptyMatchesText(e.Get(column));
  }

  /** The escaped array keeps the names, so it has no name twice when the array has none. */
  lemma EscapeKeepsNames(ps: Row, esc: string -> string)
    requires Distinct(ps)
    ensures Distinct(EscapeValues(ps, esc))
  {
  }

  /** Reading a name of the escaped array gives the escaped string form of the original value. */
  lemma {:induction false} EscapedGet(ps: Row, esc: string -> string, c: Column)
    ensures Has(EscapeValues(ps, esc), c) <==> Has(ps, c)
    ensures Has(ps, c) ==> Rows.Get(EscapeValues(ps, esc), c) == Str(esc(Text(Rows.Get(ps, c))))
  {
    var r := EscapeValues(ps, esc);
    IndexOfSameNames(ps, r, c);
  }

  /** The entity holds exactly the row it was made from, as data and as snapshot. */
  ghost predicate Hydrated(e: Entity, kind: ModelKind, row: Row)
    reads e
  {
    e.kind == kind && e.data == row && e.originalData == row
  }

  /** What a lookup by id gives: an entity, `false`, or the exception of a statement that did not prepare. */
  datatype Fetched = Found(entity: Entity) | NotFound | PrepareFailed

  /** `ModelName::lookup($where)`: the first row of the `SELECT`, hydrated, or nothing (false). */
  method Lookup(db: Connection, kind: ModelKind, filter: Option<string>) returns (e: Option<Entity>)
    modifies db
    ensures db.log == old(db.log) + [Query(LookupSql(kind.table, filter))]
    ensures match FirstRow(db.answer(old(db.log), Query(LookupSql(kind.table, filter))))
      case None => e.None?
      case Some(row) => e.Some? && fresh(e.value) && Hydrated(e.value, kind, row)
  {
    var a := db.Run(Query(LookupSql(kind.table, filter)));
    match FirstRow(a)
    case None =>
      e := None;
    case Some(row) =>
      var item := new Entity(kind, row);
      e := Some(item);
  }

  /** `ModelName::lookupRandom($where)`: a lookup filtered by the condition, or by 1=1, ordered by RAND(). */
  method LookupRandom(db: Connection, kind: ModelKind, filter: Option<string>) returns (e: Option<Entity>)
    modifies db
    ensures var sql := SelectAll(kind.table) + " WHERE " + (if Given(filter) then filter.value else "1=1") + " ORDER BY RAND() LIMIT 1";
      && db.log == old(db.log) + [Query(sql)]
      && match FirstRow(db.answer(old(db.log), Query(sql)))
         case None => e.None?
         case Some(row) => e.Some? && fresh(e.value) && Hydrated(e.value, kind, row)
  {
    RandomLookupSql(kind.table, filter);
    e := Lookup(db, kind, Some(RandomFilter(filter)));
  }

  /**
    `ModelName::lookupByID($id)`: a prepared `SELECT` with the id cast to an
    integer; an exception when the statement does not prepare.
   */
  method LookupById(db: Connection, kind: ModelKind, id: Scalar) returns (r: Fetched)
    modifies db
    ensures !db.prepares(LookupByIdSql(kind)) ==> r.PrepareFailed? && db.log == old(db.log)
    ensures db.prepares(LookupByIdSql(kind)) ==>
      && db.log == old(db.log) + [LookupByIdStatement(kind, id)]
      && match FirstRow(db.answer(old(db.log), LookupByIdStatement(kind, id)))
         case None => r.NotFound?
         case Some(row) => r.Found? && fresh(r.entity) && Hydrated(r.entity, kind, row)
  {
    if !db.prepares(LookupByIdSql(kind)) {
      return PrepareFailed;
    }
    var a := db.Run(LookupByIdStatement(kind, id));
    match FirstRow(a)
    case None =>
      r := NotFound;
    case Some(row) =>
      var item := new Entity(kind, row);
      r := Found(item);
  }

  /** `ModelName::deleteByID($id)`: runs its statement (a `SELECT`) and hands back the raw answer. */
  method DeleteById(db: Connection, kind: ModelKind, id: Scalar) returns (a: Answer)
    modifies db
    ensures db.log == old(db.log) + [Query(DeleteByIdSql(kind, id, db.escape))]
    ensures a == db.answer(old(db.log), Query(DeleteByIdSql(kind, id, db.escape)))
  {
    a := db.Run(Query(DeleteByIdSql(kind, id, db.escape)));
  }

  /**
    `ModelName::lookupEach($where)`: every row of the `SELECT`, hydrated, in
    an array keyed by id. The ids come in the order of their first rows; a
    later row with the same id replaces the entity in its place.
   */
  method LookupEach(db: Connection, kind: ModelKind, filter: Option<string>) returns (items: seq<(Scalar, Entity)>)
    modifies db
    ensures db.log == old(db.log) + [Query(LookupEachSql(kind.table, filter))]
    ensures var keyed := KeyById(kind.uid, AllRows(db.answer(old(db.log), Query(LookupEachSql(kind.table, filter)))));
      && |items| == |keyed|
      && forall p | 0 <= p < |items| ::
        items[p].0 == keyed[p].0 && fresh(items[p].1) && Hydrated(items[p].1, kind, keyed[p].1)
  {
    var a := db.Run(Query(LookupEachSql(kind.table, filter)));
    var rows := AllRows(a);
    items := [];
    for i := 0 to |rows|
      invariant db.log == old(db.log) + [Query(LookupEachSql(kind.table, filter))]
      invariant |items| == |KeyById(kind.uid, rows[..i])|
      invariant forall p | 0 <= p < |items| ::
        && items[p].0 == KeyById(kind.uid, rows[..i])[p].0
        && fresh(items[p].1)
        && Hydrated(items[p].1, kind, KeyById(kind.uid, rows[..i])[p].1)
    {
      assert rows[..i + 1][..i] == rows[..i];
      ghost var before := KeyById(kind.uid, rows[..i]);
      var id := Rows.Get(rows[i], kind.uid);
      var item := new Entity(kind, rows[i]);
      PutAligned(items, before, id, item, rows[i]);
      items := Put(items, id, item);
    }
    assert rows[..|rows|] == rows;
  }

  /** `ModelName::count($where)`: the `count` column of the answer, or nothing (false). */
  method Count(db: Connection, kind: ModelKind, filter: Option<string>) returns (r: Option<Scalar>)
    modifies db
    ensures db.log == old(db.log) + [Query(CountSql(kind.table, filter))]
    ensures r == CountResult(db.answer(old(db.log), Query(CountSql(kind.table, filter))))
  {
    var a := db.Run(Query(CountSql(kind.table, filter)));
    r := CountResult(a);
  }

  /**
    `ModelName::create($props)`: prepares and runs the `INSERT` (an exception
    when it does not prepare), then reloads the new row by its generated id.
    A reload that finds nothing, or whose own statement does not prepare,
    makes the result `false`.
   */
  method Create(db: Connection, kind: ModelKind, props: Row) returns (r: Fetched)
    modifies db
    ensures !db.prepares(InsertStatementOf(kind, props).sql) ==> r.PrepareFailed? && db.log == old(db.log)
    ensures db.prepares(InsertStatementOf(kind, props).sql) ==>
      var insert := InsertStatementOf(kind, props);
      var reload := LookupByIdStatement(kind, Int(InsertId(db.answer(old(db.log), insert))));
      if db.prepares(LookupByIdSql(kind)) then
        && db.log == old(db.log) + [insert, reload]
        && match FirstRow(db.answer(old(db.log) + [insert], reload))
           case None => r.NotFound?
           case Some(row) => r.Found? && fresh(r.entity) && Hydrated(r.entity, kind, row)
      else
        db.log == old(db.log) + [insert] && r.NotFound?
  {
    var sql, types, values := InsertStatement(kind, props);
    if !db.prepares(sql) {
      return PrepareFailed;
    }
    var a := db.Run(Prepared(sql, types, values));
    var reloaded := LookupById(db, kind, Int(InsertId(a)));
    r := if reloaded.PrepareFailed? then NotFound else reloaded;
  }

  /**
    Saving twice without touching the entity in between sends the same
    `UPDATE` twice; each result is the server's answer to its own copy.
   */
  method SaveTwice(e: Entity, db: Connection) returns (first: bool, second: bool)
    modifies db
    ensures match PlanSave(e.kind, e.data, e.originalData, db.escape)
      case Refused => !first && !second && db.log == old(db.log)
      case NothingToSave => first && second && db.log == old(db.log)
      case Update(sql) =>
        && db.log == old(db.log) + [Query(sql), Query(sql)]
        && first == Succeeded(db.answer(old(db.log), Query(sql)))
        && second == Succeeded(db.answer(old(db.log) + [Query(sql)], Query(sql)))
  {
    first := e.Save(db);
    second := e.Save(db);
  }
}
