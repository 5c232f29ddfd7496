/**
 * Column-type checks: validation of the column types an aggregator or
 * transformer declares (`ValidateColumnInputTypes`), of the column names a
 * configuration passes to them (`ValidateColumnInputValues`), of the column
 * kinds inferred at run time (`ValidateColumnRuntimeTypes`), and the match of
 * the runtime kinds against the declared types (`CheckColumnRuntimeTypesMatch`).
 */
module ColumnTypes {
  import opened Wrappers
  import opened Values
  import opened Unions
  import opened Kinds
  import opened ConfigErrors

  /**
   * What a runtime column map holds under a name: one ColumnType, a slice of
   * them, or (against the map's documented contents) anything else.
   */
  datatype ColumnRuntime =
    | Column(kind: ColumnKind)
    | ColumnList(kinds: seq<ColumnKind>)
    | NotAColumnType

  /** The index of the first kind that `accepts` rejects, if any. */
  function FirstRejected(kinds: seq<ColumnKind>, accepts: ColumnKind -> bool): (r: Option<nat>)
    ensures r.None? <==> forall i :: 0 <= i < |kinds| ==> accepts(kinds[i])
    ensures r.Some? ==>
      r.value < |kinds| && !accepts(kinds[r.value]) && forall j :: 0 <= j < r.value ==> accepts(kinds[j])
  {
    if kinds == [] then None
    else if !accepts(kinds[0]) then Some(0)
    else
      match FirstRejected(kinds[1..], accepts)
      case None => None
      case Some(i) => Some(i + 1)
  }

  /** The slice loops of validators.go:99-103 and 151-155: stop at the first rejected kind. */
  method FindRejected(kinds: seq<ColumnKind>, accepts: ColumnKind -> bool) returns (r: Option<nat>)
    ensures r == FirstRejected(kinds, accepts)
  {
    for i := 0 to |kinds|
      invariant forall j :: 0 <= j < i ==> accepts(kinds[j])
    {
      if !accepts(kinds[i]) {
        return Some(i);
      }
    }
    return None;
  }

  function IsResolved(k: ColumnKind): bool
  {
    k != UnknownColumn
  }

  /**
   * The check ValidateColumnInputTypes applies to one declared column type
   * (validators.go:50-67), before the column name is added to the error path.
   */
  function CheckColumnInputType(t: Value): (r: Outcome)
    // a column type is a union of column kinds, or a list of exactly one such union
    ensures r.Pass? <==>
      || (t.Str? && ValidColumnUnion(t.s))
      || (t.List? && |t.items| == 1 && t.items[0].Str? && ValidColumnUnion(t.items[0].s))
    ensures r.Fail? ==>
      r.error == Raise(if AsStrSlice(t).Some? && |AsStrSlice(t).value| != 1 then TypeListLength else InvalidColumnInputType)
  {
    if t.Str? then
      if ValidColumnUnion(t.s) then Pass else Fail(Raise(InvalidColumnInputType))
    else if AsStrSlice(t).Some? then
      var parts := AsStrSlice(t).value;
      if |parts| != 1 then Fail(Raise(TypeListLength))
      else if !ValidColumnUnion(parts[0]) then Fail(Raise(InvalidColumnInputType))
      else Pass
    else
      Fail(Raise(InvalidColumnInputType))
  }

  predicate ValidColumnType(t: Value)
  {
    CheckColumnInputType(t).Pass?
  }

  /** ValidateColumnInputTypes (validators.go:48-71): a column type error is reported under its column name. */
  ghost function ValidateColumnInputTypes(columnTypes: map<string, Value>): (r: Outcome)
    ensures r.Pass? <==> forall name :: name in columnTypes ==> ValidColumnType(columnTypes[name])
    ensures r.Fail? ==>
      exists name :: name in columnTypes && CheckColumnInputType(columnTypes[name]).Fail? &&
        r.error == CheckColumnInputType(columnTypes[name]).error.Wrap(Name(name))
  {
    if exists name :: name in columnTypes && CheckColumnInputType(columnTypes[name]).Fail? then
      var name :| name in columnTypes && CheckColumnInputType(columnTypes[name]).Fail?;
      Fail(CheckColumnInputType(columnTypes[name]).error.Wrap(Name(name)))
    else
      Pass
  }

  /**
   * The check ValidateColumnInputValues applies to one column input
   * (validators.go:75-84): a column name, or a list of column names that is not nil.
   */
  function CheckColumnInputValue(v: Value): (r: Outcome)
    ensures r.Pass? <==> v.Str? || (v.List? && forall i :: 0 <= i < |v.items| ==> v.items[i].Str?)
    ensures v.Null? ==> r == Fail(Raise(CannotBeNull))
    ensures !v.Null? && r.Fail? ==> r.error == Raise(InvalidPrimitiveType([PrimString, PrimStringList]))
  {
    if v.Str? then Pass
    else if AsStrSlice(v).Some? then
      if v.Null? then Fail(Raise(CannotBeNull)) else Pass
    else
      Fail(Raise(InvalidPrimitiveType([PrimString, PrimStringList])))
  }

  /** ValidateColumnInputValues (validators.go:73-88). */
  ghost function ValidateColumnInputValues(columnInputValues: map<string, Value>): (r: Outcome)
    ensures r.Pass? <==> forall name :: name in columnInputValues ==> CheckColumnInputValue(columnInputValues[name]).Pass?
    ensures r.Fail? ==>
      exists name :: name in columnInputValues && CheckColumnInputValue(columnInputValues[name]).Fail? &&
        r.error == CheckColumnInputValue(columnInputValues[name]).error.Wrap(Name(name))
  {
    if exists name :: name in columnInputValues && CheckColumnInputValue(columnInputValues[name]).Fail? then
      var name :| name in columnInputValues && CheckColumnInputValue(columnInputValues[name]).Fail?;
      Fail(CheckColumnInputValue(columnInputValues[name]).error.Wrap(Name(name)))
    else
      Pass
  }

  /**
   * The check ValidateColumnRuntimeTypes applies to one runtime column
   * (validators.go:92-106): no Unknown kind, alone or at some index of a list.
   */
  function CheckColumnRuntimeType(rt: ColumnRuntime): (r: Outcome)
    ensures r.Pass? <==>
      || (rt.Column? && rt.kind != UnknownColumn)
      || (rt.ColumnList? && forall i :: 0 <= i < |rt.kinds| ==> rt.kinds[i] != UnknownColumn)
    ensures r.Fail? && rt.ColumnList? ==>
      exists i :: 0 <= i < |rt.kinds| && rt.kinds[i] == UnknownColumn &&
        (forall j :: 0 <= j < i ==> rt.kinds[j] != UnknownColumn) &&
        r.error == Raise(InvalidColumnRuntimeType).Wrap(Index(i))
    ensures r.Fail? && !rt.ColumnList? ==> r.error == Raise(InvalidColumnRuntimeType)
  {
    match rt
    case Column(kind) =>
      if kind == UnknownColumn then Fail(Raise(InvalidColumnRuntimeType)) else Pass
    case ColumnList(kinds) =>
      (match FirstRejected(kinds, IsResolved)
       case Some(i) => Fail(Raise(InvalidColumnRuntimeType).Wrap(Index(i)))
       case None => Pass)
    case NotAColumnType =>
      Fail(Raise(InvalidColumnRuntimeType))
  }

  /** ValidateColumnRuntimeTypes (validators.go:90-110). */
  ghost function ValidateColumnRuntimeTypes(columnRuntimeTypes: map<string, ColumnRuntime>): (r: Outcome)
    ensures r.Pass? <==> forall name :: name in columnRuntimeTypes ==> CheckColumnRuntimeType(columnRuntimeTypes[name]).Pass?
    ensures r.Fail? ==>
      exists name :: name in columnRuntimeTypes && CheckColumnRuntimeType(columnRuntimeTypes[name]).Fail? &&
        r.error == CheckColumnRuntimeType(columnRuntimeTypes[name]).error.Wrap(Name(name))
  {
    if exists name :: name in columnRuntimeTypes && CheckColumnRuntimeType(columnRuntimeTypes[name]).Fail? then
      var name :| name in columnRuntimeTypes && CheckColumnRuntimeType(columnRuntimeTypes[name]).Fail?;
      Fail(CheckColumnRuntimeType(columnRuntimeTypes[name]).error.Wrap(Name(name)))
    else
      Pass
  }

  /**
   * The match of one runtime column against its declared type
   * (validators.go:133-157): a union needs a single kind it lists, a list type
   * needs a list of kinds it lists, and the first unlisted element is reported
   * under its index.
   */
  function MatchColumn(rt: ColumnRuntime, t: Value): (r: Outcome)
    requires ValidColumnType(t)
    ensures t.Str? ==> (r.Pass? <==> rt.Column? && ColumnKindName(rt.kind) in Split(t.s))
    ensures t.List? ==>
      (r.Pass? <==> rt.ColumnList? && forall i :: 0 <= i < |rt.kinds| ==> ColumnKindName(rt.kinds[i]) in Split(t.items[0].s))
    ensures r.Fail? && t.List? && rt.ColumnList? ==>
      exists i :: 0 <= i < |rt.kinds| && ColumnKindName(rt.kinds[i]) !in Split(t.items[0].s) &&
        (forall j :: 0 <= j < i ==> ColumnKindName(rt.kinds[j]) in Split(t.items[0].s)) &&
        r.error == Raise(UnsupportedColumnType).Wrap(Index(i))
    ensures r.Fail? && !(t.List? && rt.ColumnList?) ==> r.error == Raise(UnsupportedColumnType)
  {
    if t.Str? then
      var validTypes := Split(t.s);
      if !rt.Column? then Fail(Raise(UnsupportedColumnType))
      else if ColumnKindName(rt.kind) !in validTypes then Fail(Raise(UnsupportedColumnType))
      else Pass
    else
      // a valid column type that is not a string is a list of one union
      var validTypes := Split(AsStrSlice(t).value[0]);
      if !rt.ColumnList? then Fail(Raise(UnsupportedColumnType))
      else
        match FirstRejected(rt.kinds, k => ColumnKindName(k) in validTypes)
        case Some(i) => Fail(Raise(UnsupportedColumnType).Wrap(Index(i)))
        case None => Pass
  }

  /**
   * CheckColumnRuntimeTypesMatch (validators.go:113-169): both maps are
   * validated, then every declared column must be supplied with a matching
   * runtime kind, and no undeclared column may be supplied.
   */
  ghost function CheckColumnRuntimeTypesMatch(
    columnRuntimeTypes: map<string, ColumnRuntime>, columnSchemaTypes: map<string, Value>): (r: Outcome)
    ensures r.Pass? <==>
      && ValidateColumnInputTypes(columnSchemaTypes).Pass?
      && ValidateColumnRuntimeTypes(columnRuntimeTypes).Pass?
      && (forall name :: name in columnSchemaTypes ==>
            name in columnRuntimeTypes && MatchColumn(columnRuntimeTypes[name], columnSchemaTypes[name]).Pass?)
      && (forall name :: name in columnRuntimeTypes ==> name in columnSchemaTypes)
    // the declared side is validated first, then the runtime side
    ensures ValidateColumnInputTypes(columnSchemaTypes).Fail? ==> r == ValidateColumnInputTypes(columnSchemaTypes)
    ensures ValidateColumnInputTypes(columnSchemaTypes).Pass? && ValidateColumnRuntimeTypes(columnRuntimeTypes).Fail? ==>
      r == ValidateColumnRuntimeTypes(columnRuntimeTypes)
  {
    match ValidateColumnInputTypes(columnSchemaTypes)
    case Fail(e) => Fail(e)
    case Pass =>
      match ValidateColumnRuntimeTypes(columnRuntimeTypes)
      case Fail(e) => Fail(e)
      case Pass =>
        if exists name :: name in columnSchemaTypes &&
            (name !in columnRuntimeTypes || MatchColumn(columnRuntimeTypes[name], columnSchemaTypes[name]).Fail?)
        then
          var name :| name in columnSchemaTypes &&
            (name !in columnRuntimeTypes || MatchColumn(columnRuntimeTypes[name], columnSchemaTypes[name]).Fail?);
          if |columnRuntimeTypes| == 0 then Fail(Raise(MapMustBeDefined(columnSchemaTypes.Keys)))
          else if name !in columnRuntimeTypes then Fail(Raise(MustBeDefined).Wrap(Name(name)))
          else Fail(MatchColumn(columnRuntimeTypes[name], columnSchemaTypes[name]).error.Wrap(Name(name)))
        else if exists name :: name in columnRuntimeTypes && name !in columnSchemaTypes then
          var name :| name in columnRuntimeTypes && name !in columnSchemaTypes;
          Fail(Raise(UnsupportedKey(Str(name))))
        else
          Pass
  }

  /** A runtime column that matches a declared type is never Unknown, alone or in a list. */
  lemma MatchColumnRejectsUnknown(rt: ColumnRuntime, t: Value)
    requires ValidColumnType(t) && MatchColumn(rt, t).Pass?
    ensures CheckColumnRuntimeType(rt).Pass?
  {
    ColumnTableIsResolvedKinds(UnknownColumn);
    if t.Str? {
      assert ColumnKindName(rt.kind) in Split(t.s);
    } else {
      forall i | 0 <= i < |rt.kinds|
        ensures rt.kinds[i] != UnknownColumn
      {
        assert ColumnKindName(rt.kinds[i]) in Split(t.items[0].s);
      }
    }
  }

  /**
   * With both sides valid, supplying no runtime columns at all against a
   * non-empty declaration is MapMustBeDefined, listing the declared names.
   */
  lemma CheckColumnsMissingMap(columnRuntimeTypes: map<string, ColumnRuntime>, columnSchemaTypes: map<string, Value>)
    requires ValidateColumnInputTypes(columnSchemaTypes).Pass? && ValidateColumnRuntimeTypes(columnRuntimeTypes).Pass?
    requires |columnRuntimeTypes| == 0 && |columnSchemaTypes| != 0
    ensures CheckColumnRuntimeTypesMatch(columnRuntimeTypes, columnSchemaTypes) ==
      Fail(Raise(MapMustBeDefined(columnSchemaTypes.Keys)))
  {
    var names := columnSchemaTypes.Keys;
    assert |names| != 0;
    var name :| name in names;
    assert name !in columnRuntimeTypes;
  }

  /**
   * Otherwise the error is a missing column, a column's mismatch under its
   * name, or (only when every declared column matches) an undeclared column.
   */
  lemma CheckColumnErrors(columnRuntimeTypes: map<string, ColumnRuntime>, columnSchemaTypes: map<string, Value>)
    requires ValidateColumnInputTypes(columnSchemaTypes).Pass? && ValidateColumnRuntimeTypes(columnRuntimeTypes).Pass?
    requires |columnRuntimeTypes| != 0 && CheckColumnRuntimeTypesMatch(columnRuntimeTypes, columnSchemaTypes).Fail?
    ensures var e := CheckColumnRuntimeTypesMatch(columnRuntimeTypes, columnSchemaTypes).error;
      || (exists name :: name in columnSchemaTypes && name !in columnRuntimeTypes &&
            e == Raise(MustBeDefined).Wrap(Name(name)))
      || (exists name :: name in columnSchemaTypes && name in columnRuntimeTypes &&
            MatchColumn(columnRuntimeTypes[name], columnSchemaTypes[name]).Fail? &&
            e == MatchColumn(columnRuntimeTypes[name], columnSchemaTypes[name]).error.Wrap(Name(name)))
      || (&& (forall name :: name in columnSchemaTypes ==>
                name in columnRuntimeTypes && MatchColumn(columnRuntimeTypes[name], columnSchemaTypes[name]).Pass?)
          && exists name :: name in columnRuntimeTypes && name !in columnSchemaTypes &&
               e == Raise(UnsupportedKey(Str(name))))
  {
  }

}
