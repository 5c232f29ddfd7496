/**
 * The two closed kind tables of the configuration language: value types
 * (`ValueTypeStrings()`) for arguments and literals, and column types
 * (`ColumnTypeStrings()`) for pipeline columns, with the predicates
 * `isValidValueType` and `isValidColumnInputType` over pipe-joined unions.
 */
module Kinds {
  import opened Wrappers
  import opened Unions

  datatype ValueKind = IntKind | FloatKind | StringKind | BoolKind

  function ValueKindName(k: ValueKind): string
  {
    match k
    case IntKind => "INT"
    case FloatKind => "FLOAT"
    case StringKind => "STRING"
    case BoolKind => "BOOL"
  }

  /** The names a value-type union may be built from. */
  const ValueTypeStrings: seq<string> := ["INT", "FLOAT", "STRING", "BOOL"]

  /** The order in which a union is tried when a literal is cast, whatever order the union is written in. */
  const CastPriority: seq<ValueKind> := [IntKind, FloatKind, StringKind, BoolKind]

  /** The inverse of ValueKindName on the table. */
  function ValueKindFromName(name: string): (r: Option<ValueKind>)
    ensures r.Some? <==> name in ValueTypeStrings
    ensures r.Some? ==> ValueKindName(r.value) == name
  {
    if name == "INT" then Some(IntKind)
    else if name == "FLOAT" then Some(FloatKind)
    else if name == "STRING" then Some(StringKind)
    else if name == "BOOL" then Some(BoolKind)
    else None
  }

  lemma ValueKindNamesRoundTrip(k: ValueKind)
    ensures ValueKindName(k) in ValueTypeStrings
    ensures ValueKindFromName(ValueKindName(k)) == Some(k)
  {
  }

  /** isValidValueType: every pipe-separated part of s names a value kind. */
  predicate ValidValueUnion(s: string)
  {
    forall part :: part in Split(s) ==> part in ValueTypeStrings
  }

  /** The kinds a union string names (the parts that are not kind names are ignored). */
  function UnionKinds(s: string): (ks: set<ValueKind>)
    ensures forall k :: k in ks <==> ValueKindName(k) in Split(s)
  {
    set k | k in CastPriority && ValueKindName(k) in Split(s)
  }

  /** A valid union names at least one kind, so it is never empty. */
  lemma ValidUnionIsInhabited(s: string)
    requires ValidValueUnion(s)
    ensures UnionKinds(s) != {}
  {
    var first := Split(s)[0];
    assert first in Split(s);
    var k := ValueKindFromName(first).value;
    assert k in UnionKinds(s);
  }

  datatype ColumnKind =
    | UnknownColumn
    | IntColumn
    | FloatColumn
    | StringColumn
    | IntListColumn
    | FloatListColumn
    | StringListColumn

  function ColumnKindName(k: ColumnKind): string
  {
    match k
    case UnknownColumn => "unknown"
    case IntColumn => "INT_COLUMN"
    case FloatColumn => "FLOAT_COLUMN"
    case StringColumn => "STRING_COLUMN"
    case IntListColumn => "INT_LIST_COLUMN"
    case FloatListColumn => "FLOAT_LIST_COLUMN"
    case StringListColumn => "STRING_LIST_COLUMN"
  }

  /** The names a column-type union may be built from; the Unknown sentinel is not among them. */
  const ColumnTypeStrings: seq<string> :=
    ["INT_COLUMN", "FLOAT_COLUMN", "STRING_COLUMN", "INT_LIST_COLUMN", "FLOAT_LIST_COLUMN", "STRING_LIST_COLUMN"]

  /** isValidColumnInputType: every pipe-separated part of s names a column kind. */
  predicate ValidColumnUnion(s: string)
  {
    forall part :: part in Split(s) ==> part in ColumnTypeStrings
  }

  /** Exactly the resolved column kinds are listed in the table; Unknown is not. */
  lemma ColumnTableIsResolvedKinds(k: ColumnKind)
    ensures ColumnKindName(k) in ColumnTypeStrings <==> k != UnknownColumn
  {
  }

  /**
   * The loop shared by isValidValueType and isValidColumnInputType
   * (validators.go:30-46): every part of the split union must be in the table.
   */
  method AllPartsListed(s: string, table: seq<string>) returns (ok: bool)
    ensures ok <==> forall part :: part in Split(s) ==> part in table
    ensures table == ValueTypeStrings ==> (ok <==> ValidValueUnion(s))
    ensures table == ColumnTypeStrings ==> (ok <==> ValidColumnUnion(s))
  {
    var parts := Split(s);
    for i := 0 to |parts|
      invariant forall j :: 0 <= j < i ==> parts[j] in table
    {
      if parts[i] !in table {
        return false;
      }
    }
    return true;
  }

}
