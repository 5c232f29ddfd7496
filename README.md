# Configuration type engine of cortex, in Dafny

This project models the type engine in `pkg/api/userconfig/validators.go` of
cortex. Cortex configurations declare the arguments of aggregators and
transformers with *value types* written as ordinary YAML data:
- a union string such as `"INT|FLOAT"`;
- a one-element list such as `["STRING"]`, meaning a list of that union;
- a generic map such as `{"STRING": "INT"}`, whose single key is a union;
- a fixed map such as `{"x": "INT", "y": "STRING"}`, whose keys are field names.

Columns are declared with *column types*, which are unions of column kinds
such as `"INT_COLUMN|FLOAT_COLUMN"` or one-element lists of them.

The engine does three things:
- **validates** type expressions (`ValidateValueType`, `ValidateArgTypes`,
  `ValidateColumnInputTypes`, `ValidateColumnInputValues`,
  `ValidateColumnRuntimeTypes`);
- **casts** literal documents against a value type (`CastValue`). Union kinds
  are tried in the fixed order INT, FLOAT, STRING, BOOL. Lists are cast
  element by element. Generic maps cast keys and values. Fixed maps require
  exactly their fields;
- **matches** types inferred at run time against declared types
  (`CheckValueRuntimeTypesMatch`, `CheckArgRuntimeTypesMatch`,
  `CheckColumnRuntimeTypesMatch`). A runtime union must be a subset of the
  declared one.

Every error carries the path of map keys, field names and list indices that
`errors.Wrap` builds on the way back out of the recursion.

Files:
- `wrappers.dfy` — the `Option` type.
- `values.dfy` — the untyped document `Value` and the string-slice view of it.
- `unions.dfy` — splitting a union at `|`, and joining it back.
- `kinds.dfy` — the kind tables and the union predicates.
- `errors.dfy` — error kinds, paths and outcomes.
- `value_types.dfy` — validation of value types.
- `cast.dfy` — `CastValue`.
- `runtime_types.dfy` — runtime-type matching for arguments.
- `columns.dfy` — the column-type checks.
- `cast_properties.dfy` — soundness and idempotence of casting.
- `scenarios.dfy` — worked examples.

Go iterates over maps in random order. When several entries of a map are at
fault, the source reports whichever one it meets first. The model therefore
chooses the reported entry with `:|`, and each contract says two things:
- a check fails exactly when some entry is at fault;
- the error is that entry's error, under that entry's key.

Lists are visited in order, so list errors name the first failing index.

## Model

| member | source | states |
|---|---|---|
| Unions.Split | pkg/api/userconfig/validators.go:263 | Splitting at `\|` always yields at least one part, and no part contains a pipe. Joining the parts with `\|` gives the input back. |
| Unions.SplitJoin | pkg/api/userconfig/validators.go:263 | Splitting the join of pipe-free parts gives the parts back, so Split and Join are inverse. |
| Values.AsStrSlice | pkg/api/userconfig/validators.go:78-83 | The string-slice view of a document accepts null (the nil slice) or a list whose items are all strings, and nothing else. A successful view holds the list's strings, item by item. |
| Kinds.ValueKindFromName | pkg/api/userconfig/validators.go:39-46 | A name maps to a value kind iff it is in the value-type table, and it maps to the kind of that name. |
| Kinds.ValueKindNamesRoundTrip | pkg/api/userconfig/validators.go:39-46 | Every value kind's name is in the table and maps back to that kind. |
| Kinds.ValidUnionIsInhabited | pkg/api/userconfig/validators.go:39-46 | A valid value-type union names at least one kind. |
| Kinds.ColumnTableIsResolvedKinds | pkg/api/userconfig/validators.go:30-37 | A column kind's name is in the column-type table iff the kind is not Unknown. |
| Kinds.AllPartsListed | pkg/api/userconfig/validators.go:30-46 | The loop returns true iff every split part of the union is in the table. With the value-type table this is isValidValueType; with the column-type table it is isValidColumnInputType. |
| ValueTypes.FindGenericKey | pkg/api/userconfig/validators.go:203-211 | The loop sets foundGenericKey iff some key of the type map is a string that is a valid value-type union. |
| ValueTypes.ValidateValueType | pkg/api/userconfig/validators.go:184-232 | A type that passes is a valid union string, a one-element list holding a valid union, or a map. |
| ValueTypes.ValidateValueTypeCases | pkg/api/userconfig/validators.go:184-232 | Case by case: a union fails with InvalidValueDataType when a part is unknown. A string list whose length is not 1 fails with TypeListLength. A map with a union key and more than one entry fails with GenericTypeMapLength. Any other map is valid iff all its values are, and its error is a failing value's error under that value's key. Anything else is InvalidValueDataType. |
| ValueTypes.ValidMapValues | pkg/api/userconfig/validators.go:216-228 | Every value of a valid type map is a valid type. |
| ValueTypes.GenericKeyValidates | pkg/api/userconfig/validators.go:217-222 | The key of a generic type map always validates, so the key check of the validation loop never fails. |
| ValueTypes.GenericTestsAgree | pkg/api/userconfig/validators.go:203-213 | On a valid type map, the generic test of casting and matching (one entry, keyed by a value-type union: IsGenericMapType, lines 308-321 and 435-448) holds iff validation's foundGenericKey test holds. That is why those loops see only one entry. |
| ValueTypes.SingleKey | pkg/api/userconfig/validators.go:311-312 | A one-entry map has only one key, so the loop over a generic type map visits exactly one entry. |
| ValueTypes.ValidateArgTypes | pkg/api/userconfig/validators.go:171-182 | Passes iff no argument name is itself a valid value-type union and every argument type is valid. A failure is ArgNameCannotBeType for an offending name, or a type's error wrapped with its argument name. |
| ValueTypes.ValidateValue | pkg/api/userconfig/validators.go:244-246 | The value hook accepts every value. |
| ValueTypes.ValidateArgValues | pkg/api/userconfig/validators.go:234-242 | Passes for every argument map, because the per-argument hook passes for every argument. |
| Cast.TriedKindsInPriorityOrder | pkg/api/userconfig/validators.go:264-291 | The kinds a union cast tries are exactly the kinds the union names. They are tried in strictly increasing priority order, whatever order the union is written in. |
| Cast.CastUnion | pkg/api/userconfig/validators.go:262-292 | A union cast succeeds iff some named kind's coercion accepts the value. The result is then the coercion of the highest-priority accepting kind. Otherwise the error is InvalidPrimitiveType listing the tried kinds in order. |
| Cast.CastUnionPicks | pkg/api/userconfig/validators.go:262-291 | If a named kind accepts the value and no higher-priority named kind does, the union cast returns that kind's coercion. |
| Cast.CastUnionIgnoresOrder | pkg/api/userconfig/validators.go:262-292 | Two unions naming the same kinds cast every value identically. |
| Cast.CastValue | pkg/api/userconfig/validators.go:248-260 | An invalid type is reported before the value is examined. Under a valid type, null casts to null. |
| Cast.CastMap | pkg/api/userconfig/validators.go:295-306 | A non-map value against a map type is InvalidPrimitiveType(map). Against the empty map type, an empty map casts to an empty map and any other map is MustBeEmpty. |
| Cast.CastGenericMap | pkg/api/userconfig/validators.go:323-337 | Succeeds iff every data key casts against the key union and every data value casts against the value type. The result then holds the cast of every data key, and each result entry comes from a data entry whose key and value cast to it. A failure is a key's own error, unwrapped, or a value's error under its key. |
| Cast.CastFixedMap | pkg/api/userconfig/validators.go:339-357 | Succeeds iff every field is present and casts and no other key is present. The result then has exactly the field names, each mapped to the cast of its data value. |
| Cast.CastFixedMapError | pkg/api/userconfig/validators.go:339-356 | A failure is MustBeDefined under a missing field, or a field's own error under that field. Only when every field is present and casts can it be UnsupportedKey for an extra key. |
| Cast.CastList | pkg/api/userconfig/validators.go:360-365 | A non-list value against a list type is InvalidPrimitiveType(list). A list value gives the element-wise cast of its items. |
| Cast.CastItems | pkg/api/userconfig/validators.go:366-374 | A successful element-wise cast has as many elements as the input. |
| Cast.CastItemsSucceeds | pkg/api/userconfig/validators.go:366-374 | The element-wise cast succeeds iff every element casts. |
| Cast.CastItemsElementwise | pkg/api/userconfig/validators.go:366-374 | After a successful cast, element i of the result is the cast of element i. |
| Cast.CastItemsFirstError | pkg/api/userconfig/validators.go:367-371 | A failed cast reports the first element that does not cast, under its index. |
| CastProperties.CastConforms | pkg/api/userconfig/validators.go:248-378 | Whatever CastValue returns conforms to the type: a scalar of a kind the union names, lists and maps whose members conform, and fixed maps with exactly their fields. |
| CastProperties.GenericCastConforms | pkg/api/userconfig/validators.go:323-337 | A generic-map cast result has conforming keys and values. |
| CastProperties.FixedCastConforms | pkg/api/userconfig/validators.go:339-357 | A fixed-map cast result has exactly the fields, each conforming. |
| CastProperties.CastIdempotent | pkg/api/userconfig/validators.go:248-378 | Under stable coercions, casting a cast result again against the same type returns it unchanged. |
| CastProperties.UnionCastIdempotent | pkg/api/userconfig/validators.go:262-292 | Under stable coercions, a union cast result casts to itself. |
| CastProperties.ListCastIdempotent | pkg/api/userconfig/validators.go:360-375 | Under stable coercions, a cast list casts to itself. |
| CastProperties.GenericCastIdempotent | pkg/api/userconfig/validators.go:323-337 | Under stable coercions, a cast generic map casts to itself. |
| CastProperties.GenericFixpoint | pkg/api/userconfig/validators.go:323-337 | A map whose keys and values each cast to themselves casts to itself under a generic map type. |
| CastProperties.FixedCastIdempotent | pkg/api/userconfig/validators.go:339-357 | Under stable coercions, a cast fixed map casts to itself. |
| CastProperties.FixedFixpoint | pkg/api/userconfig/validators.go:339-357 | A map with exactly the fields, each casting to itself, casts to itself. |
| RuntimeTypes.CheckValueRuntimeTypesMatch | pkg/api/userconfig/validators.go:414-498 | A union schema accepts exactly the runtime unions whose every option it lists. A list schema accepts exactly the runtime one-union lists whose options it lists. Every such mismatch, and a non-map runtime type against a map schema, is UnsupportedDataType, unwrapped. |
| RuntimeTypes.CheckGenericMap | pkg/api/userconfig/validators.go:450-462 | Passes iff every runtime key matches the key union and every runtime value matches the value type. A failure is a key's mismatch, unwrapped, or a value's mismatch under its key. |
| RuntimeTypes.CheckFixedMap | pkg/api/userconfig/validators.go:464-480 | Passes iff every field is present and matches, and no other runtime key is present. |
| RuntimeTypes.CheckFixedMapError | pkg/api/userconfig/validators.go:464-480 | A failure is MustBeDefined under a missing field, or a field's mismatch under it. Only when all fields match can it be UnsupportedKey for an extra runtime key. |
| RuntimeTypes.MatchReflexive | pkg/api/userconfig/validators.go:414-498 | Every valid type matches itself. |
| RuntimeTypes.MatchTransitive | pkg/api/userconfig/validators.go:414-498 | If a matches b and b matches c, then a matches c. |
| RuntimeTypes.TransitiveIntoGeneric | pkg/api/userconfig/validators.go:450-462 | Transitivity when the schema is a generic map. |
| RuntimeTypes.TransitiveIntoFixed | pkg/api/userconfig/validators.go:464-480 | Transitivity when the schema is a fixed map. |
| RuntimeTypes.CheckArgRuntimeTypesMatch | pkg/api/userconfig/validators.go:380-412 | Passes iff both argument maps validate, every declared argument is supplied with a matching runtime type, and no undeclared argument is supplied. The schema side's validation error comes first, then the runtime side's. |
| RuntimeTypes.CheckArgsMissingMap | pkg/api/userconfig/validators.go:390-393 | With both sides valid, an empty runtime map against a non-empty schema is MapMustBeDefined listing every declared name. |
| RuntimeTypes.CheckArgErrors | pkg/api/userconfig/validators.go:390-409 | Otherwise a failure is a missing argument, or an argument's mismatch under its name. Only when all declared arguments match can it be UnsupportedKey for an undeclared one. |
| RuntimeTypes.ArgsMatchReflexive | pkg/api/userconfig/validators.go:380-412 | An argument map matches itself iff its types are valid. |
| ColumnTypes.FirstRejected | pkg/api/userconfig/validators.go:99-103 | Returns none iff every kind is accepted. Otherwise it returns the index of a rejected kind with every earlier kind accepted. |
| ColumnTypes.FindRejected | pkg/api/userconfig/validators.go:151-155 | The loop stops at the first rejected kind, which is what FirstRejected specifies. |
| ColumnTypes.CheckColumnInputType | pkg/api/userconfig/validators.go:50-67 | A column type passes iff it is a valid column union, or a one-element list of one. A failure is TypeListLength for a string list of another length, and InvalidColumnInputType otherwise. |
| ColumnTypes.ValidateColumnInputTypes | pkg/api/userconfig/validators.go:48-71 | Passes iff every declared column type passes. A failure is a failing column's error under its name. |
| ColumnTypes.CheckColumnInputValue | pkg/api/userconfig/validators.go:75-84 | A column input passes iff it is a string or a list of strings. Null is CannotBeNull. Anything else is InvalidPrimitiveType(string, string list). |
| ColumnTypes.ValidateColumnInputValues | pkg/api/userconfig/validators.go:73-88 | Passes iff every column input passes. A failure is a failing input's error under its name. |
| ColumnTypes.CheckColumnRuntimeType | pkg/api/userconfig/validators.go:92-106 | A runtime column passes iff it is a single kind that is not Unknown, or a list of such kinds. A list failure is reported under the index of the first Unknown. Any other failure is InvalidColumnRuntimeType. |
| ColumnTypes.ValidateColumnRuntimeTypes | pkg/api/userconfig/validators.go:90-110 | Passes iff every runtime column passes. A failure is a failing column's error under its name. |
| ColumnTypes.MatchColumn | pkg/api/userconfig/validators.go:133-157 | A union accepts exactly a single kind it lists. A list type accepts exactly a list of kinds it lists, and reports the first unlisted one under its index. Every other mismatch is UnsupportedColumnType. |
| ColumnTypes.CheckColumnRuntimeTypesMatch | pkg/api/userconfig/validators.go:113-169 | Passes iff both sides validate, every declared column is supplied with a matching kind, and no undeclared column is supplied. Declared-side errors come first, then runtime-side errors. |
| ColumnTypes.MatchColumnRejectsUnknown | pkg/api/userconfig/validators.go:133-157 | A runtime column that matches a declared type contains no Unknown kind. |
| ColumnTypes.CheckColumnsMissingMap | pkg/api/userconfig/validators.go:123-126 | With both sides valid, an empty runtime map against a non-empty declaration is MapMustBeDefined listing every declared name. |
| ColumnTypes.CheckColumnErrors | pkg/api/userconfig/validators.go:123-166 | Otherwise a failure is a missing column, or a column's mismatch under its name. Only when all declared columns match can it be UnsupportedKey for an undeclared one. |
| Scenarios.UnknownKindIsRejected | pkg/api/userconfig/validators.go:185-188 | A union spelled like `INT\|FLOAT\|BOGUS` (such as that literal, by Scenarios.SplitIntFloatBogus) is InvalidValueDataType. |
| Scenarios.IntBeatsString | pkg/api/userconfig/validators.go:266-271 | `"5"` cast against `INT\|STRING` becomes the integer 5 when the int coercion accepts it. |
| Scenarios.StringFallsThrough | pkg/api/userconfig/validators.go:266-284 | A string the int coercion rejects, cast against a union spelled like `INT\|STRING`, stays that string. |
| Scenarios.ListOfInts | pkg/api/userconfig/validators.go:360-374 | Two numeric strings cast against `["INT"]` become the list of the two integers. |
| Scenarios.OnlyMissingField | pkg/api/userconfig/validators.go:341-345 | When a missing field is the only fault of a document under a fixed map type, MustBeDefined is reported under that field. |
| Scenarios.MissingField | pkg/api/userconfig/validators.go:341-345 | `{x: "5"}` against `{x: "INT", y: "STRING"}` is MustBeDefined under y. |
| Scenarios.RuntimeSubset | pkg/api/userconfig/validators.go:415-426 | A runtime union spelled like `INT` matches a schema union spelled like `INT\|FLOAT` (such as the literal `INT\|FLOAT`, by Scenarios.SplitIntFloat). |
| Scenarios.RuntimeSuperset | pkg/api/userconfig/validators.go:421-424 | A runtime union spelled like `INT\|STRING` does not match a schema union spelled like `INT`, and the error is UnsupportedDataType. |

## Left out

- The numeric coercions `cast.InterfaceToInt64` and `cast.InterfaceToFloat64` are in another package. They are parameters of the caster (`Cast.Coercions`), with no property assumed about them.
- CastProperties.CastIdempotent and its companions assume `StableCoercions`: an int and a float coerce to themselves, and a float produced for a value the int coercion rejected is also rejected by it. Idempotence is stated only under that assumption.
- `cast.InterfaceToStrSlice` is in another package. It is assumed to accept null (the nil slice) and lists of strings only. Under that assumption, `ValidateValueType(null)` is TypeListLength.
- `value_type.go` and `column_type.go` are not part of this model. The kind names (`INT`, `FLOAT`, `STRING`, `BOOL` and the six `*_COLUMN` names) and the Unknown column sentinel are modelled as closed enumerations.
- Error message text and the `s.UserStr`/`s.UserStrStripped` renderings are not modelled. A path segment holds the key itself.
- Cast.CastMap: the MustBeEmpty error is wrapped with the whole data map, which stands in for the rendering at line 305.
- Floats are kept as their 64-bit patterns. Float arithmetic and NaN map keys are not modelled.
- Which of several faulty map entries is reported depends on Go's random map order. The model fixes one choice, and the contracts hold for any choice.
- Cast.CastGenericMap: when two data keys cast to the same key, the surviving value depends on iteration order. The model keeps one of them, and the contract only says it comes from some colliding entry.
- RuntimeTypes.CheckValueRuntimeTypesMatch requires a valid schema type, and a valid runtime type unless the schema is a union. The list branch reads element 0 of both types unchecked. Apart from its own recursion (lines 452, 456 and 470), whose arguments are entries of maps that are already valid, its only caller is CheckArgRuntimeTypesMatch, which validates both sides first. The requirement is therefore stronger than just excluding the panic.
- ColumnTypes.MatchColumn requires a valid column type, which CheckColumnRuntimeTypesMatch establishes before calling it.
- The "unexpected" branches at lines 159, 377 and 497 cannot be reached after validation and are not modelled as separate cases.
- A runtime column that is neither a ColumnType nor a slice of them is modelled as `NotAColumnType`.
- Recursion depth and stack growth on deeply nested documents are not modelled.
- `pkg/operator/workloads/data_job.go` uses other parts of the userconfig package (`SparkCompute`, `MaxSparkCompute`, `Identify`, `DataKey`, `PathKey`) and no function of validators.go. It is not part of this model.
- ColumnTypes.CheckColumnInputType also accepts a one-element list of a column union (validators.go:57-64).
- RuntimeTypes.CheckValueRuntimeTypesMatch matches a list schema against the runtime list's element union with a flat subset test (validators.go:483-495); element types are not matched recursively.
- There is no worked example of the generic-map cast. Cast.CastGenericMap's contract states the general case.
