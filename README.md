# A verified model of Materialize's evaluation kernel

This project models, in Dafny, the core of Materialize's dataflow evaluation. It covers seven parts:

- **The scalar function library** (`src/expr/src/scalar/func.rs`):
  - three-valued `and`/`or` with short-circuiting;
  - the `eager!` wrapper, which answers Null for a Null operand before the operator body runs;
  - checked 16/32/64-bit integer arithmetic, truncating division and remainder, and the narrowing casts;
  - calendar month addition with the day clamped to the month's end;
  - `coalesce` and `error_if_null`;
  - the character-indexed string functions;
  - the list, array, map and jsonb operators;
  - the operators' static metadata (`propagates_nulls`, `introduces_nulls`, `negate`, `output_type`).
- **Aggregates and table functions** (`src/expr/src/relation/func.rs`): the Null-ignoring min/max/sum/count, the `any`/`all` folds, the ORDER BY-sensitive aggregates, and the set-returning functions that yield `(row, diff)` updates.
- **Constant folding** (`src/transform/src/reduction.rs`): `FoldConstants::action` on constant collections, including consolidation and re-derivation of column nullability.
- **The session's transaction state machine, its operation merging and its portal map** (`src/coord/src/session.rs`).
- **Relation type metadata** (`src/repr/src/relation.rs`): the column-type union, keys, descriptions and column lookup by name.
- **The let-inlining rewrite** (`src/transform/src/inline_let.rs`).
- **The file-backed log and blob store of the persistence layer** (`src/persist/src/file.rs`). Files are byte sequences.

Modelling choices:

- Datums are a datatype: Null, JsonNull, Bool, the three integer widths, Numeric, String, List, Map, Array with dimensions, and Dummy. Integer payloads are mathematical integers, and the width limits and wrap-arounds of the modelled arithmetic are written out; where a wrap-around is evidently unintended (`substr`, `split_part`) an as-written member shows it and the evaluator uses the corrected one (see Findings).
- Evaluation errors are a `Result`. A panic of the source (an `unwrap_*` on a datum of the wrong kind, an `unreachable!()` arm, an index out of bounds) becomes an internal error wherever the model is a total function, except in `ConstantRows.Renullable` and `OrderBy.At` (see Left out).
- Stateful code is imperative Dafny, specified by the pure functions beside it. `Session`, `FileLog` and `FileBlob` are classes whose methods update their fields. Loops of the source (coalesce, string_agg, the snapshot loop, the folding loops) are methods with loop invariants.

One Dafny module per file:

| file | module | models |
|---|---|---|
| datum.dfy | Datums | datums, errors, `Result`/`Option` |
| datum_order.dfy | DatumOrder | the total order on datums |
| sorting.dfy | Sorting | stable sorting, equivalence classes, reversal |
| entry_sort.dfy | EntrySort | map entries sorted and de-duplicated by key |
| int_arith.dfy | IntArith | checked fixed-width arithmetic and casts |
| scalar_ops.dfy | ScalarOps | unary/binary/variadic variants, their bodies and metadata |
| scalar_expr.dfy | ScalarExpr | scalar expressions and their evaluation |
| string_func.dfy | StringFunc | `substr`, `split_part`, `left`, `right`, `position`, `lpad` |
| collection_func.dfy | CollectionFunc | list, array, map and jsonb operators |
| date_arith.dfy | DateArith | `add_timestamp_months` |
| order_by.dfy | OrderBy | ORDER BY comparison of rows |
| aggregate.dfy | Aggregate | `AggregateFunc` evaluation, defaults, identities, output types |
| table_func.dfy | TableFunc | `TableFunc` evaluation, output types and flags |
| relation_expr.dfy | RelationExpr | the relation expression tree |
| constant_rows.dfy | ConstantRows | operations on constant `(row, diff)` collections |
| reduction.dfy | Reduction | `FoldConstants::action` |
| inline_let.dfy | InlineLet | `InlineLet::action` and `transform` |
| relation.dfy | Repr | column types, relation types and descriptions |
| session.dfy | Sessions | `Session` and `TransactionStatus` |
| file_log.dfy | FileLogs | `FileLog` and `FileBlob` |

## Model

| member | source | states |
|---|---|---|
| IntArith.Wrap | src/expr/src/scalar/func.rs:815-835 | the wrapped value always fits the width, equals the input when it already fits, and differs from it by exactly one modulus just outside the range |
| IntArith.CheckedAdd | src/expr/src/scalar/func.rs:815-835 | `checked_add` gives the exact sum when it fits the width and `NumericFieldOverflow` otherwise |
| IntArith.CheckedSub | src/expr/src/scalar/func.rs:1222-1242 | `checked_sub` gives the exact difference when it fits the width and `NumericFieldOverflow` otherwise |
| IntArith.CheckedMul | src/expr/src/scalar/func.rs:1301-1321 | `checked_mul` gives the exact product when it fits the width and `NumericFieldOverflow` otherwise |
| IntArith.DivRemT | src/expr/src/scalar/func.rs:1433-1459 | Rust's truncating `/` and `%` satisfy `a == b*q + r`, the remainder is smaller than the divisor in magnitude and has the dividend's sign, and the quotient is no larger than the dividend in magnitude |
| IntArith.DivTInRange | src/expr/src/scalar/func.rs:1352-1378 | apart from `MIN / -1`, the quotient and remainder of two values of a width fit that width |
| IntArith.CheckedDiv | src/expr/src/scalar/func.rs:1352-1378 | `div_int*` fails exactly when the divisor is 0, with `DivisionByZero`, and otherwise gives the truncating quotient, which fits the width |
| IntArith.CheckedRem | src/expr/src/scalar/func.rs:1433-1459 | `mod_int*` fails exactly when the divisor is 0, with `DivisionByZero`, and otherwise gives the truncating remainder, which fits the width |
| IntArith.Narrow | src/expr/src/scalar/func.rs:196-236 | `try_from` succeeds exactly when the value fits the narrower width, keeps the value, and otherwise reports the width's out-of-range error |
| IntArith.WidenNarrow | src/expr/src/scalar/func.rs:196-205 | a value of a narrow width fits every wider width, and narrowing it back always succeeds unchanged |
| ScalarOps.AsInt | src/expr/src/scalar/func.rs:815-835 | `unwrap_int*` yields only values that fit the requested width |
| ScalarOps.MakeInt | src/expr/src/scalar/func.rs:815-835 | a value that fits the width unwraps back to itself from the datum built for it |
| ScalarOps.Widen | src/expr/src/scalar/func.rs:158-165 | a widening cast succeeds exactly on an integer datum of the source width and keeps its value |
| ScalarOps.NarrowCast | src/expr/src/scalar/func.rs:223-236 | a narrowing cast succeeds exactly when the value fits the target width, keeps the value, and otherwise reports the target width's out-of-range error; a non-integer operand is a type mismatch |
| ScalarOps.IntToBool | src/expr/src/scalar/func.rs:219-221 | an integer-to-bool cast succeeds exactly on an integer datum of the width and yields whether it is nonzero |
| ScalarOps.EvalUnary | src/expr/src/scalar/func.rs:3693-3702 | a Null operand of a null-propagating unary function yields Null without running the body; any other operand runs the body |
| ScalarOps.UnaryNoNewNulls | src/expr/src/scalar/func.rs:4122-4266 | a unary variant listed as not introducing Nulls never yields Null from a non-Null operand |
| ScalarOps.CastRoundTrip | src/expr/src/scalar/func.rs:196-236 | widening an integer and narrowing it back gives the original datum; narrowing yields `Int16OutOfRange`/`Int32OutOfRange` exactly when the value does not fit |
| ScalarOps.UnaryOutputType | src/expr/src/scalar/func.rs:3898-4110 | every modelled unit variant has an output type; `RecordGet(i)` has one exactly when the input is a record with a field `i`, and then it is that field's type, nullable when the field or the record is |
| ScalarOps.UnaryNullability | src/expr/src/scalar/func.rs:5725-5766 | for the unit variants: a Null-introducing variant is always nullable; otherwise a non-nullable input gives a non-nullable output and a nullable input gives a nullable output exactly when the variant propagates Nulls |
| ScalarOps.DivMod | src/expr/src/scalar/func.rs:1352-1459 | on integer operands of the width (other than `MIN / -1`), division and remainder yield the checked truncating quotient or remainder |
| ScalarOps.Arith | src/expr/src/scalar/func.rs:815-1321 | on integer operands of the width, add, sub and mul yield the exact result when it fits and `NumericFieldOverflow` otherwise |
| ScalarOps.ArithSemantics | src/expr/src/scalar/func.rs:2668-2851 | through `BinaryFunc::eval`'s bodies: exact results in range, `NumericFieldOverflow` outside it, and `DivisionByZero` exactly for a zero divisor |
| ScalarOps.BinaryNoNewNulls | src/expr/src/scalar/func.rs:3030-3103 | the logical, comparison and integer arithmetic variants, listed as not introducing Nulls, never yield Null from non-Null operands |
| ScalarOps.Negate | src/expr/src/scalar/func.rs:3240-3251 | `negate` is defined exactly on the six comparisons and yields a comparison |
| ScalarOps.NegateCorrect | src/expr/src/scalar/func.rs:3240-3251 | negation is an involution, and on every pair of operands the negated comparison yields the logical negation of the original |
| ScalarOps.DefaultEmbedded | src/expr/src/scalar/func.rs:2989-2997 | the embedded element type is base-equal to the input type and of the same kind; a list, map or record result carries no custom oid, and a record no custom name |
| ScalarOps.BinaryOutputTypeSpec | src/expr/src/scalar/func.rs:2852-3012 | division and remainder are always nullable; add, sub and mul are nullable exactly when an input is; logical and comparison results are Booleans nullable exactly when an input is; every variant that may yield Null from non-Null inputs has a nullable output |
| ScalarOps.DivModNullability | src/expr/src/scalar/func.rs:3030-3103 | integer division and remainder are listed as not introducing Nulls yet typed as always nullable, while addition of non-nullable inputs is non-nullable |
| ScalarOps.Zip | src/expr/src/scalar/func.rs:5626-5635 | the record's fields pair each name with the input type at the same position, as many as the shorter list |
| ScalarOps.VariadicOutputType | src/expr/src/scalar/func.rs:5583-5641 | `coalesce` and `error_if_null` have a type exactly when there is an input, the first input's scalar type, nullable for coalesce and non-nullable for error_if_null; array and list creation are non-nullable; a record has at most as many fields as inputs |
| ScalarExpr.ErrorIfNullBody | src/expr/src/scalar/func.rs:4535-4548 | succeeds exactly when the first operand exists and is not Null, passing it through; a Null first operand with a string second operand becomes an internal error carrying that string |
| ScalarExpr.AndShortCircuit | src/expr/src/scalar/func.rs:83-98 | `and` with a False left operand is False and does not depend on the right operand, not even one whose evaluation fails |
| ScalarExpr.OrShortCircuit | src/expr/src/scalar/func.rs:100-115 | `or` with a True left operand is True and does not depend on the right operand, not even one whose evaluation fails |
| ScalarExpr.AndOrSemantics | src/expr/src/scalar/func.rs:83-115 | on truth values `and`/`or` agree with Kleene's three-valued connectives (an independent definition); the left operand's error wins, then the right operand's unless the left one decided the answer |
| ScalarExpr.AndOrCommute | src/expr/src/scalar/func.rs:83-115 | on truth values `and` and `or` are commutative |
| ScalarExpr.BinaryEagerNull | src/expr/src/scalar/func.rs:2676-2686 | a null-propagating binary variant whose operands evaluate, one of them to Null, yields Null before its body runs |
| ScalarExpr.BinaryEagerErrors | src/expr/src/scalar/func.rs:2676-2686 | the eager wrapper evaluates the left operand, then the right, returns the first error, and on non-Null operands returns the body's result |
| ScalarExpr.DivByNull | src/expr/src/scalar/func.rs:1361-1368 | integer division by a Null literal is Null, while division of a non-Null integer by the literal 0 is `DivisionByZero` |
| ScalarExpr.EvalAllSpec | src/expr/src/scalar/func.rs:5544-5552 | evaluating all operands succeeds exactly when each does, yielding their values in order; otherwise it yields the error of the first operand that fails |
| ScalarExpr.VariadicEagerNull | src/expr/src/scalar/func.rs:5544-5552 | a null-propagating variadic variant whose operands all evaluate, one to Null, yields Null |
| ScalarExpr.CoalesceStopsAt | src/expr/src/scalar/func.rs:4521-4533 | `coalesce` returns the first operand that does not evaluate to Null (its value or its error) and ignores every later operand |
| ScalarExpr.CoalesceAllNull | src/expr/src/scalar/func.rs:4521-4533 | `coalesce` is Null exactly when every operand evaluates to Null |
| ScalarExpr.Coalesce | src/expr/src/scalar/func.rs:4521-4533 | the loop over the operands computes the recursive definition of `coalesce` |
| ScalarExpr.ErrorIfNullSpec | src/expr/src/scalar/func.rs:4535-4548 | `error_if_null(a, msg)` passes a non-Null `a` through and reports `msg` as an internal error when `a` is Null |
| StringFunc.CharIndices | src/expr/src/scalar/func.rs:5228 | the character boundaries of a string are its positions `0..|s|` |
| StringFunc.Find | src/expr/src/scalar/func.rs:5208 | `str::find` yields an occurrence with no earlier occurrence, or None exactly when the pattern occurs nowhere |
| StringFunc.Position | src/expr/src/scalar/func.rs:5205-5222 | the result is a non-negative `i32`, and the only error is `Int32OutOfRange` |
| StringFunc.PositionSpec | src/expr/src/scalar/func.rs:5205-5222 | a positive result is the 1-based position of the first occurrence; 0 exactly when the substring does not occur; an error only for a string of at least `i32::MAX` characters |
| StringFunc.Left | src/expr/src/scalar/func.rs:5224-5248 | `left(s, n)` is the first `n` characters (all of `s` when shorter), and for negative `n` all but the last `|n|` |
| StringFunc.Right | src/expr/src/scalar/func.rs:5250-5276 | `right(s, n)` is empty for 0, the last `n` characters for positive `n`, all but the first `|n|` for negative `n`, and the whole string for `i32::MIN` |
| StringFunc.LeftRight | src/expr/src/scalar/func.rs:5224-5276 | `left(s, n) ++ right(s, -n) == s` for every nonzero `n` other than `i32::MIN` |
| StringFunc.Cycle | src/expr/src/scalar/func.rs:4597 | the cycled pad is empty for an empty pad and otherwise exactly as long as asked |
| StringFunc.CycleSpec | src/expr/src/scalar/func.rs:4597 | character `i` of the cycled pad is the pad's character `i mod |pad|` |
| StringFunc.PadLeading | src/expr/src/scalar/func.rs:4567-4602 | `lpad` rejects a negative length; a string at least `len` long is cut to `len` characters; a shorter one is prefixed with the cyclically repeated pad up to exactly `len`; an empty pad leaves the string as it is |
| StringFunc.StartChar | src/expr/src/scalar/func.rs:4622-4624 | `char_indices().nth(start)` is `start` when it is inside the string and the end otherwise |
| StringFunc.EndChar | src/expr/src/scalar/func.rs:4648 | the second `nth(end)` on the same iterator lands `start + 1 + end` characters in, clamped to the string, never before the start |
| StringFunc.Substr | src/expr/src/scalar/func.rs:4604-4654 | `substr` fails exactly for a negative length, with its message, and otherwise yields PostgreSQL's substring: the characters at 1-based positions `start .. start+len-1` that exist |
| StringFunc.SplitPart | src/expr/src/scalar/func.rs:4656-4686 | the corrected `split_part` (see Findings): it rejects every field below 1; with an empty delimiter field 1 is the whole string and any other field is empty; otherwise it yields the field-th piece of the split, or "" past the last piece |
| StringFunc.SplitPartAsWritten | src/expr/src/scalar/func.rs:4656-4686 | `split_part` with the `i64` subtraction wrapping: it fails exactly for the fields from `i64::MIN + 1` to 0, and field `i64::MIN` yields a piece or the empty string (the empty string for any string shorter than `i64::MAX` characters) |
| StringFunc.SplitPartOverflow | src/expr/src/scalar/func.rs:4661 | `split_part('a,b', ',', i64::MIN)` returns `''` as written, and an error once corrected |
| StringFunc.SplitPartNoOverflow | src/expr/src/scalar/func.rs:4661-4686 | for every field other than `i64::MIN` the as-written and corrected `split_part` agree |
| StringFunc.SplitCount | src/expr/src/scalar/func.rs:4685 | splitting a string of n characters yields at most n + 1 pieces |
| StringFunc.Split | src/expr/src/scalar/func.rs:4684 | splitting yields at least one piece, and no piece contains the delimiter |
| StringFunc.SplitJoin | src/expr/src/scalar/func.rs:4684 | joining the pieces of a split with the delimiter gives back the string |
| StringFunc.ConcatNonNullAppend | src/expr/src/scalar/func.rs:4557-4565 | concatenating an argument list is concatenating its two halves |
| StringFunc.ConcatNonNullSkipsNull | src/expr/src/scalar/func.rs:4557-4565 | a Null argument contributes nothing to `concat` |
| StringFunc.TextConcatVariadic | src/expr/src/scalar/func.rs:4557-4565 | the buffer loop yields the in-order concatenation of the non-Null string arguments |
| StringFunc.SubstrOverflow | src/expr/src/scalar/func.rs:4604-4654 | as written (with wrapping `i64` arithmetic), `substr('abc', 2, i64::MAX)` wraps the end position negative and returns the empty string, where PostgreSQL semantics give `bc` |
| StringFunc.SubstrNoOverflow | src/expr/src/scalar/func.rs:4604-4654 | whenever the end position does not overflow, the code as written agrees with the corrected `substr` |
| CollectionFunc.ListIndex | src/expr/src/scalar/func.rs:5307-5316 | `list_index` is the 1-based element at positions `1..=len` and Null at any other position |
| CollectionFunc.ArrayIndex | src/expr/src/scalar/func.rs:5329-5339 | `array_index` is the 1-based element at positions `1..=len` and Null at any other position |
| CollectionFunc.ArrayLength | src/expr/src/scalar/func.rs:5318-5327 | `array_length(a, i)` is the length of dimension `i` (1-based), Null when there is no such dimension |
| CollectionFunc.ArrayContains | src/expr/src/scalar/func.rs:5396-5399 | `array_contains` holds exactly when the datum is one of the array's elements |
| CollectionFunc.ListLength | src/expr/src/scalar/func.rs:5154-5156 | `list_length` is the element count, and `list_index` answers every position up to it |
| CollectionFunc.RecordGet | src/expr/src/scalar/func.rs:5150-5152 | `record_get(i)` is the list's 1-based element `i + 1` |
| CollectionFunc.ListListConcat | src/expr/src/scalar/func.rs:5401-5412 | a Null operand is the identity; two lists concatenate, the left one's elements first |
| CollectionFunc.ListElementConcat | src/expr/src/scalar/func.rs:5414-5425 | the element is appended after the list's elements, a Null list counting as empty |
| CollectionFunc.ElementListConcat | src/expr/src/scalar/func.rs:5427-5438 | the element is prepended before the list's elements, a Null list counting as empty |
| CollectionFunc.ArrayCreateScalar | src/expr/src/scalar/func.rs:4941-4957 | the array holds exactly the arguments, with one dimension of lower bound 1 and their count, or zero dimensions when there are none |
| CollectionFunc.FlattenUniform | src/expr/src/scalar/func.rs:4928-4930 | concatenating the elements of `n` well-formed arrays of the same dimensions gives `n` times their element count |
| CollectionFunc.ArrayCreateMultidim | src/expr/src/scalar/func.rs:4908-4936 | all zero-dimensional inputs give the zero-dimensional array; otherwise the new outer dimension `(1, n)` goes in front of the first input's dimensions and the elements are concatenated; the packed array's element count always matches its dimensions, and the only error is `InvalidArrayCardinality` |
| CollectionFunc.ArrayCreateMultidimUniform | src/expr/src/scalar/func.rs:4897-4906 | well-formed input arrays of equal dimensions always pack without error |
| CollectionFunc.ListCreate | src/expr/src/scalar/func.rs:4990-4992 | the list has as many elements as arguments, each at its argument's position |
| CollectionFunc.MapContainsKey | src/expr/src/scalar/func.rs:1789-1793 | holds exactly when some entry has the key |
| CollectionFunc.MapContainsAllKeys | src/expr/src/scalar/func.rs:1795-1803 | holds exactly when every key of the array is non-Null and a key of the map |
| CollectionFunc.MapContainsAnyKeys | src/expr/src/scalar/func.rs:1805-1813 | holds exactly when some key of the array is non-Null and a key of the map |
| CollectionFunc.MapContainsMap | src/expr/src/scalar/func.rs:1815-1825 | holds exactly when every entry of the right map, key and value, is an entry of the left map |
| CollectionFunc.MapContainsMapLookup | src/expr/src/scalar/func.rs:1815-1825 | on a map with distinct keys, containment means each key of the right map looks up to the same value in the left map |
| CollectionFunc.MapGetValue | src/expr/src/scalar/func.rs:1827-1833 | an absent key gives Null; a present key gives the value of its first entry |
| CollectionFunc.CastJsonbToBool | src/expr/src/scalar/func.rs:769-777 | only a jsonb boolean casts, to itself; anything else is `InvalidJsonbCast` naming its jsonb type and "boolean" |
| CollectionFunc.CastJsonbOrNullToJsonb | src/expr/src/scalar/func.rs:685-701 | SQL Null becomes jsonb null, and every other modelled value passes through; the result is never SQL Null |
| CollectionFunc.JsonbArrayLength | src/expr/src/scalar/func.rs:2481-2486 | a jsonb array gives its element count; any other value gives Null |
| CollectionFunc.JsonbTypeof | src/expr/src/scalar/func.rs:2488-2500 | Null exactly for SQL Null; otherwise one of the six jsonb type names, agreeing with the cast error's type name except that a number is "number" |
| CollectionFunc.JsonbContainsString | src/expr/src/scalar/func.rs:1778-1787 | an array contains the string as an element, an object as a key, a string by equality, and nothing else contains it |
| CollectionFunc.JsonbConcat | src/expr/src/scalar/func.rs:1894-1917 | two objects merge into an object; two arrays concatenate; an array and a non-array append or prepend it; anything else is Null |
| CollectionFunc.JsonbConcatObjects | src/expr/src/scalar/func.rs:1896-1901 | the merged object has strictly ascending keys, each key of either operand exactly once, and the right-hand value wins a collision |
| CollectionFunc.JsonbBuildArray | src/expr/src/scalar/func.rs:4872-4879 | Null exactly when some argument is Null, otherwise the array of the arguments |
| CollectionFunc.AnyNull | src/expr/src/scalar/func.rs:4873 | holds exactly when some argument is Null |
| CollectionFunc.Pairs | src/expr/src/scalar/func.rs:4886 | `chunks(2)` pairs each even-position key with the value after it |
| CollectionFunc.JsonbBuildObject | src/expr/src/scalar/func.rs:4881-4895 | Null exactly when some argument is Null, otherwise an object |
| CollectionFunc.JsonbBuildObjectFirstWins | src/expr/src/scalar/func.rs:4886-4892 | the built object has strictly ascending keys, and each key maps to the value of its first pair among the arguments |
| CollectionFunc.JsonbDeleteInt64 | src/expr/src/scalar/func.rs:1919-1938 | on an array, the element at the index (counted from the end when negative) is removed and an index outside the array removes nothing; any other value gives Null |
| CollectionFunc.WithoutIndex | src/expr/src/scalar/func.rs:1929-1933 | the enumerate-and-filter keeps every element except the one at the given position |
| CollectionFunc.JsonbDeleteString | src/expr/src/scalar/func.rs:1940-1953 | on an array, the result's elements are the input's with every occurrence of the string dropped, every other element kept as often as it occurs and in its order; on an object, the entries are those with another key, each kept as often as it occurs and in order, every other key looks up as before, the key is gone, and sorted keys stay sorted; any other value gives Null |
| CollectionFunc.RemoveDatum | src/expr/src/scalar/func.rs:1943 | the filtered elements are exactly those of the list different from the datum |
| CollectionFunc.RemoveDatumKeeps | src/expr/src/scalar/func.rs:1943 | the filter's result is the list with every occurrence of the datum removed: each other element kept as often as it occurs (multiset equality) and in its order (a subsequence) |
| CollectionFunc.RemoveKey | src/expr/src/scalar/func.rs:1948 | the filtered entries are exactly the entries with another key, and they look up as before except that the key is gone |
| CollectionFunc.RemoveKeyKeeps | src/expr/src/scalar/func.rs:1948 | the key filter keeps each entry with another key as often as it occurs and in its order, and strictly sorted keys stay strictly sorted |
| CollectionFunc.RemoveKeyCounts | src/expr/src/scalar/func.rs:1948 | each entry with another key occurs in the filter's result as often as in the input, and no entry with the key does |
| CollectionFunc.RemoveKeyOrder | src/expr/src/scalar/func.rs:1948 | the key filter's result is a subsequence of the input |
| CollectionFunc.RemoveKeySorted | src/expr/src/scalar/func.rs:1948 | the key filter keeps strictly ascending keys strictly ascending |
| DateArith.DaysInMonth | src/expr/src/scalar/func.rs:1111-1116 | every month of the Gregorian calendar has 28 to 31 days, the bound the day-walking loop relies on |
| DateArith.AddMonths | src/expr/src/scalar/func.rs:1089-1124 | the intended month arithmetic: the result is a valid date exactly `months` months after the input's month, its day is the input's day clamped to the target month's length, and the time of day is kept |
| DateArith.AddMonthsZero | src/expr/src/scalar/func.rs:1090-1092 | adding zero months returns the timestamp unchanged |
| DateArith.MonthIndexUnique | src/expr/src/scalar/func.rs:1096-1108 | a month count since year 0 determines the year and the month |
| DateArith.AddMonthsCompose | src/expr/src/scalar/func.rs:1089-1124 | when no day is clamped, adding `a` months and then `b` months equals adding `a + b` months |
| DateArith.AddMonthsExamples | src/expr/src/scalar/func.rs:5689-5721 | the unit test's cases, including the year borrow for negative counts and the clamping of 31 December to 29 February in a leap year and 28 February otherwise |
| DateArith.FromYmdOpt | src/expr/src/scalar/func.rs:1111 | a year, month and day form a date exactly when the year is in chrono's range (−262144 to 262143), the month is 1 to 12 and the day exists in that month |
| DateArith.AddTimestampMonths | src/expr/src/scalar/func.rs:1089-1124 | the source's steps (truncating division and remainder by 12, the year borrow for a negative remainder, the carry into the year, the loop that walks the day down until the date exists) compute exactly `AddMonths`, a timestamp chrono represents, for every 32-bit month count whose target year chrono represents |
| DateArith.AddMonthsNoDate | src/expr/src/scalar/func.rs:1111-1116 | when the target year is outside chrono's range, `from_ymd_opt` fails for every day, so the day-walking loop finds no date |
| DateArith.AddMonthsNoDateExample | src/expr/src/scalar/func.rs:1089-1116 | adding 12000000 months, a valid `i32`, to 2000-01-01 lands in year 1002000, where no day forms a date |
| DateArith.CheckedAddTimestampMonths | src/expr/src/scalar/func.rs:1089-1124 | fails with a timestamp-out-of-range error exactly when the target year is outside chrono's range, and otherwise returns `AddMonths` |
| Datums.Nth | src/expr/src/scalar/func.rs:4684 | `nth(n)` yields the element at position `n` when there is one and nothing past the end |
| DatumOrder.StrTotalOrder | src/expr/src/scalar/func.rs:1899 | the comparison of text keys used to sort map entries is reflexive, antisymmetric, total and transitive |
| DatumOrder.CmpEqual | src/expr/src/scalar/func.rs:1649-1655 | two datums compare Equal exactly when they are the same datum, so `=` agrees with the ordering |
| DatumOrder.CmpTrans | src/expr/src/scalar/func.rs:1657-1671 | the datum ordering behind `<`, `<=`, `>` and `>=` is transitive, across kinds and within arrays, lists and maps |
| DatumOrder.CmpTag | src/expr/src/scalar/func.rs:1657-1671 | datums of different kinds compare by the rank of their kinds, with SQL null greatest |
| DatumOrder.DatumTotalOrder | src/expr/src/scalar/func.rs:1657-1671 | `<=` on datums is reflexive, total, antisymmetric and transitive |
| DatumOrder.RowTotalOrder | src/expr/src/relation/func.rs:529-531 | the lexicographic comparison of whole rows, the ORDER BY tie-break, is a total order that is Equal only on equal rows |
| OrderBy.CompareColumnsFlip | src/expr/src/relation/func.rs:526-532 | comparing by the ORDER BY columns with the operands swapped gives the flipped answer |
| OrderBy.CompareColumnsTrans | src/expr/src/relation/func.rs:526-532 | the column-by-column comparison is transitive, and the composite is Equal only when both steps are |
| OrderBy.CompareRowsOrder | src/expr/src/relation/func.rs:526-532 | the ORDER BY comparison with the whole-row tie-break is antisymmetric, Equal exactly on equal rows, and transitive |
| OrderBy.RowLeOrder | src/expr/src/relation/func.rs:526-533 | the comparator handed to the sort is a total preorder, so sorting by it is well defined |
| Sorting.Insert | src/expr/src/relation/func.rs:533 | inserting one element into a sequence keeps every element and adds exactly that one |
| Sorting.SortBy | src/expr/src/relation/func.rs:533 | the stable sort is a permutation of its input |
| Sorting.InsertSorted | src/expr/src/relation/func.rs:533 | inserting into a sorted sequence keeps it sorted |
| Sorting.SortBySorted | src/expr/src/relation/func.rs:526-533 | the result of sorting by a total preorder is sorted by it |
| Sorting.Class | src/expr/src/relation/func.rs:497-499 | the elements ranked equal to a given one are drawn from the sequence |
| Sorting.SortByStable | src/expr/src/relation/func.rs:497-500 | sorting keeps the relative order of elements that rank equal, which is what preserves the ORDER BY order among equal keys |
| Sorting.Reverse | src/expr/src/relation/func.rs:501 | `reverse` puts element `i` at position `n - 1 - i` |
| Sorting.ClassReverse | src/expr/src/relation/func.rs:501-503 | reversing a sequence reverses the order within each class of equal-ranked elements |
| EntrySort.DedupFirst | src/expr/src/scalar/func.rs:1900 | `dedup_by` on keys keeps a subsequence of the entries |
| EntrySort.DedupFirstDistinct | src/expr/src/scalar/func.rs:1900 | on entries grouped by key, `dedup_by` leaves distinct keys and every key still finds its first value |
| EntrySort.DedupFirstSorted | src/expr/src/scalar/func.rs:1900 | `dedup_by` keeps a sorted sequence sorted |
| EntrySort.SortDedupFirst | src/expr/src/scalar/func.rs:1896-1900 | stable sort by key followed by `dedup_by` yields strictly ascending keys, and each key maps to its first value in the input (so in `jsonb_concat` the right operand's value wins) |
| EntrySort.SortDedupLast | src/expr/src/relation/func.rs:494-504 | stable sort by key, reverse, dedup, reverse yields strictly ascending keys, and each key maps to its last value in ORDER BY order, as `jsonb_object_agg` requires |
| Aggregate.NonNull | src/expr/src/relation/func.rs:387-393 | the Null filter the aggregates apply keeps only non-Null inputs, each drawn from the group |
| Aggregate.NonNullKeeps | src/expr/src/relation/func.rs:387-393 | the Null filter keeps every non-Null input as often as it occurs (multiset equality with the Nulls removed) and in its order |
| Aggregate.ExtremeSpec | src/expr/src/relation/func.rs:36-302 | the Null-ignoring extreme is Null exactly when every input is Null, is otherwise one of the inputs, and bounds every non-Null input |
| Aggregate.Keyeds | src/expr/src/relation/func.rs:517-524 | each input list is split into its value and the row of its ORDER BY columns, position by position |
| Aggregate.Items | src/expr/src/relation/func.rs:534 | dropping the ORDER BY rows after the sort keeps the sorted values in order |
| Aggregate.OrderAggregateSpec | src/expr/src/relation/func.rs:510-535 | `order_aggregate_datums` yields the values of a permutation of the inputs, sorted by the ORDER BY comparison, with inputs of equal ORDER BY rows kept in input order |
| Aggregate.OrderedAccepted | src/expr/src/relation/func.rs:517-524 | every sorted value is the value of some input, so it has the shape the aggregate expects |
| Aggregate.JoinSepValues | src/expr/src/relation/func.rs:441-454 | `string_agg` is Null exactly when no non-Null value remains |
| Aggregate.JoinSepValuesUniform | src/expr/src/relation/func.rs:441-454 | with one separator throughout, `string_agg` joins the values with that separator, the first value unprefixed |
| Aggregate.StringAggLoop | src/expr/src/relation/func.rs:421-455 | the loop skips Null inputs and Null values, reads a Null separator as the empty string, pushes the first value bare and every later one after its own separator, and yields Null when nothing was pushed |
| Aggregate.MinMaxSpec | src/expr/src/relation/func.rs:36-302 | every min and max aggregate ignores Nulls, is Null exactly when no non-Null input exists, and otherwise returns an input that is the least or greatest of the non-Null inputs |
| Aggregate.MaxIntSpec | src/expr/src/relation/func.rs:48-82 | `max_int*` is the numeric maximum of the non-Null integer inputs |
| Aggregate.SumSpec | src/expr/src/relation/func.rs:304-341 | a sum is Null exactly when every input is Null, and 16- and 32-bit sums of up to 2^32 inputs fit the 64-bit accumulator |
| Aggregate.CountSpec | src/expr/src/relation/func.rs:387-393 | `count` is the number of inputs minus the number of Nulls among them |
| Aggregate.FoldAny | src/expr/src/relation/func.rs:395-406 | the `any` fold from any truth value is Kleene's disjunction of that value and the inputs |
| Aggregate.FoldAll | src/expr/src/relation/func.rs:408-419 | the `all` fold from any truth value is Kleene's conjunction of that value and the inputs |
| Aggregate.AnyAllSpec | src/expr/src/relation/func.rs:395-419 | `any` is True if an input is True, else Null if one is Null, else False; `all` is the dual |
| Aggregate.EvalEmpty | src/expr/src/relation/func.rs:687-695 | on an empty group the order-insensitive aggregates and `string_agg` give `default()`, while the collection aggregates give their empty collection |
| Aggregate.IdentityNeutral | src/expr/src/relation/func.rs:697-708 | inserting `identity_datum()` anywhere into a group leaves every order-insensitive aggregate's result unchanged |
| Aggregate.NullNeutral | src/expr/src/relation/func.rs:706 | a Null input changes no Null-ignoring aggregate |
| Aggregate.JsonbObjectAggSpec | src/expr/src/relation/func.rs:467-506 | `jsonb_object_agg` drops Null inputs and Null keys, yields strictly ascending keys, and maps each key to its last value in ORDER BY order |
| Aggregate.OutputType | src/expr/src/relation/func.rs:715-745 | `count`'s output is never nullable and every other aggregate's output is nullable exactly when its input is; `array_concat` and `list_concat` need a record input with a first field |
| Aggregate.CountNeverNull | src/expr/src/relation/func.rs:738-744 | `count` never yields Null, in agreement with its output type |
| TableFunc.Stringify | src/expr/src/scalar/func.rs:677-683 | JSON null becomes SQL Null, a JSON string is kept, and every other value becomes text |
| TableFunc.EachRows | src/expr/src/relation/func.rs:789-806 | `jsonb_each` yields one `(key, value)` row per entry, in entry order, each once, the value stringified when asked |
| TableFunc.KeyRows | src/expr/src/relation/func.rs:808-816 | `jsonb_object_keys` yields one key row per entry, in entry order, each once |
| TableFunc.ElementRows | src/expr/src/relation/func.rs:818-833 | `jsonb_array_elements` and the unnest functions yield one single-column row per element, in order, each once |
| TableFunc.SeriesSpec | src/expr/src/relation/func.rs:860-861 | the inclusive stepped range holds exactly `start + i * step` for consecutive `i`, every value between `start` and `stop`, and the next step would pass `stop` |
| TableFunc.SeriesRows | src/expr/src/relation/func.rs:860-861 | each series value becomes a one-column row of the bounds' width with multiplicity one |
| TableFunc.Eval | src/expr/src/relation/func.rs:1003-1047 | any Null argument gives no rows; every row has `output_arity()` columns; every table function but `repeat` yields each row with multiplicity one |
| TableFunc.OutputArity | src/expr/src/relation/func.rs:1085-1098 | the declared arity equals the number of columns of `output_type()` for every variant |
| TableFunc.GenerateSeriesSpec | src/expr/src/relation/func.rs:846-862 | `generate_series` fails exactly when the step is zero and otherwise yields `start, start + step, …` through `stop` inclusive, each once |
| TableFunc.SeriesInRange | src/expr/src/relation/func.rs:846-862 | every value of a series lies between the bounds, so it fits their width and no step overflows inside the range |
| TableFunc.RepeatSpec | src/expr/src/relation/func.rs:978-985 | `repeat(n)` yields the empty row with multiplicity `n` when `n` is not zero and nothing when it is |
| TableFunc.UnnestSpec | src/expr/src/relation/func.rs:871-875 | `unnest` of a list yields each element once, in order, as a one-column row |
| TableFunc.JsonbEachSpec | src/expr/src/relation/func.rs:789-806 | `jsonb_each` of an object yields one row per entry with the key first and multiplicity one, and of any other value yields nothing |
| ConstantRows.RowLtFacts | src/transform/src/reduction.rs:395 | the row order `rows.sort()` uses is irreflexive, total on distinct rows, asymmetric and transitive |
| ConstantRows.AddToCanonical | src/transform/src/reduction.rs:388-395 | adding one update to a consolidated collection keeps it consolidated |
| ConstantRows.AddToSum | src/transform/src/reduction.rs:390 | adding an update raises exactly its own row's total by its diff |
| ConstantRows.CanonicalSum | src/transform/src/reduction.rs:388-395 | in a consolidated collection a row's total multiplicity is its single diff |
| ConstantRows.Consolidate | src/transform/src/reduction.rs:382-395 | the closing consolidation yields rows in strictly ascending order, none with diff zero, each with the total diff it has in the input |
| ConstantRows.ConsolidationUnique | src/transform/src/reduction.rs:388-395 | two consolidated collections with the same total per row are equal, so the result does not depend on the hash map's iteration order |
| ConstantRows.ConsolidatedFixpoint | src/transform/src/reduction.rs:378-395 | consolidating an already consolidated constant changes nothing |
| ConstantRows.Renullable | src/transform/src/reduction.rs:397-407 | after the re-derivation a column is nullable exactly when some row holds Null in it, and the keys and scalar types are kept |
| ConstantRows.Negated | src/transform/src/reduction.rs:104-106 | negation keeps the number of updates |
| ConstantRows.NegatedSum | src/transform/src/reduction.rs:101-110 | negation turns every row's total multiplicity into its opposite |
| ConstantRows.NegatedTwice | src/transform/src/reduction.rs:101-110 | negating twice gives back the collection |
| ConstantRows.NegateRows | src/transform/src/reduction.rs:104-106 | the in-place loop multiplies every diff by -1 and changes nothing else |
| ConstantRows.KeepCount | src/transform/src/reduction.rs:119 | `retain` keeps every element satisfying the predicate exactly as often as in the input and drops the rest |
| ConstantRows.KeepAll | src/transform/src/reduction.rs:213 | retaining with a predicate every element satisfies changes nothing |
| ConstantRows.ThresholdSpec | src/transform/src/reduction.rs:116-123 | Threshold keeps exactly the updates with a positive diff, each as often as in the input |
| ConstantRows.ExtendRowSpec | src/transform/src/reduction.rs:153-159 | an extended row starts with the input row and holds one further value per scalar, each the scalar's value on the columns before it |
| ConstantRows.ExtendRowLoop | src/transform/src/reduction.rs:154-158 | the push loop computes the extended row, stopping at the first evaluation error |
| ConstantRows.ErrorPersists | src/transform/src/reduction.rs:156-158 | once a scalar fails, the remaining scalars do not change the error |
| ConstantRows.MapRows | src/transform/src/reduction.rs:148-163 | Map keeps every diff and extends every row, and fails only with the error of some row |
| ConstantRows.MapLoop | src/transform/src/reduction.rs:150-161 | the loop over the rows computes `MapRows`, with the first failing row's error |
| ConstantRows.PassesSpec | src/transform/src/reduction.rs:532-536 | a row passes exactly when every predicate evaluates to True on it |
| ConstantRows.FilterSpec | src/transform/src/reduction.rs:524-540 | the filter fails exactly when some row's predicates fail, and otherwise keeps exactly the updates whose row passes, each as often as in the input |
| ConstantRows.FilterStep | src/transform/src/reduction.rs:529-538 | the first row is kept when it passes, its error is the result when it fails, and the rest follows |
| ConstantRows.FilterLoop | src/transform/src/reduction.rs:524-540 | the nested loops with `continue 'outer` compute `FilterRows` |
| ConstantRows.ProjectRow | src/transform/src/reduction.rs:246-248 | a projected row holds the datums at the output indices, and fails exactly when an index lies past the row |
| ConstantRows.ProjectRows | src/transform/src/reduction.rs:239-258 | Project maps each row to its output columns, keeps each diff, and fails exactly when some row is too short |
| ConstantRows.PairIndex | src/transform/src/reduction.rs:302-308 | one old row joined with each new row in turn: the rows concatenated, the counts multiplied |
| ConstantRows.CrossLength | src/transform/src/reduction.rs:300-309 | the product of two collections has the product of their sizes |
| ConstantRows.CrossAt | src/transform/src/reduction.rs:300-309 | position `i * n + j` of the product holds row `i` of the first joined with row `j` of the second |
| ConstantRows.CrossIndex | src/transform/src/reduction.rs:300-309 | the product holds exactly the pairs of rows in row-major order, concatenated with multiplied counts |
| ConstantRows.CrossUnit | src/transform/src/reduction.rs:288 | the single empty row with count one is the unit the join starts from |
| ConstantRows.ProductLimit | src/transform/src/reduction.rs:292-298 | without a limit the product never gives up, and with one it either gives up or equals the unlimited product |
| ConstantRows.ProductOfTwo | src/transform/src/reduction.rs:286-312 | the unlimited join of two constants is their cross product |
| ConstantRows.ProductStep | src/transform/src/reduction.rs:290-311 | one input step: give up when the old rows times the input's rows exceed the limit, else continue from their product |
| ConstantRows.JoinProduct | src/transform/src/reduction.rs:286-312 | the loop over the inputs computes the product of all inputs from the empty row, or None when a step exceeds the limit |
| ConstantRows.CrossLoop | src/transform/src/reduction.rs:300-309 | the two inner loops compute the cross product |
| ConstantRows.JoinFilterSpec | src/transform/src/reduction.rs:314-327 | the equivalence filter keeps exactly the joined rows on which every class evaluates to one value, each as often as produced, and keeps all rows when there are no classes |
| ConstantRows.Combine | src/transform/src/reduction.rs:511-514 | each output row of the table function becomes one update |
| ConstantRows.FlatMapLimit | src/transform/src/reduction.rs:495-519 | the limit only makes the fold give up: within it the result is the unlimited one, and it gives up exactly when the unlimited result is larger |
| ConstantRows.FlatMapGrows | src/transform/src/reduction.rs:499-521 | without a limit the fold never gives up and never drops gathered rows |
| ConstantRows.CallTableShape | src/transform/src/reduction.rs:502-510 | the table function's rows have its arity, and multiplicity one when it preserves monotonicity |
| ConstantRows.FlatMapShape | src/transform/src/reduction.rs:499-521 | every row the fold adds is an input row extended by the table function's arity, with a positive diff when inputs are positive and the function preserves monotonicity |
| ConstantRows.FlatMapStep | src/transform/src/reduction.rs:499-520 | one input row: its evaluation error stops the fold, output past the limit gives up, else its rows are gathered |
| ConstantRows.CombineShape | src/transform/src/reduction.rs:511-514 | the rows one input update contributes are shaped like the fold's output |
| ConstantRows.AppendWithin | src/transform/src/reduction.rs:511-519 | the take-limited loop appends the input row's output rows when they fit and reports a left-over row exactly when they do not |
| ConstantRows.FlatMapRow | src/transform/src/reduction.rs:500-519 | the body of the loop for one input row agrees with one step of the fold |
| ConstantRows.FlatMapLoop | src/transform/src/reduction.rs:489-522 | `fold_flat_map_constant` computes the fold from no rows: the first error, None when the limit is exceeded, or all gathered rows |
| ConstantRows.AggExprs | src/transform/src/reduction.rs:440-446 | the aggregates' argument expressions, in aggregate order |
| ConstantRows.EvalAllLength | src/transform/src/reduction.rs:436-439 | evaluating a list of expressions yields one value per expression |
| ConstantRows.Contributions | src/transform/src/reduction.rs:425-446 | on success every row has a positive diff, its key and aggregate arguments are their evaluations, and its copy count is its diff; a non-positive diff anywhere is an error |
| ConstantRows.ContributionsStep | src/transform/src/reduction.rs:429-446 | per row: the multiplicity check first, then the key, then the arguments, each failure being the result |
| ConstantRows.Copies | src/transform/src/reduction.rs:448-450 | `diff` pushes of the same value |
| ConstantRows.PushCopies | src/transform/src/reduction.rs:448-450 | the push loop produces exactly `n` copies of the value |
| ConstantRows.AddGroupSpec | src/transform/src/reduction.rs:447-450 | `entry(key).or_insert_with` plus the pushes keeps keys ascending, adds the key, and appends the values under that key only |
| ConstantRows.GroupedSnoc | src/transform/src/reduction.rs:425-451 | processing one more row adds its copies under its key |
| ConstantRows.GroupedSpec | src/transform/src/reduction.rs:422-451 | the group map has one entry per distinct key, keys ascending, holding exactly the arguments of the rows with that key, in row order and with their multiplicities |
| ConstantRows.Dedup | src/transform/src/reduction.rs:466-471 | a distinct aggregate sees each value of its column exactly once |
| ConstantRows.AggResults | src/transform/src/reduction.rs:464-481 | each aggregate is evaluated over its own argument column of the group |
| ConstantRows.OutputRows | src/transform/src/reduction.rs:458-485 | one output row per group, its key followed by its aggregate results, with diff one |
| ConstantRows.ReduceSpec | src/transform/src/reduction.rs:414-487 | a reduction yields one row per distinct key, ascending, with diff one: the key followed by each aggregate over exactly the arguments of the rows with that key |
| ConstantRows.ReduceLoop | src/transform/src/reduction.rs:414-487 | `fold_reduce_constant`'s loops compute `ReduceRows` |
| Reduction.RetainedSpec | src/transform/src/reduction.rs:213 | dropping literal True predicates keeps every other predicate as often as before |
| Reduction.EvaluationOrderSpec | src/transform/src/reduction.rs:227-228 | the stable sort by `is_literal_err` is a permutation that puts literal errors last and keeps the order within each class |
| Reduction.FirstError | src/transform/src/reduction.rs:266-269 | there is no error to report exactly when no input is an error constant |
| Reduction.RowsOf | src/transform/src/reduction.rs:352-360 | the rows of each constant input |
| Reduction.ConstRowsSum | src/transform/src/reduction.rs:352-360 | concatenating the constant inputs' rows sums each row's multiplicities |
| Reduction.NonConstEmpty | src/transform/src/reduction.rs:352-360 | when every input is a constant, no input is kept aside |
| Reduction.FoldUnion | src/transform/src/reduction.rs:336-370 | the Union arm computes the folded union: the first error constant, or the other inputs followed by one constant holding all constant rows |
| Reduction.UnlimitedFoldsConstants | src/transform/src/reduction.rs:89-370 | without a limit every operator whose inputs are constants folds to a constant |
| Reduction.FlatMapFolds | src/transform/src/reduction.rs:186-206 | without a limit a FlatMap of a constant folds to a constant |
| Reduction.JoinFolds | src/transform/src/reduction.rs:259-335 | without a limit a Join of constants folds to a constant |
| Reduction.UnionFolds | src/transform/src/reduction.rs:336-370 | a Union of constants folds to a constant |
| Reduction.NegateTwice | src/transform/src/reduction.rs:101-110 | folding Negate twice over a constant gives the constant back |
| Reduction.UnionOfConstants | src/transform/src/reduction.rs:336-370 | the union of constants is a constant whose every row has the summed multiplicity of the inputs |
| Reduction.FoldArm | src/transform/src/reduction.rs:62-376 | the per-operator fold computes `Folded` |
| Reduction.FoldReduce | src/transform/src/reduction.rs:66-99 | the Reduce arm folds a constant input by `fold_reduce_constant` and passes an error constant on |
| Reduction.FoldNegate | src/transform/src/reduction.rs:101-110 | the Negate arm replaces the node by its constant input with negated diffs |
| Reduction.FoldMap | src/transform/src/reduction.rs:124-169 | the Map arm folds a constant input row by row and passes an error constant on |
| Reduction.FoldFilter | src/transform/src/reduction.rs:208-238 | the Filter arm empties on a literal False or Null predicate and otherwise filters a constant input |
| Reduction.FoldFlatMap | src/transform/src/reduction.rs:170-207 | the FlatMap arm folds a constant input unless the limit is exceeded |
| Reduction.FoldJoin | src/transform/src/reduction.rs:259-335 | the Join arm: empty on an empty input, the first error constant, or the filtered product unless the limit is exceeded |
| Reduction.Action | src/transform/src/reduction.rs:56-412 | an Ok constant result is consolidated and its column nullability re-derived from its rows; any other result is left as folded; a constant already consolidated keeps its rows |
| RelationExpr.Empty | src/transform/src/reduction.rs:225 | the constant with no rows is empty |
| RelationExpr.UnionMany | src/transform/src/reduction.rs:368 | `union_many` of no input is empty, of one input is that input, and otherwise a Union of exactly the inputs |
| InlineLet.ChildrenMeasures | src/transform/src/inline_let.rs:105 | the children `visit1_mut` visits are smaller than their parent, and hold all its Let nodes but the parent's own |
| InlineLet.WithChildrenMeasures | src/transform/src/inline_let.rs:105 | rewriting the children in place keeps the node's own kind, so the Let count is the children's plus its own |
| InlineLet.WithOwnChildren | src/transform/src/inline_let.rs:105 | putting a node's own children back changes nothing |
| InlineLet.SubstSeq | src/transform/src/inline_let.rs:90-95 | substitution maps each child |
| InlineLet.SubstLetCount | src/transform/src/inline_let.rs:90-95 | replacing Gets by a Let-free value adds no Let node |
| InlineLet.SubstRemovesGets | src/transform/src/inline_let.rs:90-95 | after the replacement no Get of the inlined id remains |
| InlineLet.SubstAbsent | src/transform/src/inline_let.rs:90-95 | replacing the Gets of an id the body does not use changes nothing |
| InlineLet.Inline | src/transform/src/inline_let.rs:62-107 | the rewrite removes every Let node; lifted bindings only ever get appended, are themselves Let-free, and number at most the Lets removed; a Let-free relation is left alone |
| InlineLet.InlineSeq | src/transform/src/inline_let.rs:105 | the rewrite of the children, left to right, removes every Let node in them and only appends to the lifted bindings |
| InlineLet.LiftOrder | src/transform/src/inline_let.rs:96-103 | a binding that is not inlined is appended after the bindings lifted from its own value, and the rewrite continues with its body |
| InlineLet.InlinedGetsGone | src/transform/src/inline_let.rs:83-103 | a binding whose stripped value is a Get or a Constant, or whose id the body uses at most once, is substituted into the body and leaves no Get of its id behind |
| InlineLet.Action | src/transform/src/inline_let.rs:62-107 | the in-place rewrite computes `Inline`: it returns the rewritten relation and the lifted bindings |
| InlineLet.ActionSeq | src/transform/src/inline_let.rs:105 | the in-place rewrite of every child computes `InlineSeq` |
| InlineLet.NestLetsOnTop | src/transform/src/inline_let.rs:43-49 | rewrapping Let-free bindings around a Let-free body leaves only Let nodes at the top, one per binding |
| InlineLet.Transform | src/transform/src/inline_let.rs:36-51 | `transform` rewraps the lifted bindings so that the first-lifted is the outermost, all Lets end on top, no Let is added, and a Let-free relation is unchanged |
| Repr.Nullable | src/repr/src/relation.rs:112-115 | `nullable(n)` keeps the scalar type and sets the nullability to `n` |
| Repr.BaseEqRefl | src/repr/src/relation.rs:53 | every scalar type is base-equal to itself |
| Repr.UnionAsWritten | src/repr/src/relation.rs:51-108 | the union as written, with `zip` over the record fields: when it succeeds its nullability is the OR of both |
| Repr.UnionZip | src/repr/src/relation.rs:80-91 | the field loop as written yields as many fields as the shorter record has |
| Repr.UnionDropsFields | src/repr/src/relation.rs:80 | as written, the union of a one-field record with a two-field record of the same first field succeeds and silently drops the second field |
| Repr.Union | src/repr/src/relation.rs:51-108 | base-equal types unite to that type with the OR of the nullabilities; records need the same custom oid and name and field names and unite field by field; any other pair is an error |
| Repr.UnionFields | src/repr/src/relation.rs:79-91 | the fields unite pairwise keeping their names, each nullable when either side is, and records of different lengths do not unite |
| Repr.UnionSelf | src/repr/src/relation.rs:51-58 | a type united with itself is itself |
| Repr.UnionAgrees | src/repr/src/relation.rs:51-108 | on records of equal lengths, at every nesting level, the union as written and the corrected union agree |
| Repr.SortKey | src/repr/src/relation.rs:155 | `sort_unstable` yields the same indices in ascending order |
| Repr.SortedUnique | src/repr/src/relation.rs:155 | two ascending orderings of the same indices are equal, so an unstable sort has one result |
| Repr.WithKey | src/repr/src/relation.rs:154-160 | `with_key` keeps the column types, stores the key sorted, and appends it only when it is not already a key |
| Repr.WithKeyIdempotent | src/repr/src/relation.rs:154-160 | adding the same key twice, in any order of its indices, equals adding it once |
| Repr.WithKeyDistinct | src/repr/src/relation.rs:154-160 | `with_key` never adds a duplicate key |
| Repr.DefaultKey | src/repr/src/relation.rs:175-185 | `default_key` is the first key when it is not empty, and otherwise, also with no keys, all column indices in order |
| Repr.AllColumns | src/repr/src/relation.rs:178 | the indices `0..n` in order |
| Repr.NewDesc | src/repr/src/relation.rs:285-293 | a description from a type and one name per column holds both |
| Repr.DescWithKey | src/repr/src/relation.rs:337-340 | adding a key to a description adds it to its type and keeps the names |
| Repr.WithColumn | src/repr/src/relation.rs:319-326 | `with_column` appends one name and one column type, keeps everything before them, and keeps the keys |
| Repr.WithoutKeys | src/repr/src/relation.rs:343-346 | `without_keys` drops every key and keeps names and columns |
| Repr.ShiftKey | src/repr/src/relation.rs:312 | each index of a key is shifted by the left side's arity |
| Repr.AddShiftedKeysContains | src/repr/src/relation.rs:311-314 | the loop keeps every key of the left side and adds every shifted key of the right side |
| Repr.Concat | src/repr/src/relation.rs:307-316 | the arity is the sum of both; names and columns are appended in order; every key of the left side is kept, and every key of the right side, shifted by the left's original arity and sorted by `with_key`, is among the keys (`with_key` drops one already present) |
| Repr.GetByName | src/repr/src/relation.rs:393-397 | `get_by_name` returns the leftmost column with that name, with its type, and nothing when no column has it |
| Repr.PositionOf | src/repr/src/relation.rs:394-395 | `position` finds the leftmost occurrence, or none |
| Repr.CountOf | src/repr/src/relation.rs:418 | the count of a name is zero exactly when it does not occur |
| Repr.GetUnambiguousName | src/repr/src/relation.rs:416-423 | a column's name is returned exactly when it has one and no other column shares it |
| Repr.ConstraintsMet | src/repr/src/relation.rs:429-436 | the constraint check fails exactly on a Null in a column that is not nullable, naming that column |
| Sessions.NewTransaction | src/coord/src/session.rs:94-98 | a fresh transaction has no operations, holds no write lock and records the wall time in its plan context |
| Sessions.IntoOps | src/coord/src/session.rs:489-496 | the operations are present exactly when the status is Started, InTransaction or InTransactionImplicit, and are then the transaction's own |
| Sessions.Inner | src/coord/src/session.rs:499-507 | every status except Default exposes its transaction, including Failed |
| Sessions.IsImplicit | src/coord/src/session.rs:511-518 | implicit means Started or InTransactionImplicit; an implicit status is always active |
| Sessions.AfterStart | src/coord/src/session.rs:91-107 | starting always yields an explicit InTransaction; an implicit transaction is kept with its operations, Default and Started get a fresh one; Failed is excluded as the source's unreachable arm |
| Sessions.AfterStartImplicit | src/coord/src/session.rs:111-125 | only a Default status changes: one statement gives Started, more give InTransactionImplicit, zero leaves it Default |
| Sessions.AfterFail | src/coord/src/session.rs:146-157 | failing keeps the transaction and marks it Failed; a Default status is excluded as the source's unreachable arm |
| Sessions.MergeOps | src/coord/src/session.rs:170-187 | no ops accept anything; peeks accept only peeks, a tail accepts nothing, writes accept only writes and are appended, each refusal with its own error |
| Sessions.WithOps | src/coord/src/session.rs:167-171 | replacing the operations keeps the plan context, the write lock and the kind of status |
| Sessions.StartIdempotent | src/coord/src/session.rs:91-107 | starting an explicit transaction twice is the same as starting it once |
| Sessions.FailSpec | src/coord/src/session.rs:146-157 | failing is idempotent, keeps the inner transaction and makes its operations unavailable |
| Sessions.ImplicitThenExplicit | src/coord/src/session.rs:91-125 | an implicit start with at least one statement is implicit, and a later explicit start turns it into InTransaction still without operations |
| Sessions.MergeAgree | src/coord/src/session.rs:172-175 | merging whose peeks share one timestamp keeps the remaining peeks in agreement with the merged result |
| Sessions.MergeAllNoMixing | src/coord/src/session.rs:166-193 | after any successful run of merges every non-empty operation added is of one kind with the final result: reads and writes never mix |
| Sessions.MergeAllWrites | src/coord/src/session.rs:179-182 | merging only writes succeeds and concatenates all writes in order |
| Sessions.SplitParams | src/coord/src/session.rs:277-280 | a portal's parameter datums and types are the two components of the given pairs, position by position |
| Sessions.Decimal | src/coord/src/session.rs:320 | the decimal rendering of a portal counter is a non-empty digit string, one digit exactly below ten |
| Sessions.DecimalInjective | src/coord/src/session.rs:320 | distinct counters render to distinct decimals |
| Sessions.PortalNameInjective | src/coord/src/session.rs:320 | distinct counters give distinct unnamed-portal names |
| Sessions.FirstNamesCount | src/coord/src/session.rs:319-320 | the first n generated portal names are n distinct names |
| Sessions.SomeNameFree | src/coord/src/session.rs:319-334 | while fewer than usize::MAX portals exist, some generated name within the counter's range is free |
| Sessions.Session.constructor | src/coord/src/session.rs:65-76 | a new session has no transaction, no plan context, no prepared statements, no portals and no sinks to drop |
| Sessions.Session.StartTransaction | src/coord/src/session.rs:91-107 | the new status is AfterStart of the old one and nothing else in the session changes |
| Sessions.Session.StartTransactionImplicit | src/coord/src/session.rs:111-125 | the new status is AfterStartImplicit of the old one and nothing else changes |
| Sessions.Session.ClearTransaction | src/coord/src/session.rs:137-143 | returns the old sinks and status, clears the portals, plan context and sinks and resets the status to Default, keeping prepared statements |
| Sessions.Session.FailTransaction | src/coord/src/session.rs:146-157 | the new status is AfterFail of the old one and nothing else changes |
| Sessions.Session.AddTransactionOps | src/coord/src/session.rs:166-193 | fails exactly when the merge fails, with the merge's error and the state untouched; otherwise installs the merged operations |
| Sessions.Session.GetTransactionTimestamp | src/coord/src/session.rs:204-222 | reuses an existing peek timestamp without asking for one; otherwise asks, propagates its error, turns an empty transaction into a read at that timestamp and refuses tail and write transactions |
| Sessions.Session.SetPortal | src/coord/src/session.rs:260-286 | fails with DuplicateCursor exactly for an existing non-empty name; otherwise the portal is bound, not started, replacing an unnamed one |
| Sessions.Session.RemovePortal | src/coord/src/session.rs:291-293 | reports whether the portal existed and removes it |
| Sessions.Session.CreateNewPortal | src/coord/src/session.rs:310-337 | installs a not-started portal under the first unnamed-portal name not in use; fails only when every counter value is taken |
| Sessions.Session.Reset | src/coord/src/session.rs:341-346 | returns the sinks to drop and leaves no transaction, portals, plan context, sinks or prepared statements |
| Sessions.CreateInSession | src/coord/src/session.rs:310-337 | with fewer than usize::MAX portals, creating a portal always succeeds with a fresh name |
| FileLogs.LeBytes | src/persist/src/file.rs:174-176 | a little-endian rendering of n in k bytes has exactly k bytes |
| FileLogs.Le64 | src/persist/src/file.rs:174-176 | a u64 rendered by to_le_bytes is eight bytes |
| FileLogs.LeRoundTrip | src/persist/src/file.rs:100 | reading back the little-endian bytes of a number that fits gives that number |
| FileLogs.FromLeRoundTrip | src/persist/src/file.rs:204 | every k bytes read as a number lie below 256^k and render back to the same bytes |
| FileLogs.Le64RoundTrip | src/persist/src/file.rs:174-176 | from_le_bytes inverts to_le_bytes on every u64 |
| FileLogs.EncodeRecord | src/persist/src/file.rs:168-176 | a record occupies sixteen bytes plus its data: length prefix, data, sequence number |
| FileLogs.DecodeOne | src/persist/src/file.rs:203-211 | a successful read consumes sixteen bytes plus the data and yields an encodable record; every failure is an unexpected end of file |
| FileLogs.DecodeOneSplit | src/persist/src/file.rs:203-211 | whatever one read accepts is exactly the encoding of the record it returns followed by the rest |
| FileLogs.DecodeOneEncoded | src/persist/src/file.rs:168-211 | reading a written record returns that record and leaves the bytes after it |
| FileLogs.DecodeOneExtend | src/persist/src/file.rs:203-211 | appending bytes to the file does not change what a read at the front returns |
| FileLogs.DecodeRecords | src/persist/src/file.rs:201-225 | decoding a file yields only encodable records |
| FileLogs.DecodeStep | src/persist/src/file.rs:201-211 | decoding a non-empty file reads one record and then decodes the rest |
| FileLogs.DecodeAppend | src/persist/src/file.rs:163-225 | decoding two concatenated files is decoding the first followed by decoding the second |
| FileLogs.DecodeEncoded | src/persist/src/file.rs:163-225 | decoding the writes of any encodable records gives those records back |
| FileLogs.DecodedLast | src/persist/src/file.rs:107-122 | a decodable file has records exactly when it is non-empty, and then its last eight bytes are the last record's sequence number |
| FileLogs.ScanLog | src/persist/src/file.rs:199-227 | everything a snapshot delivers lies in the log's range |
| FileLogs.Since | src/persist/src/file.rs:213-215 | the records kept are exactly those at or past start |
| FileLogs.ScanDecoded | src/persist/src/file.rs:199-227 | on a decodable file whose records lie below end, the snapshot succeeds and delivers exactly the records at or past start, in order |
| FileLogs.ScanRejectsFuture | src/persist/src/file.rs:216-222 | a record at or past end makes the snapshot fail |
| FileLogs.Recover | src/persist/src/file.rs:85-130 | on open, start is the metadata's number or zero, end is one past the data's last sequence number or zero, and start never exceeds end |
| FileLogs.WriteKeepsValid | src/persist/src/file.rs:163-182 | a write at end keeps the data file decodable with its records below the new end, and appends the new record |
| FileLogs.TruncateKeepsValid | src/persist/src/file.rs:233-254 | a truncation inside the range keeps the log valid with the metadata holding the new start |
| FileLogs.ValidReopens | src/persist/src/file.rs:64-141 | reopening the files a valid log leaves behind recovers exactly its range |
| FileLogs.ReadRecord | src/persist/src/file.rs:203-211 | the three read_exact calls at a position return the record the specification reads there and the position after it, failing exactly when it does |
| FileLogs.ScanFile | src/persist/src/file.rs:199-227 | the snapshot loop delivers exactly what ScanLog specifies and stops with its error |
| FileLogs.FileLog.constructor | src/persist/src/file.rs:132-140 | a new log is open with the given range, files and an empty buffer |
| FileLogs.FileLog.Open | src/persist/src/file.rs:64-141 | opening fails with the recovery error, or yields an open log with the recovered range, writing zero into an empty metadata file |
| FileLogs.FileLog.EnsureOpen | src/persist/src/file.rs:155-159 | fails with Closed exactly when the log is closed |
| FileLogs.FileLog.WriteSync | src/persist/src/file.rs:163-182 | a closed log refuses the write; otherwise the write gets sequence number end, end moves one on, the encoded record is appended, and a valid log stays valid with the record added |
| FileLogs.FileLog.Snapshot | src/persist/src/file.rs:184-227 | a closed log fails; otherwise the records and result are those of ScanLog, and on a valid log exactly the records at or past start and the range |
| FileLogs.FileLog.Truncate | src/persist/src/file.rs:233-254 | fails outside (start, end] with nothing changed; otherwise start becomes upper, the metadata holds it and validity is kept |
| FileLogs.FileLog.Close | src/persist/src/file.rs:256-266 | reports whether the log was open and leaves it closed, idempotently |
| FileLogs.FileBlob.constructor | src/persist/src/file.rs:287-296 | a new blob store is open over the given files |
| FileLogs.FileBlob.Get | src/persist/src/file.rs:311-321 | a closed store fails; otherwise the contents under the key, or none when there is no file |
| FileLogs.FileBlob.Set | src/persist/src/file.rs:323-350 | a closed store fails; without overwrite an existing key fails with AlreadyExists and nothing changes; otherwise the value is stored under the key |
| FileLogs.FileBlob.Delete | src/persist/src/file.rs:352-364 | a closed store fails; otherwise succeeds whether or not the key exists and removes it |
| FileLogs.FileBlob.Close | src/persist/src/file.rs:365-375 | reports whether the store was open and leaves it closed with its files untouched |

## Left out

- I/O, the filesystem and locking in `src/persist/src/file.rs`: files are byte sequences held by the `FileLog` and `FileBlob` objects, and the LOCK file, `fsync`, temporary-file renames and I/O errors are not modelled.
- `FileLogs.FileLog.Snapshot`: the callback `logic` is the collection of the records it is handed; a callback that fails is not modelled.
- The clock, the timestamp oracle and the wall time are parameters: `get_ts` is the `getTs` result given to `GetTransactionTimestamp`, and the wall time is an integer.
- The write lock guard (`grant_write_lock`, `has_write_lock`), `PlanContext` beyond its wall time, the session variables that `reset` restores to their defaults, the prepared-statement accessors, `add_drop_sink` and the `dummy` constructor of `src/coord/src/session.rs` are not modelled; prepared statements are an opaque map that `Reset` clears.
- `Sessions.Session.AddTransactionOps`: the `assert_eq!` on two peek timestamps, a panic of the source, is a precondition.
- `Sessions.AfterStart` and `Sessions.Session.StartTransaction` exclude the `Failed` status and `Sessions.AfterFail` and `Sessions.Session.FailTransaction` exclude `Default`; both are `unreachable!()` in the source.
- `Sessions.Session.CreateNewPortal`: the model tries every counter from 0 to `usize::MAX` and then returns the `coord_bail!` error. In the source the `0usize..` iterator overflows when it steps past `usize::MAX`: with overflow checks it panics before yielding `usize::MAX`, and without them it wraps to 0 and loops forever once every name is taken, so the `coord_bail!` is never reached. `format!` is modelled by the decimal rendering of the counter.
- Arbitrary-precision decimal arithmetic (`add_numeric`, `mul_numeric`, `div_numeric`, rounding, `rescale`) and numeric min/max/sum depend on an external decimal library and are left out.
- Floating-point operations, timezone conversions, `date_trunc`/`date_part`, `to_char` and chrono durations beyond month addition are left out (floating point and the tz database).
- Regex and LIKE matching, `csv_extract`, the `RegexpExtract` and `CsvExtract` table functions, hashing, text encodings and string parsing/formatting are foreign libraries and are left out.
- `TableFunc.Stringify`: the jsonb text rendering (`cast_jsonb_to_string`) is the parameter `render`.
- `Row` packing and `RowArena` lifetimes are replaced by owned sequences.
- src/repr/src/scalar.rs (the `Ord` on datums and `ScalarType::base_eq`) and the `Ord` of packed rows are not part of this model: the order of datums of different kinds (with SQL Null last), the lexicographic row order `DatumOrder.CmpSeq` and the structural base equality are the model's own definitions. So `OrderBy.CompareRows` (the whole-row tie-break) and `ConstantRows.Consolidate` (the order `rows.sort()` leaves) may order rows differently from the source where datums of different kinds meet.
- src/expr/src/relation/mod.rs (`compare_columns`, `MirRelationExpr`, `union_many`, `take_safely`) and `extract_non_errors_from_expr` are not part of this model: `OrderBy` follows their use at src/expr/src/relation/func.rs:526-533, the relation tree holds only the operators constant folding and let-inlining touch, and the stripped value is the parameter `strip` of `InlineLet.Inline`.
- `Reduction.Action`: the scalar `reduce` of the predicates and expressions is taken as already applied, and they contain no temporal functions.
- A panic of the source (an `unwrap_*` on a datum of the wrong kind, `unreachable!()`, an index out of bounds, `MIN / -1`) is an internal error where the model is total, a precondition where it is not, with the two exceptions below.
- OrderBy.At: a column past the end of a row reads as Null, where `compare_columns` indexes `left[order.column]` and panics; the ORDER BY columns of a well-typed plan lie within every row.
- ConstantRows.Renullable: a Null in a row position beyond the relation's column types is skipped, where the source's `typ.column_types[index]` panics; in a well-typed plan every row has exactly as many datums as the type has columns, and the model does not carry that invariant.
- StringFunc.SplitPart: the evaluator uses the corrected `split_part`, which rejects field `i64::MIN`, where the source's wrapped `- 1` returns a piece or the empty string; `StringFunc.SplitPartAsWritten` is the source as written (see Findings).
- DateArith.AddTimestampMonths: requires the target year to lie in chrono's range; outside it the source's loop does not return (see Findings), and `DateArith.CheckedAddTimestampMonths` reports the error instead.
- chrono's calendar is not part of this model beyond its year range −262144 to 262143 (`i32::MAX >> 13`) and the Gregorian month lengths.
- `StringFunc.Position`: a prefix of exactly `i32::MAX` characters makes the source's `+ 1` overflow; the model reports `Int32OutOfRange` for every position of `i32::MAX` or more.
- `Aggregate.SumSpec`: the `i64` accumulator of `sum_int16`/`sum_int32` and the `i128` accumulator of `sum_int64` are not wrapped; they overflow only beyond 2^32 inputs.
- `Aggregate.CountSpec`: the count is unbounded, not cast to `i64`.
- `Aggregate.OutputType`: `sum_int64`'s type is `Numeric` without its scale of zero.
- `AggregateFunc::propagates_nonnull_constraint` is not modelled.
- A distinct aggregate iterates a `HashSet`; the model fixes first-occurrence order.
- Identity neutrality (`Aggregate.IdentityNeutral`) is proved only for the order-insensitive aggregates.
- `InlineLet.Inline`: substitution does not rewrite the substituted value a second time; this agrees with the source whenever the value holds no `Get` of the binding's own id.
- Integer widths of the remaining kernel (`usize` lengths and counters, `i64` diffs) are modelled as unbounded integers except where stated.

## Findings

| source | as written | input that shows it | evidently intended | confidence | as-written member | corrected member |
|---|---|---|---|---|---|---|
| src/expr/src/scalar/func.rs:4604-4654 | `substr` computes its end position as `e + raw_start_idx` in `i64`, which wraps (or, with overflow checks, panics) for lengths near `i64::MAX` | `substr('abc', 2, 9223372036854775807)` returns `''` | `'bc'`, the characters from position 2 to the end, as PostgreSQL returns | not executed; high | StringFunc.SubstrOverflow | StringFunc.Substr |
| src/repr/src/relation.rs:80 | `ColumnType::union` walks the fields of two records with `zip`, which stops at the shorter record | a record with field `a` united with a record with fields `a` and `b` succeeds as the one-field record | an error, because records of different lengths do not unite | not executed; medium | Repr.UnionDropsFields | Repr.Union |
| src/expr/src/scalar/func.rs:1111-1116 | `add_timestamp_months` walks the day down until `from_ymd_opt` succeeds, but when the target year is outside chrono's range no day succeeds: the `debug_assert!(day > 28)` fails, and without debug assertions the loop does not end | `add_timestamp_months(2000-01-01 00:00:00, 12000000)`, a target year of 1002000 | a timestamp-out-of-range error | not executed; medium | DateArith.AddMonthsNoDateExample | DateArith.CheckedAddTimestampMonths |
| src/expr/src/scalar/func.rs:4661 | `split_part` computes `datums[2].unwrap_int64() - 1` in `i64`, which wraps (or, with overflow checks, panics) for field `i64::MIN`, and `usize::try_from` accepts the wrapped `i64::MAX` | `split_part('a,b', ',', -9223372036854775808)` returns `''` | the error "field position must be greater than zero", as for every other field below 1 | not executed; high | StringFunc.SplitPartOverflow | StringFunc.SplitPart |
