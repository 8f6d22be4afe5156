# Couchbase table resource, modelled in Dafny

This project models the core of the DreamFactory Couchbase table resource
(`src/Resources/Table.php`). The resource puts a document bucket behind the
generic table REST contract. It has four pieces of logic:

- **The filter compiler** (`parseFilterString`, `parseFilterValue`). It
  turns a SQL-like filter such as `(a = 1) AND (b in (2,3))` into a N1QL
  condition. Logical operators are split recursively (`NOT (`, `) AND (`,
  `) OR (`). One wrapping pair of parentheses is removed and dangling ones
  are repaired. The first comparison operator in parsing order is used, and
  a trailing `NOT` on the field negates it. Every literal is coerced and
  bound as a named parameter `$<field><i>`, where `$i` is a per-instance
  counter that starts at 1 and is never reset.
- **Record shaping** (`cleanFields`, `isExpression`, `cleanRecord`,
  `preCleanRecords`). These remove `_id` from a field list, recognise
  function-call columns (`f(x)`, `f(x) as t`), project a record onto the
  requested fields plus the id fields, and unwrap query rows that are
  nested under the bucket's name.
- **Query assembly** in `retrieveRecordsByFilter`. It builds the
  SELECT … FROM … WHERE … GROUP BY … ORDER BY … LIMIT … OFFSET statement and
  its parameters.
- **Per-record transactions** (`addToTransaction`, `commitTransaction`,
  `rollbackTransaction`). The request verb decides what happens to the
  bucket. Pre-images are saved for rollback, and rollback replays the
  inverse operations in order.

Modules, one file each:

| file | module | contents |
|---|---|---|
| `php_strings.dfy` | `PhpStrings` | the PHP string built-ins the source uses (trim, strtolower, stripos/strpos, explode/implode, str_ireplace, str_repeat, `(string)$n`) |
| `values.dfy` | `Values` | document values, records, `_id`, `empty()`, `array_get` with its dot-path walk, `(array)` casts, the error kinds |
| `filter_values.dfy` | `FilterValues` | `is_numeric` and `(int)`, literal coercion, parameter keys, the registry (counter and out_params) |
| `filter_parser.dfy` | `FilterParser` | `parseFilterString` as a function of the filter and the registry |
| `filter_examples.dfy` | `FilterExamples` | whole filters compiled end to end, for every field name and digit: `w = n`, `(w = n)`, `NOT (w = n)`, `(w1 = n1) AND (w2 = n2)` and `u NOT = n`, under operator tables where AND and NOT are the logical operators and = the only comparison |
| `record_shaping.dfy` | `RecordShaping` | `cleanFields`, `isExpression`, `cleanRecord`, `preCleanRecords` |
| `query_builder.dfy` | `QueryBuilder` | statement assembly, and the class `TableQuery` whose field `i` is the counter; its methods are proved equal to the parser functions |
| `transactions.dfy` | `Transactions` | the bucket as a map, each verb as a function of the bucket, the class `TableTransaction` with the transaction buffers, and the rollback replay |

Where the code updates state, the model does too. `TableQuery.i` is
advanced by `ParseFilterValue`, and the parameter map is threaded through
the methods as the source threads `&$out_params`. `TableTransaction`
updates `bucket`, `rollbackRecords`, `batchIds` and `batchRecords`. Each
method's `ensures` equates its result and new state with a specification
function: `CompileFilter` and its helpers, `Retrieval`, `Dispatch` and the
per-verb steps, and `Replay`. The lemmas then prove the properties
of those functions.

Where the code and the prose documentation of the system differ, the model
follows the code:

- Parameter keys are unique only per field name. `a1` with counter 1 and `a`
  with counter 11 both give `a11` (`FilterValues.ParamKeyCollision`).
- The PATCH pre-image is the stored document without an `_id` added. So
  rollback restores it only when the stored document has an `_id` field of
  its own (`Transactions.PatchRollbackSkipped`, `Transactions.PatchPreImage`).
- A bucket error during rollback is not caught. Here it ends the rollback
  with an error and the saved records kept (`RollbackTransaction`).
- A PUT with updates stores the document with `_id` set to its id
  (Table.php:514-517). A later PUT or DELETE of that document saves a
  pre-image holding that `_id`, and rollback unsets it before writing
  (Table.php:650, 659). So the restored document has lost its `_id`
  field (`Transactions.PutAfterUpdatesLosesId`,
  `Transactions.DeleteAfterUpdatesLosesId`).
- A POST with rollback saves no pre-image itself. The document is already
  inserted when the request is handed to the parent resource
  (`Transactions.PostRollbackAlreadyStored`).

The bucket operations follow the Couchbase SDK:

- insert fails if the key exists;
- replace, get and remove fail if it is absent;
- upsert always succeeds.

Parsing assumes PHP 7 behaviour:

- `strpos` and `stripos` with an empty needle return false;
- `explode` with an empty delimiter returns false;
- `str_repeat` with a negative count returns null;
- `preg_replace` with a negative limit has no limit.

## Model

| member | source | states |
|---|---|---|
| PhpStrings.LowerSpec | src/Resources/Table.php:157 | strtolower maps every character on its own (ASCII A-Z to a-z) and keeps the length |
| PhpStrings.TrimCharsSpec | src/Resources/Table.php:311 | trim($s, $cs) leaves a slice of s with no stripped character at either end, with only stripped characters before and after it |
| PhpStrings.FindFrom | src/Resources/Table.php:292 | stripos/strpos return the first position where the needle occurs (up to case when case-insensitive), and none when it does not occur |
| PhpStrings.ImplodeExplode | src/Resources/Table.php:326-333 | joining the pieces of explode with the same delimiter gives back the text, so removing a trailing word and re-joining keeps the rest of the field |
| PhpStrings.NatToStringInjective | src/Resources/Table.php:444 | different counter values give different decimal texts |
| PhpStrings.DigitsValueOfNatToString | src/Resources/Table.php:444 | the decimal text of n reads back as n |
| PhpStrings.Repeat | src/Resources/Table.php:350 | str_repeat(')', n) is n closing parentheses |
| PhpStrings.RemoveCharCount | src/Resources/Table.php:352 | preg_replace('/\)/', '', $s, $limit) leaves no ')' for a negative limit (no limit), none when there were at most limit of them, and otherwise the count less limit |
| PhpStrings.LowerIdempotent | src/Resources/Table.php:338 | lower-casing a lower-cased name changes nothing |
| PhpStrings.IndexOfIByPrefix | src/Resources/Table.php:322 | stripos finds the needle at q when it matches there and no earlier position starts like it |
| Values.Lookup | src/Resources/Table.php:228 | array_get returns the value under an existing key; a missing key without a dot gives null |
| Values.LookupPath | src/Resources/Table.php:228 | array_get reads a dotted key missing from the record as a path: it descends into the field named by the first segment and walks the rest, null when the first segment is missing |
| Values.LookupPathExample | src/Resources/Table.php:228 | {"a": {"b": 1}} answers "a.b" with 1 and "a.c" with null |
| FilterValues.CoerceSpec | src/Resources/Table.php:432-442 | a numeric text becomes Int((int)v); true/false in any case become booleans; a text wrapped in matching quotes loses one layer; anything else is kept |
| FilterValues.CoerceNatText | src/Resources/Table.php:432-433 | the decimal text of a natural number is numeric and is bound as that number |
| FilterValues.CoerceNegativeText | src/Resources/Table.php:432-433 | a minus sign and digits are bound as the negative number |
| FilterValues.CoerceQuoted | src/Resources/Table.php:438-441 | a text in single or double quotes is bound without them |
| FilterValues.CoerceBoolean | src/Resources/Table.php:434-437 | true and false in any letter case are bound as booleans |
| FilterValues.ParseValue | src/Resources/Table.php:414-420 | a value wrapped in ( ) comes back verbatim with nothing bound and the counter unchanged; any other is bound under name . i, i grows by one and `$name<i>` is returned |
| FilterValues.ParamKeyInjective | src/Resources/Table.php:444-445 | two registrations for the same field never share a key |
| FilterValues.ParamKeyLastDigit | src/Resources/Table.php:444 | keys made with counter values that differ in their last digit differ, whatever the field names |
| FilterValues.ParamKeyNeighbours | src/Resources/Table.php:444 | the keys of two consecutive registrations differ, whatever the field names |
| FilterValues.ParamKeyCollision | src/Resources/Table.php:444 | across field names keys can collide: a1 with counter 1 and a with counter 11 both give a11 |
| FilterValues.ExtendsTrans | src/Resources/Table.php:295-296 | two compilations in a row keep every binding that neither changed, and number every binding they add or change with a counter value they used |
| FilterParser.CompileFilter | src/Resources/Table.php:269-275 | an empty() filter compiles to null and changes nothing; a compiled filter is a text; bindings are added or changed only under keys numbered with counter values this parse used, and the counter never goes back |
| FilterParser.LogicalPass | src/Resources/Table.php:278-301 | the loop over the logical operators ends in a text or an error and only extends the registry |
| FilterParser.LogicalPassSkips | src/Resources/Table.php:289-292 | a logical operator whose padded form does not occur moves the loop on with `)op(` spread to `) op (` in the filter |
| FilterParser.LogicalPassEnd | src/Resources/Table.php:301-303 | after the last logical operator the comparison pass takes over |
| FilterParser.LogicalPassNotSkips | src/Resources/Table.php:280-282 | when NOT's turn comes, a filter without a `NOT (` or `NOT(` prefix moves the loop on unchanged |
| FilterParser.LogicalPassNegates | src/Resources/Table.php:280-287 | when NOT's turn comes, a filter with a `NOT (` prefix is compiled by the negation step |
| FilterParser.LogicalPassSplits | src/Resources/Table.php:289-298 | another logical operator found padded, with no tight form to spread, splits the filter there into the two sides |
| FilterParser.NegationStep | src/Resources/Table.php:280-287 | a `NOT (` or `NOT(` prefix compiles to the localized NOT in front of the remainder's compilation, and only extends the registry |
| FilterParser.SplitSides | src/Resources/Table.php:293-294 | the two sides of a split at `) op (` have fewer non-blank characters than the filter, so the recursion ends |
| FilterParser.SplitStep | src/Resources/Table.php:295-298 | both sides compile in turn through the same registry, the first error ends the parse, and the registry only grows |
| FilterParser.Unwrap | src/Resources/Table.php:304-308 | one wrapping pair of parentheses is removed; a filter not wrapped is kept |
| FilterParser.ComparisonPass | src/Resources/Table.php:303-392 | a filter with no comparison operator fails with 'Invalid or unparsable filter request.' and binds nothing; a wrapped filter's condition is wrapped again |
| FilterParser.FirstOperator | src/Resources/Table.php:319-322 | the operator used is the first in parsing order whose padded form occurs in the filter, case-insensitively, at the position stripos gives |
| FilterParser.SplitNegation | src/Resources/Table.php:324-336 | a field with a space whose last word is NOT in any case loses that word and is negated; any other field is kept |
| FilterParser.RepairParens | src/Resources/Table.php:343-353 | a value starting with a quote or balanced in parentheses is left alone with the right side; a value opening more than it closes gets exactly the missing ')' appended, ends balanced, and that many ')' are taken off the right side; a value closing more keeps its text and loses every ')' from the right side |
| FilterParser.Prepare | src/Resources/Table.php:323-378 | the field is the trimmed text before the operator, lower-cased; a trailing NOT word is dropped from it and turns the operator into `NOT op`; the head is the left parenthesis, the name and the localized operator |
| FilterParser.ComparisonPassUnwraps | src/Resources/Table.php:303-308 | a filter wrapped once compiles to its inside's condition in parentheses |
| FilterParser.ComparisonPassBare | src/Resources/Table.php:310-322 | a filter without parentheses has nothing dangling: the condition is built from the first operator found |
| FilterParser.Comparison | src/Resources/Table.php:338-387 | the only error a comparison can raise is the value-list error, and then nothing is bound; the ColumnSchema null check has no branch because new never yields null |
| FilterParser.Condition | src/Resources/Table.php:354-387 | a comparison fails exactly when a list operator gets a value not wrapped in parentheses |
| FilterParser.ListValues | src/Resources/Table.php:358-362 | one text per list element, and the registry only grows |
| FilterParser.ListValuesInOrder | src/Resources/Table.php:358-362 | the elements of a list are bound in order under consecutive keys of the field and referenced in the same order |
| FilterParser.ValueListCondition | src/Resources/Table.php:354-362 | a list operator with a wrapped list emits `[ $k1,$k2,… ]` with each element bound in order under the next keys, the counter moved on by the list's length |
| FilterParser.SingleValueCondition | src/Resources/Table.php:368-379 | a one-value operator binds the modified value under the field's next key and emits its placeholder |
| FilterParser.NoValueCondition | src/Resources/Table.php:366-367 | a no-value operator emits the head and the right side only, and binds nothing |
| FilterExamples.SimpleComparison | src/Resources/Table.php:269-388 | `w = n` compiles to `lower(w) = $lower(w)<i>` with the digit bound as an integer under that key, and the counter moves on by one |
| FilterExamples.WrappedComparison | src/Resources/Table.php:303-308 | `(w = n)` compiles to the same condition in parentheses |
| FilterExamples.NegatedComparison | src/Resources/Table.php:280-287 | `NOT (w = n)` compiles to `NOT(` the condition `)` |
| FilterExamples.ConjComparison | src/Resources/Table.php:289-298 | `(w1 = n1) AND (w2 = n2)` compiles to `(lower(w1) = $k1) AND (lower(w2) = $k2)` with k1 numbered i and k2 numbered i+1, the two keys distinct and both bound |
| FilterExamples.NegFieldComparison | src/Resources/Table.php:323-336 | `u NOT = n`, with NOT in any case, compiles to `lower(u) NOT = $lower(u)<i>` |
| FilterExamples.ExampleComparison | src/Resources/Table.php:269-388 | from a fresh counter (1) and no parameters, `a = 1` compiles to `a = $a1` with a1 bound to 1 and the counter at 2 |
| FilterExamples.ExampleNegation | src/Resources/Table.php:280-287 | from a fresh counter (1), `NOT (a = 1)` compiles to `NOT(a = $a1)` with a1 bound to 1 |
| FilterExamples.ExampleConjunction | src/Resources/Table.php:289-298 | from a fresh counter (1), `(a = 1) AND (b = 2)` compiles to `(a = $a1) AND (b = $b2)` with a1 bound to 1, b2 to 2 and the counter at 3 |
| FilterExamples.ExampleNegatedField | src/Resources/Table.php:323-336 | from a fresh counter (1), `Name not = 1` compiles to `name NOT = $name1` with name1 bound to 1 |
| QueryBuilder.SelectList | src/Resources/Table.php:58-64 | `,meta().id as _id` is appended only without group_by, and is the whole list when no field is left |
| QueryBuilder.Clauses | src/Resources/Table.php:67-87 | six clauses in the order SELECT, WHERE, GROUP BY, ORDER BY, LIMIT, OFFSET; WHERE only with a filter, GROUP BY/ORDER BY/OFFSET only when not empty(), LIMIT always |
| QueryBuilder.Retrieval | src/Resources/Table.php:58-89 | the statement is the joined clauses; an empty() filter adds no WHERE and binds nothing; otherwise the WHERE text is the compiled filter, the parameters are exactly those it bound, and a filter that does not compile fails with its error; every bound parameter's key is numbered with a counter value of this request |
| QueryBuilder.TableQuery.constructor | src/Resources/Table.php:44 | the counter starts at 1 |
| QueryBuilder.TableQuery.ParseFilterValue | src/Resources/Table.php:404-450 | parseFilterValue's text, the counter after it and out_params are those of ParseValue |
| QueryBuilder.TableQuery.ParseValueList | src/Resources/Table.php:358-362 | the list loop's texts, counter and parameters are those of ListValues on the trimmed elements |
| QueryBuilder.TableQuery.CompileComparison | src/Resources/Table.php:323-387 | the comparison built, counter and parameters are those of Comparison |
| QueryBuilder.TableQuery.CompileCondition | src/Resources/Table.php:354-379 | the value handling's result, counter and parameters are those of Condition |
| QueryBuilder.TableQuery.ParseComparison | src/Resources/Table.php:303-392 | the comparison loop's result, counter and parameters are those of ComparisonPass |
| QueryBuilder.TableQuery.ParseFilterString | src/Resources/Table.php:269-301 | parseFilterString's result, counter and out_params are those of CompileFilter |
| QueryBuilder.TableQuery.ParseNegation | src/Resources/Table.php:280-287 | the NOT branch's result, counter and parameters are those of NegationStep |
| QueryBuilder.TableQuery.ParseSplit | src/Resources/Table.php:289-298 | the split branch's result, counter and parameters are those of SplitStep |
| QueryBuilder.TableQuery.RetrieveQuery | src/Resources/Table.php:49-90 | the statement and parameters sent, and the counter after them, are those of Retrieval |
| RecordShaping.KeptFieldsExactly | src/Resources/Table.php:152-163 | cleanFields keeps exactly the entries whose trimmed, lower-cased text is not `_id`, and never more entries than it was given |
| RecordShaping.KeptFieldsAppend | src/Resources/Table.php:152-163 | the kept entries of a list are those of its first part followed by those of its second, so the order is kept |
| RecordShaping.CleanFields | src/Resources/Table.php:152-163 | the loop returns the comma list of the kept entries |
| RecordShaping.PlainNameIsNotExpression | src/Resources/Table.php:244-257 | a field without '(' is never an expression |
| RecordShaping.BareExample | src/Resources/Table.php:248-253 | `f(x)` is a bare expression |
| RecordShaping.AliasExample | src/Resources/Table.php:246-251 | `f(x) as t` is an expression aliased to t |
| RecordShaping.BareCall | src/Resources/Table.php:244-253 | every call `n(args)` without blanks is a bare expression |
| RecordShaping.AliasedCall | src/Resources/Table.php:244-251 | every call `n(args)` without blanks followed by ` as t`, where t holds no further ` as `, is aliased to t trimmed |
| RecordShaping.WithIdsSpec | src/Resources/Table.php:207-212 | the requested fields stay first and unchanged, every id field is present, and only id fields that were not requested are appended |
| RecordShaping.AppendIds | src/Resources/Table.php:208-212 | the id loop appends the missing id fields |
| RecordShaping.GleanKeys | src/Resources/Table.php:217-229 | the output keys are exactly the entries' keys, with aliases in place of aliased expressions |
| RecordShaping.GleanValue | src/Resources/Table.php:217-229 | an entry no later entry overwrites holds the record's value under its name, its alias or `$n`, or null |
| RecordShaping.GleanFields | src/Resources/Table.php:215-231 | the glean loop numbers bare expressions `$1`, `$2`, … in order and computes Glean |
| RecordShaping.CleanRecord | src/Resources/Table.php:194-235 | cleanRecord returns CleanRecordSpec: the record for `*`, otherwise the glean of the requested fields plus the id fields |
| RecordShaping.ProjectionSpec | src/Resources/Table.php:196-229 | every plain id field is in the output, and every plain requested field holds the record's value or null |
| RecordShaping.CleanRecordStar | src/Resources/Table.php:196-234 | with `*` the record comes back unchanged |
| RecordShaping.SingleFieldList | src/Resources/Table.php:202-205 | a single simple field name is read as a one-element list |
| RecordShaping.ProjectionKeepsId | src/Resources/Table.php:194-231 | asking for one plain field yields exactly that field and the id field, read from the record |
| RecordShaping.PreCleanRow | src/Resources/Table.php:175-185 | a row holding the document under the bucket name becomes the document's fields with the row's `_id` in place of the document's own; any other row is kept |
| RecordShaping.PreCleanRecords | src/Resources/Table.php:172-189 | every row is cleaned by PreCleanRow, in order |
| Transactions.InsertThenRemove | src/Resources/Table.php:498 | inserting a new document and removing it restores the bucket (POST and its rollback) |
| Transactions.ReplaceThenRestore | src/Resources/Table.php:533 | replacing a document and replacing back what get returned restores the bucket (PUT/PATCH and their rollback) |
| Transactions.RemoveThenRestore | src/Resources/Table.php:579 | removing a document and inserting what get returned restores the bucket (DELETE and its rollback) |
| Transactions.EmptyRecordRejected | src/Resources/Table.php:493-494 | POST, and PUT without updates, reject an empty record with 'No valid fields were found in record.' and change nothing |
| Transactions.PostStoresWithoutId | src/Resources/Table.php:497-510 | for every field list, POST stores the record without `_id` under the new id, stages nothing and returns a record holding `_id`; with fields `*` that `_id` is the new id and require_more adds every other field of the record (without it `_id` is the only key); with no fields the result is exactly `{_id: id}` |
| Transactions.PostReturnsIdAlone | src/Resources/Table.php:509 | cleanRecord with no requested fields and `_id` as id field returns exactly `{_id: id}` from a record whose `_id` is the id |
| Transactions.PostExistingRejected | src/Resources/Table.php:498 | POST of an id already stored fails and changes nothing |
| Transactions.PostRollbackAlreadyStored | src/Resources/Table.php:498-507 | POST with rollback is handed to the parent only after the document is stored |
| Transactions.PutWrites | src/Resources/Table.php:513-541 | PUT writes the record (the updates with the id set, when there are updates) by upsert or replace, and fails with nothing written when replace, or the rollback read, finds no document |
| Transactions.PatchMerges | src/Resources/Table.php:543-570 | PATCH writes array_merge(stored, supplied): supplied fields win, other stored fields stay, `_id` is the id, other documents are untouched, and it never fails once the document exists |
| Transactions.PatchesCompose | src/Resources/Table.php:543-562 | two PATCHes in a row write what one PATCH with both field sets writes |
| Transactions.PatchPreImage | src/Resources/Table.php:550-564 | the PATCH pre-image is the stored document, with an `_id` only when the stored document has one |
| Transactions.MissingDocument | src/Resources/Table.php:550-584 | PATCH, DELETE and GET of a missing document fail with nothing written and nothing saved |
| Transactions.DeleteReturnsPreImage | src/Resources/Table.php:572-581 | DELETE removes the document and returns, and saves with rollback, the stored document with the id in front |
| Transactions.GetReadsOnly | src/Resources/Table.php:583-587 | GET changes nothing and succeeds exactly when the document exists |
| Transactions.EmptyIdSkipped | src/Resources/Table.php:639-640 | a saved record whose `_id` is empty() is skipped by every verb's rollback |
| Transactions.DeleteRollbackRestores | src/Resources/Table.php:655-663 | rolling back a DELETE restores the bucket, for a document without an `_id` field and an id that is not empty() |
| Transactions.PutRollbackRestores | src/Resources/Table.php:645-654 | rolling back a PUT restores the bucket under the same conditions |
| Transactions.PutRollbackStripsId | src/Resources/Table.php:645-654 | rolling back a PUT of a document whose `_id` is its own id puts it back without `_id` |
| Transactions.PutAfterUpdatesLosesId | src/Resources/Table.php:514-517 | after a PUT with updates, a rolled-back PUT leaves the document without the `_id` the first PUT stored |
| Transactions.DeleteAfterUpdatesLosesId | src/Resources/Table.php:655-663 | after a PUT with updates, a rolled-back DELETE reinserts the document without that `_id` |
| Transactions.PatchRollbackSkipped | src/Resources/Table.php:645-654 | rolling back a PATCH of a document without an `_id` field leaves the patched document in place |
| Transactions.DeleteOfZeroNotRestored | src/Resources/Table.php:656-660 | a document with id "0" is deleted but never restored, because empty("0") holds |
| Transactions.ReplayFailureSticks | src/Resources/Table.php:637-663 | once a saved record fails to replay, the rest are not replayed |
| Transactions.NothingToUndo | src/Resources/Table.php:664-666 | verbs other than POST, PUT, PATCH and DELETE undo nothing |
| Transactions.TableTransaction.constructor | src/Resources/Table.php:39 | a transaction starts on its bucket with empty buffers |
| Transactions.TableTransaction.AddToRollback | src/Resources/Table.php:527 | the pre-image is appended to rollbackRecords and nothing else changes |
| Transactions.TableTransaction.AddToTransaction | src/Resources/Table.php:477-594 | the result, the bucket and the appended pre-images are those of Dispatch for the action; the batch buffers are untouched |
| Transactions.TableTransaction.AddPost | src/Resources/Table.php:492-511 | the POST branch's result, bucket and saved records are those of PostStep |
| Transactions.TableTransaction.AddPut | src/Resources/Table.php:513-541 | the PUT branch's result, bucket and saved records are those of PutStep |
| Transactions.TableTransaction.AddPatch | src/Resources/Table.php:543-570 | the PATCH branch's result, bucket and saved records are those of PatchStep |
| Transactions.TableTransaction.AddDelete | src/Resources/Table.php:572-581 | the DELETE branch's result, bucket and saved records are those of DeleteStep |
| Transactions.TableTransaction.AddGet | src/Resources/Table.php:583-587 | the GET branch's result and bucket are those of GetStep |
| Transactions.TableTransaction.CommitTransaction | src/Resources/Table.php:599-628 | null when both batch buffers are empty; otherwise both are emptied and an empty result returned; no per-verb work, and the bucket and rollback records are untouched |
| Transactions.TableTransaction.RollbackTransaction | src/Resources/Table.php:633-673 | the bucket becomes Replay of the saved records; when every inverse succeeds the records are emptied and the result is true, otherwise the error is returned and the records are kept |
| Transactions.TableTransaction.ReplayRollback | src/Resources/Table.php:637-663 | the rollback loops compute Replay: each saved record with a non-empty `_id` undone in order, stopping at the first error |

## Left out

- Running the query, creating the primary index and retrying, and the include_count metrics (src/Resources/Table.php:92-119) are driver I/O. The model stops at the statement and its parameters.
- getConnection, getIdsInfo, getBucket and initTransaction open connections and buckets. The bucket is a map the transaction is constructed with.
- The in_params substitution and the dbType intval branch of parseFilterValue are not modelled. retrieveRecordsByFilter passes no in_params, and the ColumnSchema built for a filter never has a dbType.
- The operator tables and helpers the resource inherits are parameters (`FilterParser.Operators`), because their definitions are not part of this repository. These are the logical operators, the comparison parsing order, padOperator, localizeOperator, requiresValueList, requiresNoValue and modifyValueByOperator.
- parent::addToTransaction, the batching of batchIds and batchRecords by the parent, upsertAllowed and getAction are not part of this model. A POST with rollback returns a Delegated outcome, the batch buffers are only cleared by commit, and upsertAllowed and the action are constants of the transaction.
- The `\couchException` translation into a RestException is not modelled. Bucket failures come back as DocumentExists or DocumentNotFound errors.
- The `$continue` and `$single` parameters of addToTransaction are unused in this file and are not modelled.
- Transactions.TableTransaction.AddPut: returns Written(id) instead of the shaped write result, because that result is a driver object merged with the record under require_more.
- Transactions.TableTransaction.AddPatch: returns Written(id) instead of the shaped write result, for the same reason.
- Values.Lookup: the dot-path walk follows Laravel's Arr::get, which tests keys with array_key_exists. It descends into every object value. Arr::get stops at a nested stdClass object, which it cannot index; the model does not tell decoded arrays from decoded objects.
- Records are maps, so PHP array key order is not kept. "`_id` first" in array_merge is only the precedence of the stored `_id`, and array_merge renumbering of integer-like keys is not modelled.
- FilterValues.CoerceSpec: is_numeric covers plain decimal text only, with leading whitespace, a sign and a fraction. Exponent forms are not covered, and the (int) cast does not saturate at 64 bits. Floats are not values of this model.
- FilterValues.ParamKeyCollision: the collision across field names is proved about the code as written and is not corrected. Fixing it would change the parameter names the query carries.
- Transactions.RollbackKey: a non-empty array or object `_id` in a saved record is treated as no key. PHP would pass the array on to the SDK.
- PhpStrings.Lower: the per-character fact is stated by LowerSpec instead of an ensures clause. LeadCount and TrailCount (LeadCountSpec, TrailCountSpec) and Coerce (CoerceSpec) are stated the same way, which keeps verification of their many callers small.
- cleanRecords (plural), which applies cleanRecord to every row, is inherited and is not part of this model.
- Strings are sequences of characters with ASCII-only case mapping, as PHP's byte strings are.
