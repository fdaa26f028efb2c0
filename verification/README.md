# redis_natives in Dafny

This project models the core of `redis_natives`, a Python library whose proxy
objects (`Set`, `ZSet`, `List`, `Scalar`) stand for Redis keys and behave like
Python's `set`, `list` and `str`. The model keeps each proxy's visible state
explicit:

- the key it is bound to;
- its declared element type (`str`, `int` or `bool`);
- its shared command pipeline (`_pipe`);
- its list of registered temporary keys (`tmp_keys`).

The Redis server is a pure function from a store and a command to a new store
and a reply.

Modules, in dependency order:

| module | what it holds |
|---|---|
| `Wrappers` | `Option`, `Result` and the library's error kinds |
| `Text` | decimal and lower-case hexadecimal texts, with their parsers |
| `Order` | ZRANGE order: score first, then member bytes |
| `Store` | the Redis keyspace and the commands the proxies send (SADD … ZRANGE, LSET, GETRANGE); `Step` runs one command, `Exec` runs a pipeline batch |
| `Codec` | `type_prepare` (`Prepare`/`Encode`), `type_convert` (`Decode`) and `type_convert_tuple` (`DecodePair`) |
| `TempKeys` | the temporary names: `'__tmp__' + str(i)`, `generate_temporary_key`, the `…union`/`…inter` names and `__tmp__intersection` |
| `Engine` | `SetOperatorMixin`: `parse_args`, `_delete_temporary`, `get_pipe_value`, the batch shape, `Comparable` |
| `Slices` | how Python slices become LRANGE/ZRANGE/GETRANGE bounds |
| `SetProxy` | the server-side set algebra of `Set` |
| `SetMembers` | `Set` member operations, `isdisjoint` and `issuperset` |
| `ZSetProxy` | the server-side sorted-set algebra of `ZSet` |
| `ZSetMembers` | the client-side `ZSet` operations: `union`, `difference`, `symmetric_difference`, `difference_update`, `pop`, indexing and slicing |
| `ListProxy` | `List` |
| `ScalarProxy` | `Scalar` |

Three things from outside the program become parameters:

- the clock, used by `Set.symmetric_difference*`, is the `seconds` argument;
- `os.urandom(16)`, used by `generate_temporary_key`, is the `rand` bytes;
- `randint`, used by `ZSet.pop`, is the `pick` argument.

Most correctness lemmas state two preconditions:

- `Idle(h)`: the handle has nothing queued and nothing registered.
- `Fresh(st, h, ops, extra)`: the temporary names of this call are absent from the store, differ from every key the call reads, and differ from each other.

Under these preconditions, an operation behaves as the Python set algebra on
what the keys and the local operands hold. It changes nothing in the store
except its destination key, and it leaves the handle as it found it.

## Model

| member | source | states |
|---|---|---|
| Engine.Dedup | redis_natives/datatypes.py:186-187 | `set(list)` keeps exactly the list's elements, each once |
| Engine.ParseArgs | redis_natives/datatypes.py:181-204 | an argument that is neither a set, a list nor a proxy of the same class raises `RedisTypeError`; otherwise the key list is the primary's key followed by one key per argument: the other proxy's key, or `'__tmp__' + str(i)` for a local one, which is registered as temporary |
| Engine.ParseArgsAsWritten | redis_natives/datatypes.py:181-204 | on a rejected argument, the fills and temporary names of the arguments before it stay on the handle; on accepted arguments it agrees with `ParseArgs` |
| Engine.DeleteTemporary | redis_natives/datatypes.py:209-215 | one DEL per registered temporary is appended to the pipe in order; the registry is emptied and its old length is returned |
| Engine.GetPipeValue | redis_natives/datatypes.py:206-207 | executing the pipe empties it and runs every queued command; the reply `i` places before the last exists exactly when the pipe held more than `i` commands, else `IndexError` |
| Engine.GetPipeValueSkipsDeletes | redis_natives/datatypes.py:206-215 | reading at `-count - 1` after `_delete_temporary` yields the reply of the command queued just before the deletes |
| Engine.Batch | redis_natives/datatypes.py:206-215 | a batch of fills, one command and the deletes leaves the handle idle and returns that command's reply |
| TempKeys.OperandTempKeyShape | redis_natives/datatypes.py:190 | an operand name is `__tmp__` followed by decimal digits only |
| TempKeys.OperandTempKeyInjective | redis_natives/datatypes.py:190 | different argument positions get different temporary names |
| TempKeys.GeneratedKeyShape | redis_natives/datatypes.py:46-47 | a generated name is `__tmp__` followed by two lower-case hex digits per random byte |
| TempKeys.GeneratedKeyDecodes | redis_natives/datatypes.py:46-47 | the random bytes can be read back from a generated name |
| TempKeys.GeneratedKeyInjective | redis_natives/datatypes.py:46-47 | different random bytes give different names |
| TempKeys.GeneratedKeyLength | redis_natives/datatypes.py:46-47 | sixteen random bytes give a name of 7 + 32 characters |
| TempKeys.FamiliesDistinct | redis_natives/set.py:140-141 | operand names, `__tmp__intersection` and the `…union`/`…inter` names never collide with each other |
| Codec.RoundTrip | redis_natives/datatypes.py:41-44 | preparing a value of the declared type never fails, and converting the stored text back gives the value |
| Codec.RenderInjective | redis_natives/datatypes.py:63-66 | two values of the declared type are stored as the same text only when they are equal |
| Codec.DecodePadded | redis_natives/datatypes.py:41-44 | an integer's text with whitespace around it converts to that integer for `int`, to its truth for `bool`, and is prepared for a `bool` handle as the integer |
| Codec.BoolZeroIsFalse | redis_natives/datatypes.py:41-42 | the stored "0" reads back as `False` and "1" as `True` |
| Codec.DecodePairRoundTrip | redis_natives/zset.py:44-48 | a pair whose member is the stored text of a typed value converts back to that value with its score kept, and two such pairs convert alike exactly when they are the same pair |
| Codec.DecodeAllRender | redis_natives/datatypes.py:206-207 | reading back the stored texts of typed values gives exactly those values |
| Codec.DecodeList | redis_natives/list.py:45-48 | converting a reply list keeps its length and order and fails exactly when one element fails |
| Codec.DecodePairList | redis_natives/zset.py:51-59 | converting a pair list keeps its length and order and fails exactly when one member fails |
| Slices.ReadBoundsIsPySlice | redis_natives/list.py:35-48 | the corrected translation reads exactly Python's slice; the original agrees whenever the stop is not 0 |
| Slices.StopZeroReadsRest | redis_natives/list.py:37-41 | with stop 0, Python's slice is empty but the translated range runs from start to the end |
| Slices.ReceivedIsPySlice | redis_natives/scalar.py:54-64 | Python 2's one adjustment of negative indices followed by `str`'s clamping of the received indices is Python's slice of the written indices; on indices that are not negative the two agree directly |
| Slices.SubstrRangeIsReceivedSlice | redis_natives/scalar.py:54-64 | the corrected GETRANGE bounds read exactly `str`'s slice of the received indices |
| Slices.SubstrRangeAsWrittenIsReceivedSlice | redis_natives/scalar.py:54-64 | the original bounds read that slice whenever neither received index is negative and the stop is not 0, or the slice is `[0:0]` |
| SetProxy.ReadOpCorrect | redis_natives/set.py:60-97 | `union`, `intersection` and `difference` return the algebra of the primary and all operands, converted through the declared type, or `RedisTypeError` for a rejected operand; store and handle end as they began |
| SetProxy.StoreOpCorrect | redis_natives/set.py:99-111 | the `*_update` operations store the algebra at the primary key and change nothing else; with `parse_args` corrected, a rejected operand changes nothing |
| SetProxy.UnionCorrect | redis_natives/set.py:172-180 | a text is in the union exactly when the primary or some operand holds it |
| SetProxy.UpdateCorrect | redis_natives/set.py:182-190 | after `update`, the primary holds a text exactly when it or some operand held it |
| SetProxy.IntersectionCorrect | redis_natives/set.py:89-97 | a text is in the intersection exactly when the primary and every operand hold it |
| SetProxy.IntersectionUpdateCorrect | redis_natives/set.py:99-111 | after `intersection_update`, the primary holds a text exactly when it and every operand held it |
| SetProxy.DifferenceCorrect | redis_natives/set.py:60-68 | a text is in the difference exactly when the primary holds it and no operand does |
| SetProxy.DifferenceUpdateCorrect | redis_natives/set.py:70-78 | after `difference_update`, the primary keeps exactly its texts that no operand holds |
| SetProxy.SymmetricDifferenceCorrect | redis_natives/set.py:136-151 | `symmetric_difference` returns the texts that some, but not all, of the primary and the operands hold; the two extra keys and the operand temporaries are removed again |
| SetProxy.SymmetricDifferenceUpdateCorrect | redis_natives/set.py:153-168 | `symmetric_difference_update` stores those texts at the primary key and changes nothing else |
| SetProxy.SomeNotAllMeaning | redis_natives/set.py:136-151 | with one operand, "some but not all" is the usual symmetric difference |
| SetProxy.RejectedOperand | redis_natives/datatypes.py:200-203 | with `parse_args` corrected, a rejected operand makes every set operation raise `RedisTypeError` with store and handle unchanged |
| SetProxy.ReadOpAsWritten | redis_natives/datatypes.py:189-203 | the original read operations: on accepted operands, the same as the corrected ones; on a rejected operand, `RedisTypeError` with the store untouched |
| SetProxy.LeakedFillCounterexample | redis_natives/datatypes.py:189-203 | after `s.union({'a'}, 42)` raises, the next `s.union({'b'})` on an empty store returns `{'a', 'b'}` instead of `{'b'}` |
| SetProxy.LeakedCalls | redis_natives/datatypes.py:189-203 | the same leak for any pair of texts |
| SetMembers.Len | redis_natives/set.py:23-24 | `len` is the number of members |
| SetMembers.Contains | redis_natives/set.py:26-27 | `in` is membership of the prepared text; preparation errors propagate |
| SetMembers.Add | redis_natives/set.py:41-45 | `add` inserts the prepared text, returns 1 only when it was new, and touches no other key |
| SetMembers.Discard | redis_natives/set.py:82-87 | `discard` removes the prepared text, whether or not present, and touches no other key |
| SetMembers.RemoveCorrect | redis_natives/set.py:126-134 | `remove` changes the store as `discard` does, and raises `RedisKeyError` exactly when the value was absent |
| SetMembers.Clear | redis_natives/set.py:47-51 | `clear` empties the set and returns whether the key existed |
| SetMembers.Copy | redis_natives/set.py:53-58 | `copy(key)` gives a `str`-typed proxy on `key` holding the same members, other keys untouched |
| SetMembers.CopyReadsText | redis_natives/set.py:53-58 | the copy reads back the members as plain strings, whatever the original's type |
| SetMembers.IsSubsetText | redis_natives/set.py:192-193 | on a `str` set, `issubset(other)` holds exactly when every stored text, as a `str`, is in `other` |
| SetMembers.AddThenIsSubset | redis_natives/set.py:192-193 | after `add(v)` the set is a subset of `other` exactly when it was one before and `other` holds `v` |
| SetMembers.CompareSubsets | redis_natives/datatypes.py:218-229 | comparing two `Set` proxies where one's members are a subset of the other's: `<=` holds, `<` holds exactly when the subset is proper, and `>=` exactly when the two are equal |
| SetMembers.AddThenContains | redis_natives/set.py:41-45 | after `add(v)`, `v in s` |
| SetMembers.DiscardThenContains | redis_natives/set.py:82-87 | after `discard(v)`, not `v in s` |
| SetMembers.AddGrowsLen | redis_natives/set.py:41-45 | `len` grows by what `add` returns |
| SetMembers.AddDiscardRoundTrip | redis_natives/set.py:41-45 | adding an absent value and discarding it again restores the store |
| SetMembers.AddThenData | redis_natives/set.py:37-45 | after `add(v)`, `data` is the old data plus `v` |
| SetMembers.IsDisjointCorrect | redis_natives/datatypes.py:169-173 | `isdisjoint` is true exactly when the intersection of all the sets is empty |
| SetMembers.IsSupersetCorrect | redis_natives/datatypes.py:175-179 | for a `str` set, `issuperset(other)` is true exactly when everything `other` holds is already a member |
| ZSetProxy.StoreOpCorrect | redis_natives/zset.py:166-227 | `update` and `intersection_update` store the union or intersection of the primary and the operands at the primary key, scores aggregated, and change nothing else |
| ZSetProxy.UpdateCorrect | redis_natives/zset.py:166-182 | after `update`, a member is present exactly when some set had it, and its score is the aggregate of its scores |
| ZSetProxy.IntersectionUpdateCorrect | redis_natives/zset.py:207-227 | after `intersection_update`, a member is present exactly when every set had it, and its score is the aggregate of its scores |
| ZSetProxy.IntersectionCorrect | redis_natives/zset.py:184-205 | `intersection` returns the aggregated intersection converted through the declared type, with `__tmp__intersection` and the operand temporaries removed again |
| ZSetProxy.RankedPairs | redis_natives/zset.py:201-205 | the pairs ZRANGE returns are exactly the sorted set's (member, score) pairs |
| ZSetProxy.SymmetricDifferenceUpdateCorrect | redis_natives/zset.py:257-279 | `symmetric_difference_update` leaves at the primary key exactly the pairs of the summed union that are not pairs of the summed intersection, changes nothing else, and returns an empty set |
| ZSetProxy.SomeNotAllMeaning | redis_natives/zset.py:268-277 | those are the members some but not all sets hold, with their summed score |
| ZSetProxy.UnionLessInter | redis_natives/zset.py:274 | removing the intersection's pairs from the union's leaves exactly the "some but not all" members |
| ZSetMembers.DataSetMeaning | redis_natives/zset.py:50-59 | `set(z.data)` is the sorted set's (member, score) pairs, each converted |
| ZSetMembers.Union | redis_natives/zset.py:156-164 | a pair is in `union` exactly when it is in the data or in some operand |
| ZSetMembers.Difference | redis_natives/zset.py:229-236 | a pair is in `difference` exactly when it is in the data and in no operand |
| ZSetMembers.SymmetricDifference | redis_natives/zset.py:248-255 | a pair is in `symmetric_difference` exactly when it is in the data and in an even number of operands, or not in the data and in an odd number |
| ZSetMembers.SymmetricDifferenceOfOne | redis_natives/zset.py:248-255 | with one operand, that is the usual symmetric difference |
| ZSetMembers.DifferenceUpdate | redis_natives/zset.py:238-246 | `difference_update` fails exactly when reading the data fails, and then leaves its DEL queued on the pipe |
| ZSetMembers.DifferenceUpdateCorrect | redis_natives/zset.py:238-246 | for a `str` set, after `difference_update` the data is the difference and no other key changes |
| ZSetMembers.PopText | redis_natives/zset.py:287-300 | `pop` on an empty set raises `RedisKeyError`; otherwise the member at the picked rank is removed and returned, and nothing else changes |
| ZSetMembers.PopAsWritten | redis_natives/zset.py:287-302 | the original converts the popped text with the Python type itself |
| ZSetMembers.PopBoolZero | redis_natives/zset.py:302 | for a bool set holding only "0", the original returns `True`; the corrected one returns `False` |
| ZSetMembers.Pop | redis_natives/zset.py:287-302 | the corrected `pop` returns the removed member converted like every other read, and the set shrinks by one |
| ZSetMembers.GetItem | redis_natives/zset.py:111-118 | `z[i]` is the converted pair at rank `i`, with negative `i` counted from the end, or `IndexError` when out of range |
| ZSetMembers.GetSliceAsWritten | redis_natives/zset.py:93-110 | the original slice reads the ranks the original bounds give |
| ZSetMembers.GetSlice | redis_natives/zset.py:93-110 | the corrected slice reads exactly Python's slice of the rank order |
| ZSetMembers.StopZeroReadsTail | redis_natives/zset.py:95-99 | `z[s:0]` is empty in the corrected version but the whole tail from `s` in the original |
| ZSetMembers.SetSlice | redis_natives/zset.py:120-123 | assigning to a slice always raises; it is `TypeError` exactly when the value can be prepared |
| ListProxy.Len | redis_natives/list.py:28-29 | `len` is the number of items |
| ListProxy.Contains | redis_natives/list.py:18-22 | `in` is the presence of the prepared text among the items |
| ListProxy.GetIndex | redis_natives/list.py:49-50 | `l[i]` converts the item at `i`, with negative `i` counted from the end; out of range it converts nil (`"None"` for `str`, `TypeError` otherwise) |
| ListProxy.GetSliceAsWritten | redis_natives/list.py:35-48 | the original slice reads the items the original bounds give |
| ListProxy.GetSlice | redis_natives/list.py:35-48 | the corrected slice reads exactly Python's slice |
| ListProxy.StopZeroReadsTail | redis_natives/list.py:37-41 | `l[s:0]` is empty in the corrected version and a non-empty tail in the original |
| ListProxy.SetIndex | redis_natives/list.py:65-66 | `l[i] = v` replaces exactly the item at `i`, or fails with the server's error when `i` is out of range |
| ListProxy.SetSlice | redis_natives/list.py:52-64 | `l[s:e] = v` writes `v` at every index from `s` to `e` inclusive; the first out-of-range index stops it with an error after the earlier writes |
| ListProxy.Append | redis_natives/list.py:71-74 | `append` adds the prepared text at the end |
| ListProxy.Insert | redis_natives/list.py:90-101 | `insert` raises `IndexError` beyond the length, pushes at the front for index 0, and otherwise overwrites through `l[i] = v` |
| ListProxy.Pop | redis_natives/list.py:108-119 | `pop()` removes and returns the last item, `pop(0)` the first; an empty list returns converted nil; any other argument raises `TypeError` |
| ListProxy.Remove | redis_natives/list.py:121-138 | `remove` drops up to `n` occurrences (all of them for `all` or `n == 0`, from the end for negative `n`), raises `RedisValueError` when there was none, and rejects a non-integer count |
| ListProxy.RemoveOccurrencesCounts | redis_natives/list.py:121-138 | removal takes `min(abs(n), count)` copies of the value, or all of them when `n` is 0, and keeps every other value's count |
| ListProxy.AppendThenContains | redis_natives/list.py:71-74 | after `append(v)`, `v in l` |
| ListProxy.AppendThenPop | redis_natives/list.py:108-112 | `append(v)` then `pop()` returns `v` and restores the store |
| ListProxy.InsertFrontThenPopFront | redis_natives/list.py:90-115 | `insert(0, v)` then `pop(0)` returns `v` and restores the store |
| ListProxy.SetIndexThenGetIndex | redis_natives/list.py:49-66 | after `l[i] = v` for an index in range, `l[i]` is `v` |
| ListProxy.InsertInsideOverwrites | redis_natives/list.py:90-101 | `insert` at an inner index keeps the length and overwrites that item |
| ListProxy.InsertAtEndFails | redis_natives/list.py:93-101 | `insert` at the length of a non-empty list passes the guard but fails in LSET |
| ScalarProxy.GetValue | redis_natives/scalar.py:70-74 | `value` converts the stored text, or converts nil when the key is absent |
| ScalarProxy.SetValue | redis_natives/scalar.py:76-78 | setting `value` stores the prepared text and touches no other key |
| ScalarProxy.ValueRoundTrip | redis_natives/scalar.py:70-78 | a value of the declared type reads back as itself |
| ScalarProxy.Len | redis_natives/scalar.py:36-37 | `len` is the length of the stored text, 0 when absent |
| ScalarProxy.SetValueThenLen | redis_natives/scalar.py:36-78 | after setting `v`, `len` is the length of its stored text |
| ScalarProxy.IAdd | redis_natives/scalar.py:20-25 | for `int`, `+=` stores the numeric sum and fails on text operands or an unreadable value; for other types it appends the operand's text |
| ScalarProxy.IAddIntSum | redis_natives/scalar.py:20-22 | for `int`, setting `a` and then `+= b` reads back `a + b` |
| ScalarProxy.IAddStrAppends | redis_natives/scalar.py:23-24 | for `str`, `+=` appends the text, and `len` grows by its length |
| ScalarProxy.IAddMissingInt | redis_natives/scalar.py:20-22 | `+=` on an absent `int` scalar raises `TypeError` and changes nothing |
| ScalarProxy.GetSliceAsWritten | redis_natives/scalar.py:54-64 | the original `__getslice__(i, j)` reads `str`'s slice of the received indices when neither is negative and the stop is not 0, or the slice is `[0:0]` |
| ScalarProxy.GetSlice | redis_natives/scalar.py:54-64 | the corrected `__getslice__(i, j)` reads exactly `str`'s slice of the received indices |
| ScalarProxy.GetSliceIsPythonSlice | redis_natives/scalar.py:54-64 | written as `s[i:j]`, the corrected slice reads Python's slice of the text |
| ScalarProxy.StopZeroReadsSuffix | redis_natives/scalar.py:60-64 | a received `(i, 0)` with `0 < i < len(s)` is empty in the corrected version and the suffix from `i` in the original |
| ScalarProxy.NegativeStopReadsPrefix | redis_natives/scalar.py:60-64 | a received stop `j` with `-len(s) < j < 0` is empty in the corrected version and the first `len(s) + j` characters in the original |
| ScalarProxy.FarNegativeStopReadsHead | redis_natives/scalar.py:60-64 | a received stop `j <= -len(s)` is empty in the corrected version and the first character in the original |
| ScalarProxy.NegativeStartReadsSuffix | redis_natives/scalar.py:58-64 | a received start `i` with `-len(s) < i < 0` and a stop past the end reads the whole text in the corrected version and only the last `-i` characters in the original |

## Left out

- `dict.py`, `sequence.py`, and key management (`delete`, `rename`, `move`, `expire*`, `exists`, `redis_type`) are not part of this model.
- The package's `__init__.py`, the constructors' bulk initial fill and `extend` are not part of this model; stores are given directly.
- `Set.pop` and `Set.grab` are not modelled; they are plain SPOP/SRANDMEMBER.
- Several `ZSet` methods are not modelled: `add`, `discard`, `copy`, `clear`, `__contains__`, `__iter__`, `values`/`items`, `incr_score`, `rank_of`, `score_of`, `range_by_*`, `grab`, `*_copy`, `remove_range_by_*`, and the `ZOrder` helpers. Some of these call commands with the wrong arity.
- `ZSet.__setitem__` with an integer key is not modelled. Only the slice case, which always raises, is.
- `withscores=False` is not modelled; every ZRANGE returns pairs.
- Scores are integers. Redis and Python floats, and their text form, are not modelled.
- The `redis` client is not modelled as a library. What it sends, its pipeline object and its connection are covered only by `Store.Step`/`Store.Exec`.
- Network errors and concurrent writers are out of scope.
- WRONGTYPE errors are out of scope: a key of another kind reads as empty.
- `Scalar.__getslice__` takes the indices as Python 2 passes them: a negative index has had the length added once (`Slices.Received`), a missing start arrives as 0 and a missing stop as `sys.maxint`. `None` stands for a missing index; a stop of `sys.maxint` reads the same. `List` and `ZSet` slice through `__getitem__`, which gets the written indices.
- Text.ParseInt: accepts ASCII whitespace around an optional sign and decimal digits only. Other forms `int()` accepts, such as underscores or non-ASCII digits, are refused.
- Python's iteration order over sets is modelled as follows. A `set` operand is given in its iteration order. The pairs `ZSet.difference_update` writes back follow rank order.
- Engine.Dedup: a `list` operand is filled in list order, keeping each element's first occurrence. Python fills `set(list)` in hash order instead. The two give the same store whenever the fill order does not matter: always for `Set`, and for `ZSet` unless one member appears with two different scores. Then the score of the ZADD that runs last wins. So `z.update([('a', 1), ('a', 2)])` leaves score 2 in the model, where Python's hash order decides.
- ZSetProxy.UpdateCorrect: with a `list` operand that repeats a member under different scores, it states the score that list order gives, not the one Python's hash order gives (see Engine.Dedup above).
- ZSetProxy.StoreOpCorrect: with a `list` operand that repeats a member under different scores, it states the score that list order gives, not the one Python's hash order gives (see Engine.Dedup above).
- ZSetProxy.IntersectionUpdateCorrect: with a `list` operand that repeats a member under different scores, it states the score that list order gives, not the one Python's hash order gives (see Engine.Dedup above).
- ZSetProxy.IntersectionCorrect: with a `list` operand that repeats a member under different scores, it states the score that list order gives, not the one Python's hash order gives (see Engine.Dedup above).
- Engine.Dedup: values are compared structurally. Python's `True == 1` and `False == 0` (with equal hashes) are not modelled, so `set([1, True])` keeps two values here and one in Python. The set operations of SetProxy inherit this through the fills of a `list` operand that mixes `bool` and `int` values.
- SetProxy.ReadOpCorrect, SetProxy.StoreOpCorrect, SetProxy.UnionCorrect, SetProxy.UpdateCorrect, SetProxy.IntersectionCorrect, SetProxy.IntersectionUpdateCorrect, SetProxy.DifferenceCorrect, SetProxy.DifferenceUpdateCorrect, SetProxy.SymmetricDifferenceCorrect, SetProxy.SymmetricDifferenceUpdateCorrect and SetMembers.IsDisjointCorrect: a `list` operand that holds both `1` and `True` (or `0` and `False`) contributes both texts here. Python's `set()` keeps only the first of each such pair, so it contributes one text.
- SetMembers.AddThenIsSubset: `v in other` is structural, so an `int` set holding 1 is not a subset of `{True}` here, though it is in Python.
- ZSetMembers.Union: pairs are compared structurally, so `(1, 5)` and `(True, 5)` are different pairs here and equal in Python.
- ZSetMembers.Difference: pairs are compared structurally, so `(1, 5)` and `(True, 5)` are different pairs here and equal in Python.
- ZSetMembers.SymmetricDifference: pairs are compared structurally, so `(1, 5)` and `(True, 5)` are different pairs here and equal in Python.
- Store.SubstrBounds: GETRANGE is modelled as the Redis 2.x servers the library was written for (`redis>=2.0`) answer it. An end still negative after adding the length is clamped to 0. Servers that answer such a range differently are not modelled.
- `__iter__`, `__repr__` and `__reversed__` of every proxy are not modelled; they are reads already covered by `data` and slicing.
- ZSetMembers.DifferenceUpdateCorrect: proved for `str`-typed sets only. For `int` and `bool` the written texts are Python's `str()` of the converted values, which need not be the stored texts.
- SetMembers.IsSupersetCorrect: proved for `str`-typed sets only. For other types the union is converted before its length is taken, so members with equal conversions are counted once.
- ZSetMembers.PopText: stated for an idle handle only. With commands already queued on the shared pipe, the first reply belongs to them.
- ListProxy.Pop: `pop(i)` for `i != 0` calls `__delitem__(i)`, whose signature takes no index. It is modelled as the resulting `TypeError`.
- SetProxy.ReadOpCorrect: on a rejected operand this states the corrected `parse_args`, which raises before queueing anything. As written, the fills and temporary names of the earlier operands stay on the shared pipe; see the `parse_args` finding and `Engine.ParseArgsAsWritten`.
- SetProxy.StoreOpCorrect: on a rejected operand this states the corrected `parse_args`, which raises before queueing anything. As written, the fills and temporary names of the earlier operands stay on the shared pipe; see the `parse_args` finding and `Engine.ParseArgsAsWritten`.
- SetProxy.SymmetricDifferenceCorrect: on a rejected operand this states the corrected `parse_args`, which raises before queueing anything. As written, the fills and temporary names of the earlier operands stay on the shared pipe; see the `parse_args` finding and `Engine.ParseArgsAsWritten`.
- SetProxy.SymmetricDifferenceUpdateCorrect: on a rejected operand this states the corrected `parse_args`, which raises before queueing anything. As written, the fills and temporary names of the earlier operands stay on the shared pipe; see the `parse_args` finding and `Engine.ParseArgsAsWritten`.
- SetProxy.RejectedOperand: on a rejected operand this states the corrected `parse_args`, which raises before queueing anything. As written, the fills and temporary names of the earlier operands stay on the shared pipe; see the `parse_args` finding and `Engine.ParseArgsAsWritten`.
- SetMembers.IsDisjointCorrect: on a rejected operand this states the corrected `parse_args`, which raises before queueing anything. As written, the fills and temporary names of the earlier operands stay on the shared pipe; see the `parse_args` finding and `Engine.ParseArgsAsWritten`.
- ZSetProxy.StoreOpCorrect: on a rejected operand this states the corrected `parse_args`, which raises before queueing anything. As written, the fills and temporary names of the earlier operands stay on the shared pipe; see the `parse_args` finding and `Engine.ParseArgsAsWritten`.
- ZSetProxy.IntersectionCorrect: on a rejected operand this states the corrected `parse_args`, which raises before queueing anything. As written, the fills and temporary names of the earlier operands stay on the shared pipe; see the `parse_args` finding and `Engine.ParseArgsAsWritten`.
- ZSetProxy.SymmetricDifferenceUpdateCorrect: on a rejected operand this states the corrected `parse_args`, which raises before queueing anything. As written, the fills and temporary names of the earlier operands stay on the shared pipe; see the `parse_args` finding and `Engine.ParseArgsAsWritten`.
- The operators of `SetOperatorMixin` (`&`, `|`, `-`, `^` and their in-place forms, redis_natives/datatypes.py:139-167) are not modelled separately. Each one calls the modelled method of the same meaning (`intersection`, `union`, `difference`, `symmetric_difference`, or the `*_update` form) with one operand, and the in-place forms return the proxy itself.
- Engine.Compare: comparisons take both lengths as numbers; `len(other)` of a non-proxy argument is not modelled.

## Findings

| source | as written | input that shows it | evidently intended | confidence | as-written member | corrected member |
|---|---|---|---|---|---|---|
| redis_natives/list.py:37-41 | a slice stop of 0 is sent as LRANGE/ZRANGE stop -1, meaning "to the end" | `l[1:0]` on `['a','b','c']` reads `['b','c']`; the same holds for `z[1:0]` | an empty result, as Python's `[1:0]` | not executed | ListProxy.StopZeroReadsTail | ListProxy.GetSlice |
| redis_natives/zset.py:95-99 | the same stop translation in `ZSet.__getitem__` | `z[0:0]` on a non-empty sorted set reads every pair | an empty result | not executed | ZSetMembers.StopZeroReadsTail | ZSetMembers.GetSlice |
| redis_natives/scalar.py:54-64 | only `i == j == 0` is special-cased; a stop of 0 becomes GETRANGE end -1, meaning "to the end" | `s[2:0]` on "hello" reads "llo" | "" | not executed | ScalarProxy.StopZeroReadsSuffix | ScalarProxy.GetSlice |
| redis_natives/scalar.py:60-64 | a negative stop that arrives still negative (written below minus the length) is counted from the end a second time by GETRANGE | `"hello"[:-7]` arrives as `(0, -2)` and reads "hel" | "" | not executed | ScalarProxy.NegativeStopReadsPrefix | ScalarProxy.GetSlice |
| redis_natives/scalar.py:60-64 | a stop that arrives at or below minus the length becomes a GETRANGE end that Redis clamps to the first character | `"hello"[:-10]` arrives as `(0, -5)` and reads "h" | "" | not executed | ScalarProxy.FarNegativeStopReadsHead | ScalarProxy.GetSlice |
| redis_natives/scalar.py:58-64 | a negative start that arrives still negative is counted from the end a second time by GETRANGE | `"hello"[-7:]` arrives as `(-2, sys.maxint)` and reads "lo" | "hello" | not executed | ScalarProxy.NegativeStartReadsSuffix | ScalarProxy.GetSlice |
| redis_natives/datatypes.py:189-203 | `parse_args` queues fills and registers temporaries before it checks later arguments, and raising leaves both on the shared pipe | `s.union({'a'}, 42)` raises, then `s.union({'b'})` returns `{'a','b'}` | a rejected call leaves the pipe and the registry as they were | not executed | SetProxy.LeakedFillCounterexample | SetProxy.ReadOpCorrect |
| redis_natives/zset.py:302 | the popped member is converted with `self.type`, so a `bool` set applies `bool()` to the text | popping "0" from a `bool` sorted set returns `True` | `False`, as `type_convert` gives everywhere else | not executed | ZSetMembers.PopBoolZero | ZSetMembers.Pop |
