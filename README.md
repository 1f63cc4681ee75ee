# Transactional key-value store: layers, lookups, counts and commit

database.py is a small in-memory key-value store with nested transactions.
A `Context` keeps a stack of `Frame` layers, with the base layer at index 0.
Each layer holds the keys it assigns and the keys it deletes. It also holds,
for every value, the signed change this layer alone makes to the number of
keys holding that value. The commands are:

- `set` and `unset` change only the top layer.
- `get` scans the layers from the top.
- `numequalto` adds up every layer's count for a value.
- `begin` pushes an empty layer and `rollback` pops the top one.
- `commit` folds every transaction layer into the base layer.

The project has four modules:

- `Frames` (frame.dfy) holds the layer. It is a datatype, and its operations
  return the updated layer. The layer's back-reference to its context becomes
  a parameter `current`: the value the context's `get` answers for the key,
  which the context computes and passes in.
- `Stack` (stack.dfy) holds the specification of the stack as a sequence of
  layers:
  - `Resolve`: the topmost layer that says anything about a key decides it.
  - `Get`: a deletion reads as the string "NULL".
  - `Total`: the sum of the layers' counts for a value.
  - `KeysWith`: the keys the stack resolves to a value.
  - Pure versions of each command, with lemmas about them.
- `Fold` (fold.dfy) states exactly what the commit does to the base layer's
  counts.
- `Database` (database.dfy) holds the `Context` class. Its methods change the
  stack in place and are proved against the `Stack` functions.

The count invariant (`Stack.CountsExact`) says that for every value other than
"NULL", the total over the stack equals the number of keys the stack resolves
to that value. `Stack.PrefixCounts` asks the same of every prefix of the stack.
The contracts show the following:

- `set`, `unset`, `begin` and `rollback` keep that invariant.
- `numequalto` therefore answers the number of keys holding the value.
- A rollback undoes any sequence of edits made since the matching begin.

"NULL" itself is excluded from the invariant. Unsetting an already deleted key
makes `decrease` withdraw a count for the literal string "NULL", which `get`
reports for deleted keys. The count for "NULL" can therefore go negative
(`Stack.NullCountGoesNegative`).

The results the source prints become return values:

- `get` returns an `Option`. `None` stands for a key no layer mentions, which
  the source prints as "NULL".
- `numequalto` returns an `int`.
- `rollback` and `commit` return a `Status`. The invalid statuses are where
  the source prints its error messages.

The comments of database.py (lines 7-8) say that each layer keeps the number
of each of the values currently being stored, so after a commit `numequalto`
should still count the keys holding the value. The literal commit does not keep
that count invariant for a key the transaction assigns and the base layer does
not. The model follows the code as written: `Database.Context.Commit` states
the base layer's counts exactly (`Fold.FoldedCounts`), and "## Findings" shows
the discrepancy together with a corrected commit.

## Model

| member | source | states |
|---|---|---|
| Frames.Frame.Increase | database.py:39-41 | the layer's count for the given value rises by one, every other count is kept, and the assignments and deletions are unchanged |
| Frames.Frame.Decrease | database.py:43-58 | the count drops by one for the value the key displaced: the layer's own assignment if it has one, otherwise the context's current value; when there is neither, the layer is unchanged |
| Frames.Frame.Set | database.py:60-65 | afterwards the layer assigns the value to the key and no longer deletes it; other keys read as before; well-formedness is kept; counts lose the displaced value and gain the new one |
| Frames.Frame.Unset | database.py:74-79 | afterwards the layer deletes the key and does not assign it; other keys read as before; well-formedness is kept; the displaced value's count drops by one |
| Frames.Frame.Get | database.py:68-72 | the layer yields a value for a key exactly when it assigns that key, the value is its own assignment, and on a well-formed layer a key it deletes yields nothing |
| Frames.Frame.IsUnset | database.py:90-91 | a key is unset in the layer exactly when it is among the layer's deleted keys |
| Frames.Frame.AllDeleted | database.py:81-82 | the layer's deleted keys, none of which a well-formed layer also assigns |
| Frames.Frame.Keys | database.py:84-85 | the keys the layer assigns, disjoint from its deleted keys on a well-formed layer |
| Frames.Frame.NumEqualTo | database.py:87-88 | the layer's recorded change for the value, and 0 for a value the layer never recorded |
| Stack.ResolveIsTopmost | database.py:108-124 | the topmost layer that mentions a key decides what the stack says about it |
| Stack.ResolveUntouched | database.py:108-124 | the stack says nothing about a key exactly when no layer mentions it |
| Stack.SetTop | database.py:101-103 | a set changes only the top layer, the key then reads as the value, and every other key reads as before |
| Stack.UnsetTop | database.py:105-106 | an unset changes only the top layer, the key then reads as "NULL", and every other key reads as before |
| Stack.Push | database.py:134-135 | a begin keeps the layers below, and every lookup and every count is unchanged |
| Stack.Pop | database.py:137-141 | a rollback removes exactly the top layer and leaves at least the base layer |
| Stack.DisplacedIsHeld | database.py:47-58 | for a value other than "NULL", decrease withdraws that value exactly when the key currently resolves to it |
| Stack.SetTopKeepsCounts | database.py:60-65 | a set keeps the count invariant on every prefix of the stack |
| Stack.UnsetTopKeepsCounts | database.py:74-79 | an unset keeps the count invariant on every prefix of the stack |
| Stack.PushKeepsCounts | database.py:134-135 | a begin keeps the count invariant on every prefix of the stack |
| Stack.PopKeepsCounts | database.py:137-141 | a rollback keeps the count invariant on every prefix of the stack |
| Stack.InitialCounts | database.py:95-96 | the fresh context satisfies the count invariant |
| Stack.NullCountGoesNegative | database.py:55-58 | unsetting a key twice leaves it reading "NULL" while the count for "NULL" is -1 and no key is counted as holding "NULL" |
| Stack.Step | database.py:134-141 | no command takes the stack below its base layer |
| Stack.Run | database.py:101-106 | a sequence of sets and unsets keeps the stack's height and every layer below the top |
| Stack.RunKeepsCounts | database.py:126-132 | after any sequence of set, unset, begin and rollback, the total count for every value other than "NULL" is the number of keys holding it |
| Stack.RollbackRestores | database.py:134-141 | begin, then any sets and unsets, then rollback gives back exactly the stack before the begin |
| Fold.CommitSees | database.py:159-171 | when the commit first meets a key, the context still resolves it as before the commit, and the base layer's decrease withdraws the key's value at the top of the stack |
| Fold.FoldUnsetStep | database.py:160-164 | folding a deletion the walk meets first gives the base layer the transaction's decision for that key and adjusts its counts by exactly one withdrawal |
| Fold.FoldSetStep | database.py:166-171 | folding an assignment the walk meets first gives the base layer the transaction's value for that key and adjusts its counts by one withdrawal and one addition |
| Fold.FoldedAll | database.py:159-173 | once every transaction layer is folded, the keys seen are the ones the transactions mention and the base layer alone says what the whole stack said |
| Fold.NewKeyCountsCancel | database.py:163-170 | for a key the base layer did not assign, the literal commit withdraws and adds the same value, so the transaction's own count for it is lost |
| Database.Context.constructor | database.py:95-96 | a new context has one empty layer and satisfies the count invariant |
| Database.Context.CurrentFrame | database.py:98-99 | whatever the top layer says about a key is what the whole context says |
| Database.Context.Get | database.py:108-124 | the scan from the top returns the stack's resolved value: "NULL" for a deletion, the value for an assignment, nothing if no layer mentions the key |
| Database.Context.NumEqualTo | database.py:126-132 | the answer is the sum of the layers' counts, and under the count invariant it is the number of keys holding a value other than "NULL" |
| Database.Context.Set | database.py:101-103 | the context afterwards gets the value for the key, the stack is the set applied to the top layer, and the count invariant is kept |
| Database.Context.Unset | database.py:105-106 | the context afterwards gets "NULL" for the key, the stack is the unset applied to the top layer, and the count invariant is kept |
| Database.Context.Begin | database.py:134-135 | a layer is pushed, every get and every count is unchanged, and the count invariant is kept |
| Database.Context.Rollback | database.py:137-141 | with no transaction it reports an invalid rollback and changes nothing; otherwise it pops the top layer and keeps the count invariant |
| Database.Context.Commit | database.py:150-173 | with no transaction it reports an invalid commit and changes nothing; otherwise only the base layer remains, it says about every key what the whole stack said, and its counts are exactly the old ones minus the displaced values plus the assigned ones |
| Database.Context.FoldLayer | database.py:159-173 | folding one transaction layer and popping it extends the keys seen by those the layer mentions and keeps the base layer's decisions and counts as the commit's books require |
| Database.Context.FoldDeletions | database.py:160-164 | every deletion of the layer not seen before is applied to the base layer and marked as seen |
| Database.Context.FoldAssignments | database.py:166-171 | every assignment of the layer not seen before is applied to the base layer and marked as seen |
| Database.Context.CommitOntoBase | database.py:150-173 | the corrected commit: same statuses and the same resulting lookups as the commit, and it keeps the count invariant, so every count other than "NULL" is unchanged |
| Database.CommitMiscount | database.py:150-173 | begin, set a to 10, commit: a then reads 10 but numequalto 10 answers 0 |
| Database.CommitOntoBaseCounts | database.py:150-173 | the same commands with the corrected commit: a reads 10 and numequalto 10 answers 1 |

## Left out

- `main`, `Context.call` and all printing are not modelled. This covers reading commands from standard input, dispatching by name, the "INVALID OPERATION" message and the `do_print` flag of `get`. Printed results are return values instead.
- A layer is updated in place in the source. The model treats layers as values that are replaced, so object identity and aliasing are not captured. Nothing in the source shares a layer between two places.
- The layer's reference to its context is replaced by the `current` parameter of `Frames.Frame.Decrease`, `Set` and `Unset`. The context passes its own `get` answer there.
- The unused key parameter of `increase` is dropped.
- Python iterates dictionaries and sets in an unspecified order. The commit's inner loops pick any key not yet handled, so the contracts hold for every order.
- Values are opaque strings. Splitting command lines on whitespace belongs to `main` and is not modelled.
- Frames.Frame.Increase: states the layer's counts only through `NumEqualTo`, which reads a missing entry as 0. Whether an entry of 0 is present in the dictionary is not stated. The same holds for `Decrease`, `Set` and `Unset`.
- Database.Context.Commit: does not claim that the counts are kept, because the code as written does not keep them (see "## Findings"). It states the base layer's exact counts instead.
- Database.Context.CommitOntoBase: states the counts only for values other than "NULL". The count for "NULL" is outside the count invariant, as explained above.
- Stack.Step: the operation language for `Stack.Run` has set, unset, begin and rollback but not commit, because the literal commit does not keep the count invariant that `Stack.RunKeepsCounts` is about.

## Findings

| source | as written | input that shows it | evidently intended | confidence | as-written member | corrected member |
|---|---|---|---|---|---|---|
| database.py:159-173 | The base layer's `set` and `unset` run while the layer being folded is still on the stack. For a key the base layer does not assign, the base layer's `decrease` therefore withdraws the key's value in the transaction, which the base never counted, and the transaction layer's own +1 for that value is discarded when the layer is popped. A key the base layer already assigns is counted correctly. | `BEGIN`, `SET a 10`, `COMMIT`, `NUMEQUALTO 10` answers 0 | 1: after a commit `numequalto` still counts the keys holding the value (database.py:7-8) | high; not executed | Database.CommitMiscount | Database.Context.CommitOntoBase |
