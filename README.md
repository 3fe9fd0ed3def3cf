# Tag reconciler of the quotes service, modelled in Dafny

This project models the tag service of a quotes application. The model covers `src/quotes/tags.service.ts`:

- `upsertTags(tags)` takes a list of tag names. It makes sure each name has a row in the `Tag` table, creating the missing ones with a random light colour, and returns the rows' ids. Inside one transaction it:
  1. looks up the rows whose name is in the input;
  2. keeps the input names that lookup did not find, in input order;
  3. makes one colour per kept name;
  4. bulk-inserts the kept names with their colours;
  5. if the insert created rows, looks up the rows named in the input whose id the first lookup did not return;
  6. returns the first lookup's ids followed by the second's.
- `deleteOrphanedTags(ids)` bulk-deletes the tags whose id is in `ids` and that no quote refers to, and returns how many it removed.

Files and modules:

- `seqs.dfy` (`Seqs`): an order-preserving `Filter`, plus pairwise relations and distinctness with their lemmas. Both `Array.prototype.filter` and a store query with a `where` clause have this shape.
- `tags.dfy` (`Tags`): `Tag` rows and the table invariant. Ids are unique, names are unique, and every id lies below the store's id counter. A second invariant, `LinksValid`, says that only tags in the table have quotes.
  - The queries and the insert data as functions: `Existing`, `NamedExcept`, `Missing`, `InsertData`, `Materialize`.
  - The effect of both operations on values: `Upsert` and `Prune`.
  - The lemmas stating what the service promises.
- `store.dfy` (`Store`): two classes, both passed to the service explicitly.
  - `TagStore` holds the table, the id counter, the number of quotes per tag and a ghost log of the requests it received. Its methods stand in for `findMany`, `createMany` and `deleteMany`.
  - `ColorGenerator` stands in for `randomColor` and counts its calls. Its k-th call returns `palette(k)`.
- `tags_service.dfy` (`TagsService`): `UpsertTags` and `DeleteOrphanedTags` as methods on the store. Each one's contract ties the new store state and the result to `Upsert` and `Prune`.
- `tags_examples.dfy` (`TagExamples`): the scenarios of `src/quotes/tags.service.test.ts` and a worked scenario of the pruner, stated on the model.

The ids of a successful `upsertTags` are the first query's ids followed by the created rows' ids. The model proves this list equals what a fresh lookup of the input names returns after the insert (`Tags.Upsert`, `Tags.UpsertShape`, `TagsService.UpsertTags`). From that it follows that:

- no id appears twice;
- every id belongs to a row named in the input;
- there is one id per distinct input name;
- a second call with the same names creates nothing and returns the same list.

Two details of the call sequence, as the code has them:

- `createMany` is called on every call, with empty data when nothing is missing (lines 15-23). The model does the same, and the request log records that insert.
- The second query runs only when the insert reports a non-zero count (line 28).

The name column's unique constraint is not in the source shown (the schema is not part of this model). The model treats it as a store error, `DuplicateName`: `createMany` is refused as a whole when a name in its data repeats or is already taken. `upsertTags` then fails without changing the table. By `Tags.UpsertSucceedsIff`, this happens exactly when an input name the table lacks occurs twice in the input.

## Model

| member | source | states |
|---|---|---|
| `Seqs.Filter` | src/quotes/tags.service.ts:17 | The filter keeps exactly the elements that satisfy the predicate and is never longer than its input. |
| `Seqs.FilterConcat` | src/quotes/tags.service.ts:17 | Filtering distributes over concatenation, so relative order is kept. |
| `Tags.Existing` | src/quotes/tags.service.ts:6-9 | The first query returns exactly the rows whose name is in the input. |
| `Tags.NameIn` | src/quotes/tags.service.ts:11 | A name is among the found rows' names if and only if some found row has it. |
| `Tags.IdIn` | src/quotes/tags.service.ts:12 | An id is among the found rows' ids if and only if some found row has it. |
| `Tags.Missing` | src/quotes/tags.service.ts:17 | The kept names are exactly the input names not among the found names, and there are no more of them than input names. |
| `Tags.InsertData` | src/quotes/tags.service.ts:18-22 | The insert data carries the kept names unchanged, in order, and the i-th row gets the generator's i-th colour. |
| `Tags.NamedExcept` | src/quotes/tags.service.ts:29-35 | The second query returns exactly the rows named in the input whose id is not excluded. |
| `Tags.Upsert` | src/quotes/tags.service.ts:4-45 | A successful upsert only adds rows after the old ones and never moves the id counter back. A failed one reports `DuplicateName`. |
| `Tags.MissingIsAbsent` | src/quotes/tags.service.ts:11-17 | Testing names against those the first query found selects exactly the input names that name no row of the table. |
| `Tags.MissingKeepsOrder` | src/quotes/tags.service.ts:17 | The missing names keep the input's relative order. |
| `Tags.CreatedRows` | src/quotes/tags.service.ts:15-22 | The k-th created row has the k-th missing name, the k-th generator colour and the k-th fresh id. |
| `Tags.PlannedFromInput` | src/quotes/tags.service.ts:16-19 | Every row handed to the insert is named in the input. |
| `Tags.ColourCalls` | src/quotes/tags.service.ts:17-22 | There is one generator call per input occurrence of a name the store lacks. Calls and existing occurrences add up to the input length. No call is made when every name exists. |
| `Tags.UpsertSucceedsIff` | src/quotes/tags.service.ts:15-23 | The insert, and with it the upsert, succeeds if and only if no name the table lacks occurs twice in the input. |
| `Tags.InsertKeepsTableValid` | src/quotes/tags.service.ts:15-23 | An insert the unique constraint admits keeps ids and names unique and every id below the counter. |
| `Tags.ExistingAfterInsert` | src/quotes/tags.service.ts:6-9 | After the insert, a lookup of the input names finds the old matches followed by the created rows. |
| `Tags.RequeryFindsCreated` | src/quotes/tags.service.ts:29-35 | The second query finds exactly the created rows, in creation order, and none of the rows found first. |
| `Tags.UpsertShape` | src/quotes/tags.service.ts:25-38 | On success the old table is a prefix of the new one, followed by the created rows. The id counter advances by their number. The ids are the first query's ids followed by the created rows' ids. |
| `Tags.UpsertNothingMissing` | src/quotes/tags.service.ts:28-39 | When nothing is missing the table is unchanged and the result is the first query's ids. |
| `Tags.UpsertKeepsTableValid` | src/quotes/tags.service.ts:5-44 | A successful upsert keeps the table invariant. |
| `Tags.UpsertCoversInput` | src/quotes/tags.service.ts:4-45 | After a successful upsert every input name names a row of the table. |
| `Tags.UpsertIds` | src/quotes/tags.service.ts:29-38 | An id is in the result if and only if it is the id of a row named in the input. No id occurs twice. |
| `Tags.UpsertIdCount` | src/quotes/tags.service.ts:4-45 | The result has one id per distinct input name. |
| `Tags.UpsertIdempotent` | src/quotes/tags.service.ts:6-23 | A second upsert of the same names plans no insert (so no generator call), leaves the store as it is and returns the same ids. |
| `Tags.UpsertEmptyInput` | src/quotes/tags.service.ts:41-43 | Empty input plans no insert, leaves the table unchanged and returns no ids. |
| `Tags.AllNewPlanned` | src/quotes/tags.service.ts:15-22 | When no input name names a row, every input occurrence is planned for insertion, in input order. |
| `Tags.UpsertAllNew` | src/quotes/tags.service.test.ts:51-65 | When the input names are distinct and none exists, each is inserted with one generator call, in input order, and the result is the run of fresh ids. |
| `Tags.Prune` | src/quotes/tags.service.ts:47-54 | A row survives the delete if and only if its id is not in `ids` or it has quotes. A row with quotes always survives. |
| `Tags.Orphans` | src/quotes/tags.service.ts:48-52 | The orphans are exactly the rows whose id is in `ids` and that have no quotes. |
| `Tags.PruneCount` | src/quotes/tags.service.ts:47-53 | The number of removed rows equals the number of orphans whose id is in `ids`. |
| `Tags.PruneNoIds` | src/quotes/tags.service.ts:47-53 | With no ids nothing is removed and the count is zero. |
| `Tags.PruneKeepsTableValid` | src/quotes/tags.service.ts:47-53 | The delete keeps the table invariant. |
| `Tags.InsertKeepsLinks` | src/quotes/tags.service.ts:15-23 | Adding rows keeps every tag with quotes in the table. |
| `Tags.PruneKeepsLinks` | src/quotes/tags.service.ts:47-53 | The delete keeps every tag with quotes in the table. |
| `Tags.CreatedRowsAreOrphans` | src/quotes/tags.service.ts:15-23 | A row the insert creates has no quotes, so a later delete naming its id removes it. |
| `Store.ColorGenerator.Next` | src/quotes/tags.service.ts:21 | Each call returns the palette's next colour and increments the call counter. |
| `Store.TagStore.FindByNames` | src/quotes/tags.service.ts:6-9 | Returns the rows whose name is in the input, in table order, and logs the request. Nothing else changes. |
| `Store.TagStore.FindByNamesExcludingIds` | src/quotes/tags.service.ts:29-35 | Returns the rows named in the input whose id is not excluded, and logs the request. |
| `Store.TagStore.CreateMany` | src/quotes/tags.service.ts:15-23 | An admitted insert appends the rows with consecutive fresh ids and returns their count. A refused insert changes nothing and reports `DuplicateName`. |
| `Store.TagStore.DeleteOrphans` | src/quotes/tags.service.ts:48-53 | The table becomes `Prune` of the old table, and the returned count is the number of removed orphans. |
| `TagsService.GenerateInsertData` | src/quotes/tags.service.ts:17-22 | Makes one generator call per name, in order, pairing the i-th name with the i-th colour. |
| `TagsService.UpsertTags` | src/quotes/tags.service.ts:4-45 | The new table, counter and result are those of `Upsert`. The generator is called once per input occurrence of a name the store lacks. The store receives the first query, then the insert with exactly the planned rows, then the second query only when rows were created. The result is the first query's ids followed by the created ids. |
| `TagsService.DeleteOrphanedTags` | src/quotes/tags.service.ts:47-54 | Removes exactly the orphans among `ids` and returns their number. Empty `ids` remove nothing and return 0. |
| `TagExamples.OneOfThreePlanned` | src/quotes/tags.service.test.ts:25-48 | If `tag1` exists, the insert receives exactly `tag2` and `tag3`, each with the generator's colour. |
| `TagExamples.OneOfThreeFound` | src/quotes/tags.service.test.ts:70-73 | The first query for `tag1`, `tag2`, `tag3` finds only row 1. |
| `TagExamples.OneOfThreeInsert` | src/quotes/tags.service.test.ts:74-78 | The unique constraint admits `tag2` and `tag3`, and they become rows 2 and 3. |
| `TagExamples.OneOfThreeExists` | src/quotes/tags.service.test.ts:66-84 | If `tag1` exists as id 1, `tag2` and `tag3` are inserted as ids 2 and 3 and the result is `[1, 2, 3]`. |
| `TagExamples.ThreeNew` | src/quotes/tags.service.test.ts:51-65 | Three new names make three generator calls and yield three new ids. |
| `TagExamples.RepeatedMissingName` | src/quotes/tags.service.ts:15-23 | `["tag1", "tag1"]` against an empty table makes the insert fail on the unique constraint. |
| `TagExamples.PruneTagFive` | src/quotes/tags.service.ts:47-53 | A worked scenario of the pruner: deleting `[5]` removes tag 5 when no quote refers to it and keeps it when one does. |

## Left out

- The Prisma client, `$transaction` and rollback: `upsertTags` runs as one sequence of calls on the store. A refused insert changes nothing, so there is nothing to roll back in the model.
- Store connectivity and query failures (errors the store raises on its own) are not modelled. Only the unique-constraint failure of the insert is.
- Async/await and concurrent callers racing on the same name: nothing in the code coordinates them.
- The internals of `randomcolor` and its `luminosity: 'light'` option: a colour is an opaque string from an injected palette, indexed by the call number.
- Query order: the store returns rows in table (insertion) order. Prisma does not promise an order, so the model fixes one.
- Id assignment: created rows take consecutive ids from the store's counter, and a refused insert leaves the counter as it was. A database sequence need not be consecutive, and a failed insert may use up values. The members that name concrete ids depend on this choice: `Tags.CreatedRows`, `Tags.FreshIds`, `Tags.UpsertAllNew`, `TagExamples.OneOfThreeInsert`, `TagExamples.OneOfThreeExists` and `TagExamples.ThreeNew`.
- Query projection: the first query selects only `id` and `name`. The model's queries return whole rows, and the service reads only those two fields.
- Integer width: ids are unbounded integers. The JavaScript number range of the ids is not modelled.
- The quote–tag relation is kept only as a count of quotes per tag id. Managing quotes is outside this code.
- The test file's mocking machinery (`vi.mock`, `prismaMock`). Its scenarios appear as lemmas in `TagExamples`.
- The HTTP layer and the quote-management callers.
