/**
 The tag service: `upsertTags` and `deleteOrphanedTags`
 (src/quotes/tags.service.ts). The store and the colour generator are
 parameters; the transaction around `upsertTags` is the store's promise, so
 the body runs here as one sequence of store calls on `tx`.
 */
module TagsService {
  import opened Seqs
  import opened Tags
  import opened Store

  /** The `.map` that builds the insert data: one generator call per name, in order. */
  method GenerateInsertData(colors: ColorGenerator, names: seq<string>) returns (data: seq<NewTag>)
    modifies colors
    ensures colors.calls == old(colors.calls) + |names|
    ensures data == InsertData(names, colors.palette, old(colors.calls))
  {
    data := [];
    var i := 0;
    while i < |names|
      invariant 0 <= i <= |names|
      invariant colors.calls == old(colors.calls) + i
      invariant data == InsertData(names[..i], colors.palette, old(colors.calls))
    {
      var color := colors.Next();
      data := data + [NewTag(names[i], color)];
      i := i + 1;
    }
    assert names[..i] == names;
  }

  /** Ensures every name in `tags` has a row and returns the ids of those rows:
      the ones found first, then the ones it created. */
  method UpsertTags(tx: TagStore, colors: ColorGenerator, tags: seq<string>) returns (result: Outcome<seq<int>>)
    requires tx.Valid()
    modifies tx`rows, tx`nextId, tx`log, colors
    ensures tx.Valid()
    ensures colors.calls == old(colors.calls) + |Absent(old(tx.rows), tags)|
    ensures var existing := Existing(old(tx.rows), tags);
            var data := PlannedInserts(old(tx.rows), tags, colors.palette, old(colors.calls));
            && tx.log == old(tx.log) + [FindByNamesRequest(tags), CreateManyRequest(data)]
                         + (if result.Ok? && |data| > 0 then [FindByNamesExcludingIdsRequest(tags, Ids(existing))] else [])
            && (result.Ok? ==> result.value == Ids(existing) + Ids(Materialize(data, old(tx.nextId))))
    ensures match Upsert(old(tx.rows), old(tx.nextId), tags, colors.palette, old(colors.calls))
            case Ok(u) => result == Ok(u.ids) && tx.rows == u.rows && tx.nextId == u.nextId
            case Err(e) => result == Err(e) && tx.rows == old(tx.rows) && tx.nextId == old(tx.nextId)
  {
    ghost var rows0, nextId0, calls0, log0 := tx.rows, tx.nextId, colors.calls, tx.log;
    ghost var planned := PlannedInserts(rows0, tags, colors.palette, calls0);
    var existingTags := tx.FindByNames(tags);
    var existingNames := Names(existingTags);
    var existingIds := Ids(existingTags);

    var data := GenerateInsertData(colors, Missing(tags, existingNames));
    assert data == planned;
    ColourCalls(rows0, tags, colors.palette, calls0);
    var createdCount := tx.CreateMany(data);
    if createdCount.Err? {
      assert Upsert(rows0, nextId0, tags, colors.palette, calls0) == Err(DuplicateName);
      assert tx.log == log0 + [FindByNamesRequest(tags), CreateManyRequest(planned)];
      return Err(createdCount.error);
    }

    ghost var log1 := tx.log;
    assert log1 == log0 + [FindByNamesRequest(tags), CreateManyRequest(planned)];
    var tagIds := Ids(existingTags);
    UpsertShape(rows0, nextId0, tags, colors.palette, calls0);
    ghost var created := Materialize(data, nextId0);
    assert tx.rows == rows0 + created;
    if createdCount.value != 0 {
      PlannedFromInput(rows0, tags, colors.palette, calls0);
      RequeryFindsCreated(rows0, nextId0, tags, data);
      var createdTags := tx.FindByNamesExcludingIds(tags, existingIds);
      assert createdTags == created;
      var createdIds := Ids(createdTags);
      tagIds := tagIds + createdIds;
      assert tx.log == log1 + [FindByNamesExcludingIdsRequest(tags, Ids(Existing(rows0, tags)))];
    } else {
      assert created == [];
    }
    result := Ok(tagIds);
  }

  /** Deletes the tags among `ids` that no quote refers to; returns how many. */
  method DeleteOrphanedTags(store: TagStore, ids: seq<int>) returns (count: nat)
    requires store.Valid()
    modifies store`rows, store`log
    ensures store.Valid()
    ensures store.rows == Prune(old(store.rows), store.quoteCount, ids)
    ensures count == |Orphans(old(store.rows), store.quoteCount, ids)|
    ensures ids == [] ==> count == 0 && store.rows == old(store.rows)
  {
    PruneNoIds(store.rows, store.quoteCount);
    count := store.DeleteOrphans(ids);
  }
}
