/**
 The scenarios of the service's unit tests (src/quotes/tags.service.test.ts)
 and worked scenarios of the pruner, stated on the model with a generator
 that always answers "#ffffff".
 */
module TagExamples {
  import opened Seqs
  import opened Tags

  function White(k: nat): string { "#ffffff" }

  /** `tag1` exists with id 1: the insert receives only `tag2` and `tag3`, each
      with the generator's colour. */
  lemma OneOfThreePlanned()
    ensures PlannedInserts([Tag(1, "tag1", "#ffffff")], ["tag1", "tag2", "tag3"], White, 0)
            == [NewTag("tag2", "#ffffff"), NewTag("tag3", "#ffffff")]
  {
    var rows := [Tag(1, "tag1", "#ffffff")];
    var tags := ["tag1", "tag2", "tag3"];
    assert Existing(rows, tags) == rows by {
      assert rows[1..] == [];
    }
    assert Names(rows) == ["tag1"];
    assert Missing(tags, ["tag1"]) == ["tag2", "tag3"] by {
      assert tags[1..] == ["tag2", "tag3"];
      assert tags[1..][1..] == ["tag3"];
      assert tags[1..][1..][1..] == [];
    }
    assert PlannedInserts(rows, tags, White, 0) == InsertData(["tag2", "tag3"], White, 0);
    assert InsertData(["tag2", "tag3"], White, 0) == [NewTag("tag2", "#ffffff"), NewTag("tag3", "#ffffff")] by {
      var d := InsertData(["tag2", "tag3"], White, 0);
      assert d[0] == NewTag("tag2", White(0)) && White(0) == "#ffffff";
      assert d[1] == NewTag("tag3", White(1)) && White(1) == "#ffffff";
    }
  }

  /** The unique constraint admits `tag2` and `tag3` next to `tag1`, and they
      become rows 2 and 3. */
  lemma OneOfThreeInsert()
    ensures Insertable([Tag(1, "tag1", "#ffffff")], [NewTag("tag2", "#ffffff"), NewTag("tag3", "#ffffff")])
    ensures Materialize([NewTag("tag2", "#ffffff"), NewTag("tag3", "#ffffff")], 2)
            == [Tag(2, "tag2", "#ffffff"), Tag(3, "tag3", "#ffffff")]
  {
    var data := [NewTag("tag2", "#ffffff"), NewTag("tag3", "#ffffff")];
    assert DataNames(data) == ["tag2", "tag3"];
    assert Names([Tag(1, "tag1", "#ffffff")]) == ["tag1"];
  }

  /** The first query for `tag1`, `tag2`, `tag3` finds only row 1. */
  lemma OneOfThreeFound()
    ensures Existing([Tag(1, "tag1", "#ffffff")], ["tag1", "tag2", "tag3"]) == [Tag(1, "tag1", "#ffffff")]
    ensures Ids(Existing([Tag(1, "tag1", "#ffffff")], ["tag1", "tag2", "tag3"])) == [1]
  {
    var rows := [Tag(1, "tag1", "#ffffff")];
    assert rows[1..] == [];
  }

  /** `tag1` exists with id 1; `tag2` and `tag3` are created as ids 2 and 3,
      and the result is [1, 2, 3]. */
  lemma OneOfThreeExists()
    ensures Upsert([Tag(1, "tag1", "#ffffff")], 2, ["tag1", "tag2", "tag3"], White, 0)
            == Ok(Upserted([Tag(1, "tag1", "#ffffff"), Tag(2, "tag2", "#ffffff"), Tag(3, "tag3", "#ffffff")], 4, [1, 2, 3]))
  {
    var rows := [Tag(1, "tag1", "#ffffff")];
    var tags := ["tag1", "tag2", "tag3"];
    var made := [Tag(2, "tag2", "#ffffff"), Tag(3, "tag3", "#ffffff")];
    OneOfThreePlanned();
    OneOfThreeInsert();
    OneOfThreeFound();
    UpsertShape(rows, 2, tags, White, 0);
    assert Ids(made) == [2, 3];
    var u := Upsert(rows, 2, tags, White, 0).value;
    assert rows + made == [Tag(1, "tag1", "#ffffff"), Tag(2, "tag2", "#ffffff"), Tag(3, "tag3", "#ffffff")];
    assert u.ids == [1] + [2, 3] == [1, 2, 3];
    assert Upsert(rows, 2, tags, White, 0) == Ok(u);
  }

  /** Three new names: three generator calls and three new ids. */
  lemma ThreeNew()
    ensures var tags := ["tag1", "tag2", "tag3"];
            && |PlannedInserts([], tags, White, 0)| == 3
            && Upsert([], 1, tags, White, 0).Ok?
            && Upsert([], 1, tags, White, 0).value.ids == [1, 2, 3]
  {
    var tags := ["tag1", "tag2", "tag3"];
    assert Names([]) == [];
    UpsertAllNew([], 1, tags, White, 0);
  }

  /** A name repeated in the input and missing from the table makes the insert fail. */
  lemma RepeatedMissingName()
    ensures Upsert([], 1, ["tag1", "tag1"], White, 0) == Err(DuplicateName)
  {
    var tags := ["tag1", "tag1"];
    UpsertSucceedsIff([], 1, tags, White, 0);
    assert Names([]) == [];
    assert Absent([], tags) == tags by {
      FilterKeepsAll(tags, (n: string) => n !in Names([]));
    }
  }

  /** A worked scenario of the pruner: `deleteOrphanedTags([5])` against a table
      holding tag 5 removes it when no quote refers to it and keeps it when one does. */
  lemma PruneTagFive()
    ensures var rows := [Tag(5, "tag5", "#ffffff")];
            && Prune(rows, map[5 := 1], [5]) == rows
            && |Orphans(rows, map[5 := 1], [5])| == 0
            && Prune(rows, map[], [5]) == []
            && |Orphans(rows, map[], [5])| == 1
  {
  }
}
