/**
 The tag table and the two operations of the tag service, stated on values.

 A row of the table is a `Tag`. The store assigns ids from a counter that only
 grows, and the table keeps ids and names unique. `Upsert` says what
 `upsertTags` leaves behind and returns, `Prune` what `deleteOrphanedTags`
 leaves behind; the lemmas below state what the service promises about both.
 */
module Tags {
  import opened Seqs

  datatype Tag = Tag(id: int, name: string, color: string)

  /** A row handed to the bulk insert: the store assigns its id. */
  datatype NewTag = NewTag(name: string, color: string)

  /** The unique constraint on the name column refuses an insert. */
  datatype StoreError = DuplicateName

  datatype Outcome<T> = Ok(value: T) | Err(error: StoreError)

  /** The `name` column of a query result, in its order. */
  function Names(rows: seq<Tag>): seq<string>
  {
    seq(|rows|, i requires 0 <= i < |rows| => rows[i].name)
  }

  /** The `id` column of a query result, in its order. */
  function Ids(rows: seq<Tag>): seq<int>
  {
    seq(|rows|, i requires 0 <= i < |rows| => rows[i].id)
  }

  /** The names of the rows handed to the bulk insert. */
  function DataNames(data: seq<NewTag>): seq<string>
  {
    seq(|data|, i requires 0 <= i < |data| => data[i].name)
  }

  /** Two distinct rows of the table share neither id nor name. */
  predicate Apart(a: Tag, b: Tag)
  {
    a.id != b.id && a.name != b.name
  }

  /** The table invariant: unique ids, unique names, every id below the id counter. */
  ghost predicate TableValid(rows: seq<Tag>, nextId: int)
  {
    && Pairwise(rows, Apart)
    && forall t :: t in rows ==> t.id < nextId
  }

  // ---------------------------------------------------------------------------
  // The queries and the insert data of upsertTags
  // ---------------------------------------------------------------------------

  /** Rows whose name is one of `names` (`where: { name: { in: names } }`). */
  function Existing(rows: seq<Tag>, names: seq<string>): (r: seq<Tag>)
    ensures forall t :: t in r <==> t in rows && t.name in names
  {
    Filter(rows, (t: Tag) => t.name in names)
  }

  /** Rows whose name is one of `names` and whose id is not one of `ids`
      (`where: { name: { in: names }, id: { notIn: ids } }`). */
  function NamedExcept(rows: seq<Tag>, names: seq<string>, ids: seq<int>): (r: seq<Tag>)
    ensures forall t :: t in r <==> t in rows && t.name in names && t.id !in ids
  {
    Filter(rows, (t: Tag) => t.name in names && t.id !in ids)
  }

  /** The input names that are not among `existingNames`, in input order. */
  function Missing(tags: seq<string>, existingNames: seq<string>): (r: seq<string>)
    ensures forall n :: n in r <==> n in tags && n !in existingNames
    ensures |r| <= |tags|
  {
    Filter(tags, (n: string) => n !in existingNames)
  }

  /** The input names that name no row of the table, in input order. */
  function Absent(rows: seq<Tag>, tags: seq<string>): seq<string>
  {
    Filter(tags, (n: string) => n !in Names(rows))
  }

  /** One insert row per name, the i-th paired with the colour of generator call `from + i`. */
  function InsertData(names: seq<string>, palette: nat -> string, from: nat): (r: seq<NewTag>)
    ensures DataNames(r) == names
    ensures forall i :: 0 <= i < |r| ==> r[i].color == palette(from + i)
  {
    seq(|names|, i requires 0 <= i < |names| => NewTag(names[i], palette(from + i)))
  }

  /** The rows the store creates from `data`, numbered from `firstId` on. */
  function Materialize(data: seq<NewTag>, firstId: int): seq<Tag>
  {
    seq(|data|, i requires 0 <= i < |data| => Tag(firstId + i, data[i].name, data[i].color))
  }

  /** The unique constraint admits `data`: no name repeats and none is in the table. */
  predicate Insertable(rows: seq<Tag>, data: seq<NewTag>)
  {
    && Distinct(DataNames(data))
    && forall i :: 0 <= i < |data| ==> data[i].name !in Names(rows)
  }

  /** What `upsertTags` hands to the bulk insert when the colour generator has made `calls` calls. */
  function PlannedInserts(rows: seq<Tag>, tags: seq<string>, palette: nat -> string, calls: nat): seq<NewTag>
  {
    InsertData(Missing(tags, Names(Existing(rows, tags))), palette, calls)
  }

  datatype Upserted = Upserted(rows: seq<Tag>, nextId: int, ids: seq<int>)

  /** The table, the id counter and the ids after `upsertTags(tags)`: the missing
      names are inserted, and the result is what a lookup of the input names
      finds afterwards. */
  function Upsert(rows: seq<Tag>, nextId: int, tags: seq<string>, palette: nat -> string, calls: nat): (r: Outcome<Upserted>)
    ensures r.Ok? ==> rows <= r.value.rows && nextId <= r.value.nextId
    ensures r.Err? ==> r.error == DuplicateName
  {
    var data := PlannedInserts(rows, tags, palette, calls);
    if Insertable(rows, data) then
      var after := rows + Materialize(data, nextId);
      Ok(Upserted(after, nextId + |data|, Ids(Existing(after, tags))))
    else
      Err(DuplicateName)
  }

  // ---------------------------------------------------------------------------
  // deleteOrphanedTags
  // ---------------------------------------------------------------------------

  /** The tag `id` has at least one associated quote. */
  predicate HasQuotes(quoteCount: map<int, nat>, id: int)
  {
    id in quoteCount && quoteCount[id] > 0
  }

  /** Quotes can only be linked to tags that exist. */
  ghost predicate LinksValid(rows: seq<Tag>, quoteCount: map<int, nat>)
  {
    forall id :: HasQuotes(quoteCount, id) ==> id in Ids(rows)
  }

  /** `t` matches `where: { quotes: { none: {} }, id: { in: ids } }`. */
  predicate Orphan(quoteCount: map<int, nat>, ids: seq<int>, t: Tag)
  {
    t.id in ids && !HasQuotes(quoteCount, t.id)
  }

  /** The rows the bulk delete removes. */
  function Orphans(rows: seq<Tag>, quoteCount: map<int, nat>, ids: seq<int>): (r: seq<Tag>)
    ensures forall t :: t in r <==> t in rows && t.id in ids && !HasQuotes(quoteCount, t.id)
  {
    Filter(rows, (t: Tag) => Orphan(quoteCount, ids, t))
  }

  /** The table after the bulk delete: every row the delete does not match, in table order. */
  function Prune(rows: seq<Tag>, quoteCount: map<int, nat>, ids: seq<int>): (r: seq<Tag>)
    ensures forall t :: t in r <==> t in rows && (t.id !in ids || HasQuotes(quoteCount, t.id))
    ensures forall t :: t in rows && HasQuotes(quoteCount, t.id) ==> t in r
  {
    Filter(rows, (t: Tag) => !Orphan(quoteCount, ids, t))
  }

  // ---------------------------------------------------------------------------
  // Helper facts about the projections
  // ---------------------------------------------------------------------------

  lemma NameIn(rows: seq<Tag>, n: string)
    ensures n in Names(rows) <==> exists t :: t in rows && t.name == n
  {
    if n in Names(rows) {
      var i :| 0 <= i < |rows| && Names(rows)[i] == n;
      assert rows[i] in rows;
    }
    if exists t :: t in rows && t.name == n {
      var t :| t in rows && t.name == n;
      var i :| 0 <= i < |rows| && rows[i] == t;
      assert Names(rows)[i] == n;
    }
  }

  lemma IdIn(rows: seq<Tag>, id: int)
    ensures id in Ids(rows) <==> exists t :: t in rows && t.id == id
  {
    if id in Ids(rows) {
      var i :| 0 <= i < |rows| && Ids(rows)[i] == id;
      assert rows[i] in rows;
    }
    if exists t :: t in rows && t.id == id {
      var t :| t in rows && t.id == id;
      var i :| 0 <= i < |rows| && rows[i] == t;
      assert Ids(rows)[i] == id;
    }
  }

  lemma IdsConcat(a: seq<Tag>, b: seq<Tag>)
    ensures Ids(a + b) == Ids(a) + Ids(b)
  {
  }

  lemma PlannedNames(rows: seq<Tag>, tags: seq<string>, palette: nat -> string, calls: nat)
    ensures DataNames(PlannedInserts(rows, tags, palette, calls)) == Missing(tags, Names(Existing(rows, tags)))
  {
  }

  /** A row whose name is in the input is found by the first query. */
  lemma ExistingFinds(rows: seq<Tag>, tags: seq<string>, n: string)
    requires n in tags
    ensures n in Names(Existing(rows, tags)) <==> n in Names(rows)
  {
    NameIn(rows, n);
    NameIn(Existing(rows, tags), n);
  }

  // ---------------------------------------------------------------------------
  // Properties of the insert step
  // ---------------------------------------------------------------------------

  /** Filtering against the names the first query found is filtering against the
      whole table: the insert receives exactly the input names the store lacks. */
  lemma MissingIsAbsent(rows: seq<Tag>, tags: seq<string>)
    ensures Missing(tags, Names(Existing(rows, tags))) == Absent(rows, tags)
  {
    var ex := Names(Existing(rows, tags));
    forall n | n in tags ensures (n !in ex) == (n !in Names(rows)) {
      ExistingFinds(rows, tags, n);
    }
    FilterCongruent(tags, (n: string) => n !in ex, (n: string) => n !in Names(rows));
  }

  /** The missing names keep the input's relative order. */
  lemma MissingKeepsOrder(a: seq<string>, b: seq<string>, existingNames: seq<string>)
    ensures Missing(a + b, existingNames) == Missing(a, existingNames) + Missing(b, existingNames)
  {
    FilterConcat(a, b, (n: string) => n !in existingNames);
  }

  /** The generator is called once per input name that the store lacks, and not for any other. */
  lemma ColourCalls(rows: seq<Tag>, tags: seq<string>, palette: nat -> string, calls: nat)
    ensures |PlannedInserts(rows, tags, palette, calls)| == |Absent(rows, tags)|
    ensures |PlannedInserts(rows, tags, palette, calls)| + |Filter(tags, (n: string) => n in Names(rows))| == |tags|
    ensures (forall n :: n in tags ==> n in Names(rows)) ==> PlannedInserts(rows, tags, palette, calls) == []
  {
    MissingIsAbsent(rows, tags);
    FilterPartition(tags, (n: string) => n in Names(rows), (n: string) => n !in Names(rows));
    if forall n :: n in tags ==> n in Names(rows) {
      FilterDropsAll(tags, (n: string) => n !in Names(rows));
    }
  }

  /** The insert succeeds exactly when no missing name occurs twice in the input. */
  lemma UpsertSucceedsIff(rows: seq<Tag>, nextId: int, tags: seq<string>, palette: nat -> string, calls: nat)
    ensures Upsert(rows, nextId, tags, palette, calls).Ok? <==> Distinct(Absent(rows, tags))
  {
    var data := PlannedInserts(rows, tags, palette, calls);
    var missing := Missing(tags, Names(Existing(rows, tags)));
    PlannedNames(rows, tags, palette, calls);
    MissingIsAbsent(rows, tags);
    forall i | 0 <= i < |data| ensures data[i].name !in Names(rows) {
      assert data[i].name == missing[i];
      assert missing[i] in missing;
    }
  }

  // ---------------------------------------------------------------------------
  // Properties of the result and of the new table
  // ---------------------------------------------------------------------------

  /** Rows created by an admitted insert keep the table invariant. */
  lemma InsertKeepsTableValid(rows: seq<Tag>, nextId: int, data: seq<NewTag>)
    requires TableValid(rows, nextId)
    requires Insertable(rows, data)
    ensures TableValid(rows + Materialize(data, nextId), nextId + |data|)
  {
    var made := Materialize(data, nextId);
    var after := rows + made;
    forall i, j | 0 <= i < j < |after| ensures Apart(after[i], after[j]) {
      if j < |rows| {
        assert after[i] == rows[i] && after[j] == rows[j];
      } else if i < |rows| {
        assert after[i] == rows[i] && rows[i] in rows;
        assert after[j] == made[j - |rows|];
        assert Names(rows)[i] == rows[i].name;
      } else {
        assert after[i] == made[i - |rows|] && after[j] == made[j - |rows|];
        assert DataNames(data)[i - |rows|] == data[i - |rows|].name;
        assert DataNames(data)[j - |rows|] == data[j - |rows|].name;
      }
    }
    forall t | t in after ensures t.id < nextId + |data| {
      if t !in rows {
        var k :| 0 <= k < |made| && made[k] == t;
      }
    }
  }

  /** After an insert of rows named from the input, the first query finds the
      rows it found before followed by the created ones. */
  lemma ExistingAfterInsert(rows: seq<Tag>, tags: seq<string>, data: seq<NewTag>, nextId: int)
    requires forall i :: 0 <= i < |data| ==> data[i].name in tags
    ensures Existing(rows + Materialize(data, nextId), tags) == Existing(rows, tags) + Materialize(data, nextId)
  {
    var made := Materialize(data, nextId);
    FilterConcat(rows, made, (t: Tag) => t.name in tags);
    forall t | t in made ensures t.name in tags {
      var k :| 0 <= k < |made| && made[k] == t;
    }
    FilterKeepsAll(made, (t: Tag) => t.name in tags);
  }

  /** The second query of `upsertTags` (input names, ids not found by the first
      query) finds exactly the rows the insert created, in creation order. */
  lemma RequeryFindsCreated(rows: seq<Tag>, nextId: int, tags: seq<string>, data: seq<NewTag>)
    requires TableValid(rows, nextId)
    requires forall i :: 0 <= i < |data| ==> data[i].name in tags
    ensures NamedExcept(rows + Materialize(data, nextId), tags, Ids(Existing(rows, tags))) == Materialize(data, nextId)
  {
    var made := Materialize(data, nextId);
    var existingIds := Ids(Existing(rows, tags));
    var q := (t: Tag) => t.name in tags && t.id !in existingIds;
    FilterConcat(rows, made, q);
    forall t | t in rows ensures !q(t) {
      if t.name in tags {
        IdIn(Existing(rows, tags), t.id);
      }
    }
    FilterDropsAll(rows, q);
    forall t | t in made ensures q(t) {
      var k :| 0 <= k < |made| && made[k] == t;
      IdIn(Existing(rows, tags), t.id);
    }
    FilterKeepsAll(made, q);
  }

  /** Every row handed to the insert is named in the input. */
  lemma PlannedFromInput(rows: seq<Tag>, tags: seq<string>, palette: nat -> string, calls: nat)
    ensures var data := PlannedInserts(rows, tags, palette, calls);
            forall i :: 0 <= i < |data| ==> data[i].name in tags
  {
  }

  /** The rows the insert creates hold the missing names in input order, the
      k-th with the colour of the k-th generator call and the k-th fresh id. */
  lemma CreatedRows(rows: seq<Tag>, nextId: int, tags: seq<string>, palette: nat -> string, calls: nat)
    ensures var missing := Missing(tags, Names(Existing(rows, tags)));
            var created := Materialize(PlannedInserts(rows, tags, palette, calls), nextId);
            && |created| == |missing|
            && forall k :: 0 <= k < |created| ==> created[k] == Tag(nextId + k, missing[k], palette(calls + k))
  {
  }

  /** The shape of a successful upsert: the old rows stay as they were and are
      followed by the created ones, and the ids are the found ones followed by
      the created ones. */
  lemma UpsertShape(rows: seq<Tag>, nextId: int, tags: seq<string>, palette: nat -> string, calls: nat)
    requires Upsert(rows, nextId, tags, palette, calls).Ok?
    ensures var u := Upsert(rows, nextId, tags, palette, calls).value;
            var created := Materialize(PlannedInserts(rows, tags, palette, calls), nextId);
            && u.rows == rows + created
            && u.nextId == nextId + |created|
            && u.ids == Ids(Existing(rows, tags)) + Ids(created)
  {
    var data := PlannedInserts(rows, tags, palette, calls);
    var made := Materialize(data, nextId);
    assert Upsert(rows, nextId, tags, palette, calls).value == Upserted(rows + made, nextId + |data|, Ids(Existing(rows + made, tags)));
    PlannedFromInput(rows, tags, palette, calls);
    ExistingAfterInsert(rows, tags, data, nextId);
    IdsConcat(Existing(rows, tags), made);
  }

  /** When the insert creates nothing, the table is unchanged and the result is the first query's ids. */
  lemma UpsertNothingMissing(rows: seq<Tag>, nextId: int, tags: seq<string>, palette: nat -> string, calls: nat)
    requires PlannedInserts(rows, tags, palette, calls) == []
    ensures Upsert(rows, nextId, tags, palette, calls) == Ok(Upserted(rows, nextId, Ids(Existing(rows, tags))))
  {
    assert Materialize([], nextId) == [];
    assert rows + [] == rows;
  }

  /** A successful upsert keeps the table invariant. */
  lemma UpsertKeepsTableValid(rows: seq<Tag>, nextId: int, tags: seq<string>, palette: nat -> string, calls: nat)
    requires TableValid(rows, nextId)
    requires Upsert(rows, nextId, tags, palette, calls).Ok?
    ensures var u := Upsert(rows, nextId, tags, palette, calls).value;
            TableValid(u.rows, u.nextId)
  {
    InsertKeepsTableValid(rows, nextId, PlannedInserts(rows, tags, palette, calls));
  }

  /** After a successful upsert every input name names a row of the table. */
  lemma UpsertCoversInput(rows: seq<Tag>, nextId: int, tags: seq<string>, palette: nat -> string, calls: nat, n: string)
    requires Upsert(rows, nextId, tags, palette, calls).Ok?
    requires n in tags
    ensures n in Names(Upsert(rows, nextId, tags, palette, calls).value.rows)
  {
    var u := Upsert(rows, nextId, tags, palette, calls).value;
    var data := PlannedInserts(rows, tags, palette, calls);
    var missing := Missing(tags, Names(Existing(rows, tags)));
    NameIn(rows, n);
    NameIn(u.rows, n);
    if n !in Names(rows) {
      ExistingFinds(rows, tags, n);
      assert n in missing;
      var k :| 0 <= k < |missing| && missing[k] == n;
      var made := Materialize(data, nextId);
      assert u.rows[|rows| + k] == made[k];
      assert u.rows[|rows| + k] in u.rows;
    } else {
      var t :| t in rows && t.name == n;
      assert t in u.rows;
    }
  }

  /** The ids of a successful upsert: each is the id of a row named in the input,
      each such row contributes its id, and no id occurs twice. */
  lemma UpsertIds(rows: seq<Tag>, nextId: int, tags: seq<string>, palette: nat -> string, calls: nat)
    requires TableValid(rows, nextId)
    requires Upsert(rows, nextId, tags, palette, calls).Ok?
    ensures var u := Upsert(rows, nextId, tags, palette, calls).value;
            && (forall id :: id in u.ids <==> exists t :: t in u.rows && t.id == id && t.name in tags)
            && Distinct(u.ids)
  {
    var u := Upsert(rows, nextId, tags, palette, calls).value;
    var found := Existing(u.rows, tags);
    forall id ensures id in u.ids <==> exists t :: t in u.rows && t.id == id && t.name in tags {
      IdIn(found, id);
    }
    UpsertKeepsTableValid(rows, nextId, tags, palette, calls);
    FilterPairwise(u.rows, (t: Tag) => t.name in tags, Apart);
    forall i, j | 0 <= i < j < |u.ids| ensures u.ids[i] != u.ids[j] {
      assert Apart(found[i], found[j]);
    }
  }

  /** A successful upsert returns one id per distinct input name. */
  lemma UpsertIdCount(rows: seq<Tag>, nextId: int, tags: seq<string>, palette: nat -> string, calls: nat)
    requires TableValid(rows, nextId)
    requires Upsert(rows, nextId, tags, palette, calls).Ok?
    ensures |Upsert(rows, nextId, tags, palette, calls).value.ids| == |set n | n in tags|
  {
    var u := Upsert(rows, nextId, tags, palette, calls).value;
    var found := Existing(u.rows, tags);
    UpsertKeepsTableValid(rows, nextId, tags, palette, calls);
    FilterPairwise(u.rows, (t: Tag) => t.name in tags, Apart);
    var names := Names(found);
    assert Distinct(names) by {
      forall i, j | 0 <= i < j < |names| ensures names[i] != names[j] {
        assert Apart(found[i], found[j]);
      }
    }
    DistinctCardinality(names);
    assert (set n | n in names) == (set n | n in tags) by {
      forall n | n in names ensures n in tags {
        NameIn(found, n);
      }
      forall n | n in tags ensures n in names {
        UpsertCoversInput(rows, nextId, tags, palette, calls, n);
        NameIn(u.rows, n);
        NameIn(found, n);
      }
    }
  }

  /** A second upsert of the same names, with nothing deleted in between,
      creates nothing, calls the generator not at all and returns the same ids. */
  lemma UpsertIdempotent(rows: seq<Tag>, nextId: int, tags: seq<string>, palette: nat -> string, calls: nat, calls': nat)
    requires Upsert(rows, nextId, tags, palette, calls).Ok?
    ensures var u := Upsert(rows, nextId, tags, palette, calls).value;
            && PlannedInserts(u.rows, tags, palette, calls') == []
            && Upsert(u.rows, u.nextId, tags, palette, calls') == Ok(u)
  {
    var u := Upsert(rows, nextId, tags, palette, calls).value;
    forall n | n in tags ensures n in Names(u.rows) {
      UpsertCoversInput(rows, nextId, tags, palette, calls, n);
    }
    ColourCalls(u.rows, tags, palette, calls');
    UpsertNothingMissing(u.rows, u.nextId, tags, palette, calls');
  }

  /** An empty input creates nothing, calls the generator not at all and returns no ids. */
  lemma UpsertEmptyInput(rows: seq<Tag>, nextId: int, palette: nat -> string, calls: nat)
    ensures PlannedInserts(rows, [], palette, calls) == []
    ensures Upsert(rows, nextId, [], palette, calls) == Ok(Upserted(rows, nextId, []))
  {
    assert Existing(rows, []) == [] by {
      FilterDropsAll(rows, (t: Tag) => t.name in []);
    }
    assert Missing([], Names([])) == [];
    UpsertNothingMissing(rows, nextId, [], palette, calls);
    assert Ids([]) == [];
  }

  lemma NothingExisting(rows: seq<Tag>, tags: seq<string>)
    requires forall n :: n in tags ==> n !in Names(rows)
    ensures Existing(rows, tags) == []
  {
    forall t | t in rows ensures t.name !in tags {
      NameIn(rows, t.name);
    }
    FilterDropsAll(rows, (t: Tag) => t.name in tags);
  }

  /** Created rows take consecutive ids from the counter. */
  lemma FreshIds(data: seq<NewTag>, firstId: int)
    ensures Ids(Materialize(data, firstId)) == seq(|data|, k => firstId + k)
  {
  }

  /** Input names that all name no row: every one of them is planned for insertion, in input order. */
  lemma AllNewPlanned(rows: seq<Tag>, tags: seq<string>, palette: nat -> string, calls: nat)
    requires forall n :: n in tags ==> n !in Names(rows)
    ensures PlannedInserts(rows, tags, palette, calls) == InsertData(tags, palette, calls)
    ensures Absent(rows, tags) == tags
  {
    NothingExisting(rows, tags);
    assert Names(Existing(rows, tags)) == [];
    FilterKeepsAll(tags, (n: string) => n !in []);
    assert Missing(tags, []) == tags;
    MissingIsAbsent(rows, tags);
  }

  /** Input names all new and distinct: one generator call and one new id per name, in input order. */
  lemma UpsertAllNew(rows: seq<Tag>, nextId: int, tags: seq<string>, palette: nat -> string, calls: nat)
    requires Distinct(tags)
    requires forall n :: n in tags ==> n !in Names(rows)
    ensures PlannedInserts(rows, tags, palette, calls) == InsertData(tags, palette, calls)
    ensures Upsert(rows, nextId, tags, palette, calls).Ok?
    ensures Upsert(rows, nextId, tags, palette, calls).value.ids == seq(|tags|, k => nextId + k)
  {
    AllNewPlanned(rows, tags, palette, calls);
    UpsertSucceedsIff(rows, nextId, tags, palette, calls);
    NothingExisting(rows, tags);
    UpsertShape(rows, nextId, tags, palette, calls);
    FreshIds(InsertData(tags, palette, calls), nextId);
    assert Ids([]) == [];
  }

  // ---------------------------------------------------------------------------
  // Properties of deleteOrphanedTags
  // ---------------------------------------------------------------------------

  /** The delete removes exactly the orphans among `ids`, as many rows as it reports. */
  lemma PruneCount(rows: seq<Tag>, quoteCount: map<int, nat>, ids: seq<int>)
    ensures |rows| - |Prune(rows, quoteCount, ids)| == |Orphans(rows, quoteCount, ids)|
  {
    FilterPartition(rows, (t: Tag) => Orphan(quoteCount, ids, t), (t: Tag) => !Orphan(quoteCount, ids, t));
  }

  /** With no ids the delete removes nothing. */
  lemma PruneNoIds(rows: seq<Tag>, quoteCount: map<int, nat>)
    ensures Prune(rows, quoteCount, []) == rows
    ensures Orphans(rows, quoteCount, []) == []
  {
    FilterKeepsAll(rows, (t: Tag) => !Orphan(quoteCount, [], t));
    FilterDropsAll(rows, (t: Tag) => Orphan(quoteCount, [], t));
  }

  /** The delete keeps the table invariant. */
  lemma PruneKeepsTableValid(rows: seq<Tag>, nextId: int, quoteCount: map<int, nat>, ids: seq<int>)
    requires TableValid(rows, nextId)
    ensures TableValid(Prune(rows, quoteCount, ids), nextId)
  {
    FilterPairwise(rows, (t: Tag) => !Orphan(quoteCount, ids, t), Apart);
  }

  /** An insert only adds rows, so every quote stays linked to an existing tag. */
  lemma InsertKeepsLinks(rows: seq<Tag>, created: seq<Tag>, quoteCount: map<int, nat>)
    requires LinksValid(rows, quoteCount)
    ensures LinksValid(rows + created, quoteCount)
  {
    IdsConcat(rows, created);
  }

  /** The delete removes only rows without quotes, so every quote stays linked to an existing tag. */
  lemma PruneKeepsLinks(rows: seq<Tag>, quoteCount: map<int, nat>, ids: seq<int>)
    requires LinksValid(rows, quoteCount)
    ensures LinksValid(Prune(rows, quoteCount, ids), quoteCount)
  {
    forall id | HasQuotes(quoteCount, id) ensures id in Ids(Prune(rows, quoteCount, ids)) {
      IdIn(rows, id);
      var t :| t in rows && t.id == id;
      IdIn(Prune(rows, quoteCount, ids), id);
    }
  }

  /** A row the insert creates has no quotes yet, so a delete naming its id removes it. */
  lemma CreatedRowsAreOrphans(rows: seq<Tag>, nextId: int, quoteCount: map<int, nat>, data: seq<NewTag>, ids: seq<int>)
    requires TableValid(rows, nextId)
    requires LinksValid(rows, quoteCount)
    ensures forall t :: t in Materialize(data, nextId) ==> !HasQuotes(quoteCount, t.id)
    ensures forall t :: t in Materialize(data, nextId) && t.id in ids ==> t !in Prune(rows + Materialize(data, nextId), quoteCount, ids)
  {
    var made := Materialize(data, nextId);
    forall t | t in made ensures !HasQuotes(quoteCount, t.id) {
      var k :| 0 <= k < |made| && made[k] == t;
      if HasQuotes(quoteCount, t.id) {
        IdIn(rows, t.id);
      }
    }
  }
}
