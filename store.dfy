/**
 The collaborators of the tag service: the tag table of the persistence store
 and the random colour generator, both passed to the service explicitly.

 `TagStore` stands in for the three store calls the service makes
 (`findMany`, `createMany`, `deleteMany`) and keeps a ghost log of the
 requests it received, so that what the service asked for, and in which
 order, can be stated. `ColorGenerator` hands out the colours of a fixed
 `palette`, the k-th call receiving `palette(k)`, and counts its calls.
 */
module Store {
  import opened Seqs
  import opened Tags

  /** A request the service sends to the store. */
  datatype Request =
    | FindByNamesRequest(names: seq<string>)
    | CreateManyRequest(data: seq<NewTag>)
    | FindByNamesExcludingIdsRequest(names: seq<string>, ids: seq<int>)
    | DeleteOrphansRequest(ids: seq<int>)

  class ColorGenerator {
    const palette: nat -> string
    var calls: nat

    constructor (palette: nat -> string)
      ensures this.palette == palette && calls == 0
    {
      this.palette := palette;
      calls := 0;
    }

    /** One call of the generator. */
    method Next() returns (color: string)
      modifies this
      ensures calls == old(calls) + 1
      ensures color == palette(old(calls))
    {
      color := palette(calls);
      calls := calls + 1;
    }
  }

  class TagStore {
    /** The tag table, in the order the store returns its rows. */
    var rows: seq<Tag>
    /** The id the next created row receives. */
    var nextId: int
    /** Number of quotes associated with each tag id; an absent id has none.
        Only tags in the table can have quotes. */
    var quoteCount: map<int, nat>
    /** The requests received so far. */
    ghost var log: seq<Request>

    ghost predicate Valid()
      reads this
    {
      TableValid(rows, nextId) && LinksValid(rows, quoteCount)
    }

    constructor (rows: seq<Tag>, nextId: int, quoteCount: map<int, nat>)
      requires TableValid(rows, nextId)
      requires LinksValid(rows, quoteCount)
      ensures Valid()
      ensures this.rows == rows && this.nextId == nextId && this.quoteCount == quoteCount
      ensures log == []
    {
      this.rows := rows;
      this.nextId := nextId;
      this.quoteCount := quoteCount;
      log := [];
    }

    /** `findMany` with `where: { name: { in: names } }`. */
    method FindByNames(names: seq<string>) returns (found: seq<Tag>)
      modifies this`log
      ensures found == Existing(rows, names)
      ensures forall t :: t in found <==> t in rows && t.name in names
      ensures log == old(log) + [FindByNamesRequest(names)]
    {
      found := Existing(rows, names);
      log := log + [FindByNamesRequest(names)];
    }

    /** `findMany` with `where: { name: { in: names }, id: { notIn: ids } }`. */
    method FindByNamesExcludingIds(names: seq<string>, ids: seq<int>) returns (found: seq<Tag>)
      modifies this`log
      ensures found == NamedExcept(rows, names, ids)
      ensures forall t :: t in found <==> t in rows && t.name in names && t.id !in ids
      ensures log == old(log) + [FindByNamesExcludingIdsRequest(names, ids)]
    {
      found := NamedExcept(rows, names, ids);
      log := log + [FindByNamesExcludingIdsRequest(names, ids)];
    }

    /** `createMany`: all rows or none. The unique constraint on `name` refuses
        the whole insert when a name repeats or is already taken; otherwise the
        rows get consecutive ids and the inserted count is returned. */
    method CreateMany(data: seq<NewTag>) returns (count: Outcome<nat>)
      requires Valid()
      modifies this`rows, this`nextId, this`log
      ensures Valid()
      ensures log == old(log) + [CreateManyRequest(data)]
      ensures Insertable(old(rows), data) ==>
                && count == Ok(|data|)
                && rows == old(rows) + Materialize(data, old(nextId))
                && nextId == old(nextId) + |data|
      ensures !Insertable(old(rows), data) ==>
                count == Err(DuplicateName) && rows == old(rows) && nextId == old(nextId)
    {
      log := log + [CreateManyRequest(data)];
      if Insertable(rows, data) {
        InsertKeepsTableValid(rows, nextId, data);
        InsertKeepsLinks(rows, Materialize(data, nextId), quoteCount);
        rows := rows + Materialize(data, nextId);
        nextId := nextId + |data|;
        count := Ok(|data|);
      } else {
        count := Err(DuplicateName);
      }
    }

    /** `deleteMany` with `where: { quotes: { none: {} }, id: { in: ids } }`:
        removes the rows with an id in `ids` and no quotes, and returns how many. */
    method DeleteOrphans(ids: seq<int>) returns (count: nat)
      requires Valid()
      modifies this`rows, this`log
      ensures Valid()
      ensures rows == Prune(old(rows), quoteCount, ids)
      ensures count == |Orphans(old(rows), quoteCount, ids)|
      ensures log == old(log) + [DeleteOrphansRequest(ids)]
    {
      var survivors := Prune(rows, quoteCount, ids);
      PruneCount(rows, quoteCount, ids);
      PruneKeepsTableValid(rows, nextId, quoteCount, ids);
      PruneKeepsLinks(rows, quoteCount, ids);
      count := |rows| - |survivors|;
      rows := survivors;
      log := log + [DeleteOrphansRequest(ids)];
    }
  }
}
