/**
 The record of one name in a zone (dictionary.h).  Resource records are opaque
 values known by their text form.  Characters stand for bytes.
 */
module Records {
  import opened Common

  /** The identifier of a record: its name and its revision. */
  datatype Id = Id(name: string, revision: int)

  /** A count field beside a pointer to an array: `items` is None for NULL. */
  datatype Vector<T> = Vector(count: int, items: Option<seq<T>>)
  {
    /** The elements a loop up to `count` would visit. */
    function Elements(): seq<T> {
      if items.Some? then items.value else []
    }

    /** The count belongs to the array: both 0 and -1 mean a missing array. */
    predicate Consistent() {
      match items
      case None => count == 0 || count == -1
      case Some(s) => count == |s|
    }
  }

  datatype Signature = Signature(rr: Option<string>, keylocator: Option<string>, keyflags: int)

  datatype ItemSet = ItemSet(rrtype: int, items: Vector<Option<string>>)

  datatype Record = Record(
    name: Option<string>,
    revision: int,
    marker: int,
    spanhash: Option<string>,
    spansignatures: Vector<Signature>,
    validupto: Option<int>,
    validfrom: Option<int>,
    expiry: Option<int>,
    itemsets: Vector<ItemSet>)
  {
    function Identity(): Id { Id(if name.Some? then name.value else "", revision) }
  }
}
