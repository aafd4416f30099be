/**
  The append-only accumulator that the list deserializer fills and then freezes. Whether the
  underlying immutable list admits null members is decided by the container library, so it is
  a parameter of the builder here.
 */
module GuavaBuilder {

  /** A Java reference to a `V` that may be null: the entries of the built list. */
  datatype Nullable<+V> = Null | NonNull(value: V)

  class ListBuilder<V> {
    /** Whether `Add` accepts a null entry; when it does not, adding null fails. */
    const admitsNull: bool
    /** The entries added so far, in the order they were added. */
    var entries: seq<Nullable<V>>

    /** The builder never holds a null entry that it does not admit. */
    ghost predicate Valid()
      reads this
    {
      forall i :: 0 <= i < |entries| && entries[i].Null? ==> admitsNull
    }

    constructor (admitsNull: bool)
      ensures Valid() && this.admitsNull == admitsNull && entries == []
    {
      this.admitsNull := admitsNull;
      entries := [];
    }

    /** Appends `x` at the end, unless `x` is null and nulls are not admitted; `ok` tells which. */
    method Add(x: Nullable<V>) returns (ok: bool)
      requires Valid()
      modifies this
      ensures Valid()
      ensures ok <==> x.NonNull? || admitsNull
      ensures entries == if ok then old(entries) + [x] else old(entries)
    {
      ok := x.NonNull? || admitsNull;
      if ok {
        entries := entries + [x];
      }
    }

    /** Freezes the builder: the immutable list holds exactly the entries added, in order. */
    method Build() returns (list: seq<Nullable<V>>)
      requires Valid()
      ensures list == entries
      ensures !admitsNull ==> forall i :: 0 <= i < |list| ==> list[i].NonNull?
    {
      list := entries;
    }
  }
}
