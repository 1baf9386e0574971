/**
 * `SortedArray` of src/data_objects/SortedArray.js: an array kept in
 * comparator order by pushing and then sorting the whole array. The
 * comparator is given as the key it subtracts (`compareFn(a, b) ==
 * key(a) - key(b)`), so the array's order is Sorting.SortByKey.
 */
module SortedArrays {
  import opened Sorting

  class SortedArray<T> {
    /** The items, in sorted order. */
    var data: seq<T>
    /** The comparator, as the key whose difference it returns. */
    const key: T -> int

    ghost predicate Valid()
      reads this
    {
      Sorted(data, key)
    }

    /** `new SortedArray(compareFn)`: empty, keeping the comparator. */
    constructor(key: T -> int)
      ensures Valid() && data == [] && this.key == key
    {
      data := [];
      this.key := key;
    }

    /**
     * `add`: push the item, then sort the whole array. On sorted data that
     * is inserting the item after every item of no larger key.
     */
    method Add(item: T)
      requires Valid()
      modifies this
      ensures Valid()
      ensures data == Insert(old(data), item, key)
    {
      var pushed := data + [item];
      PushSortIsInsert(data, item, key);
      InsertSorted(data, item, key);
      data := SortByKey(pushed, key);
    }

    /** `getAll`: the items in sorted order. */
    method GetAll() returns (items: seq<T>)
      requires Valid()
      ensures items == data && Sorted(items, key)
    {
      items := data;
    }
  }
}
