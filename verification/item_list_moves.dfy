/**
 * `moveItem` (ui/ClockInItemList.kt): moves an item from one displayed list to the other
 * after a clock-in or a withdrawal. Kotlin's `remove` drops the first element equal to the
 * item. The updated item is appended to the other list. `updateItem` mutates the item in
 * place; here it is a function applied to a copy.
 */
module ItemListMoves {
  import Lists

  /** The new from-list and the new to-list. */
  datatype Moved<T> = Moved(from: seq<T>, to: seq<T>)

  function MoveItem<T(==)>(from: seq<T>, to: seq<T>, itemToMove: T, updateItem: T -> T): (r: Moved<T>)
    ensures itemToMove !in from ==> r.from == from
    ensures itemToMove in from ==>
      exists i :: 0 <= i < |from| && from[i] == itemToMove && itemToMove !in from[..i]
        && r.from == from[..i] + from[i + 1..]
    ensures multiset(r.from) == multiset(from) - multiset{itemToMove}
    ensures |r.to| == |to| + 1 && r.to[..|to|] == to && r.to[|to|] == updateItem(itemToMove)
  {
    var newFrom := Lists.RemoveFirst(from, itemToMove);
    if itemToMove in from then
      Lists.RemoveFirstSplices(from, itemToMove);
      var i := Lists.FirstIndex(from, itemToMove);
      assert itemToMove !in from[..i];
      Moved(newFrom, to + [updateItem(itemToMove)])
    else
      Moved(newFrom, to + [updateItem(itemToMove)])
  }

  /** The other elements of the from-list keep their relative order. */
  lemma MoveKeepsOrder<T>(from: seq<T>, to: seq<T>, itemToMove: T, updateItem: T -> T)
    ensures Lists.SubsequenceOf(MoveItem(from, to, itemToMove, updateItem).from, from)
  {
    Lists.RemoveFirstPreservesOrder(from, itemToMove);
  }

  /** No membership check: an item absent from the from-list is still appended to the to-list. */
  lemma MoveAbsentItemStillAppends<T>(from: seq<T>, to: seq<T>, itemToMove: T, updateItem: T -> T)
    requires itemToMove !in from
    ensures MoveItem(from, to, itemToMove, updateItem) == Moved(from, to + [updateItem(itemToMove)])
  {
  }
}
