/**
 * A `java.util.List` handed to a method that edits it in place. It behaves
 * as a mutable `ArrayList`: `addAll` of the list to itself doubles it.
 */
module JavaLists {

  /** The list object itself: every holder of the reference sees the edits. */
  class ListRef<T> {
    var elems: seq<T>

    constructor (init: seq<T>)
      ensures elems == init
    {
      elems := init;
    }
  }
}
