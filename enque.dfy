/** `Array.Enque<T>`: a container that appends to a private array. Despite its
    name, `deque` appends too and nothing ever removes an item. */
module Queue {
  import opened Wrappers

  class Enque<T> {
    /** the stored items, oldest first (the source's `array`) */
    var items: seq<T>
    /** set once by the initialiser and never read or written afterwards */
    var element: Option<T>

    constructor (element: Option<T> := None)
      ensures items == [] && this.element == element
    {
      items := [];
      this.element := element;
    }

    /** enque: append `x` at the end */
    method Enque(x: T)
      modifies this
      ensures items == old(items) + [x]
      ensures |items| == |old(items)| + 1 && items[|items| - 1] == x
      ensures element == old(element)
    {
      items := items + [x];
    }

    /** deque: append `x` when it is present; otherwise only a message is printed */
    method Deque(x: Option<T>)
      modifies this
      ensures x.Some? ==> items == old(items) + [x.value]
      ensures x.None? ==> items == old(items)
      ensures old(items) <= items
      ensures element == old(element)
    {
      if x.Some? {
        items := items + [x.value];
      }
    }

    /** peak: the last item, which the source only prints */
    method Peak() returns (last: Option<T>)
      ensures last.None? <==> items == []
      ensures last.Some? ==> last.value == items[|items| - 1]
    {
      if |items| == 0 {
        last := None;
      } else {
        last := Some(items[|items| - 1]);
      }
    }
  }
}
