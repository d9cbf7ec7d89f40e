/**
 * `flattenArray`, the reducer that appends one array onto another in place
 * and hands back the same array object.
 */
module Arrays {

  /** A JavaScript array: a mutable object whose contents change in place. */
  class JsArray<T> {
    var items: seq<T>

    constructor(items: seq<T>)
      ensures this.items == items
    {
      this.items := items;
    }

    /** `push(...values)`: appends the values in order. */
    method Push(values: seq<T>)
      modifies this
      ensures items == old(items) + values
    {
      items := items + values;
    }
  }

  /**
   * `flattenArray(accumulator, currentValue)`: pushes the elements of
   * `currentValue` onto `accumulator` and returns `accumulator` itself. The
   * elements are spread before the push starts, so even an array flattened
   * onto itself is appended exactly once.
   */
  method FlattenArray<T>(accumulator: JsArray<T>, currentValue: JsArray<T>) returns (result: JsArray<T>)
    modifies accumulator
    ensures result == accumulator
    ensures accumulator.items == old(accumulator.items) + old(currentValue.items)
    ensures |accumulator.items| == |old(accumulator.items)| + |old(currentValue.items)|
    ensures accumulator != currentValue ==> currentValue.items == old(currentValue.items)
  {
    accumulator.Push(currentValue.items);
    return accumulator;
  }
}
