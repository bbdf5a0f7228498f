/** Values that may be missing, and tables of them. */
module Options {

  datatype Option<T> = None | Some(value: T)

  /** The first free slot from the given one on, or the end. */
  function FirstFree<T>(slots: seq<Option<T>>, from: nat): (i: nat)
    requires from <= |slots|
    ensures from <= i <= |slots| && (i < |slots| ==> slots[i].None?)
    ensures forall k :: from <= k < i ==> slots[k].Some?
    decreases |slots| - from
  {
    if from == |slots| || slots[from].None? then from else FirstFree(slots, from + 1)
  }
}
