/** Optional values: Python's `None` versus a present value. */
module Wrappers {

  datatype Option<+T> = None | Some(value: T)

  /** The value of `o` as a sequence of zero or one elements. */
  function OptionToSeq<T>(o: Option<T>): (r: seq<T>)
    ensures o.None? <==> r == []
    ensures o.Some? ==> r == [o.value]
  {
    if o.Some? then [o.value] else []
  }

  /** The present values of `opts`, in order (`[x for x in opts if x is not None]`). */
  function Somes<T>(opts: seq<Option<T>>): (r: seq<T>)
    ensures |r| <= |opts|
    ensures forall x :: x in r ==> Some(x) in opts
  {
    if opts == [] then []
    else
      var prev := Somes(opts[..|opts| - 1]);
      match opts[|opts| - 1]
      case Some(x) => prev + [x]
      case None => prev
  }

}
