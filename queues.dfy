/** A FIFO queue of bounded size that, instead of refusing a new item when it is
    full, discards its oldest item to make room. */
module Queues {
  import opened Results

  /** The queue after pushing `x` onto `items`: appended, and when the queue was
      at its (positive) capacity, with the oldest item removed first. */
  function Pushed<T>(items: seq<T>, x: T, maxsize: int): (r: seq<T>)
    requires maxsize > 0 ==> |items| <= maxsize
    ensures |r| > 0 && r[|r| - 1] == x
    ensures |r| == if 0 < maxsize == |items| then |items| else |items| + 1
    ensures maxsize > 0 ==> |r| <= maxsize
    ensures r == (items + [x])[|items| + 1 - |r|..]
  {
    if 0 < maxsize == |items| then items[1..] + [x] else items + [x]
  }

  /** Pushing keeps every older survivor, in FIFO order, and drops at most the oldest item. */
  lemma PushedKeepsOrder<T>(items: seq<T>, x: T, maxsize: int)
    requires maxsize > 0 ==> |items| <= maxsize
    ensures var r := Pushed(items, x, maxsize);
            && r[..|r| - 1] == items[|items| + 1 - |r|..]
            && (|r| == |items| ==> r[..|r| - 1] == items[1..])
            && (|r| == |items| + 1 ==> r[..|r| - 1] == items)
  {
    var r := Pushed(items, x, maxsize);
    assert r[..|r| - 1] == (items + [x])[|items| + 1 - |r|..][..|r| - 1];
  }

  /** `Queue.Queue` extended with `push`: `maxsize <= 0` means unbounded. */
  class PushQueue<T> {
    const maxsize: int
    var items: seq<T>

    ghost predicate Valid()
      reads this
    {
      maxsize > 0 ==> |items| <= maxsize
    }

    constructor (maxsize: int := 0)
      ensures Valid() && this.maxsize == maxsize && items == []
    {
      this.maxsize := maxsize;
      this.items := [];
    }

    /** `put(x, block=False)`: refused (`Full`) when the queue is at its capacity. */
    method PutNowait(x: T) returns (full: bool)
      requires Valid()
      modifies this`items
      ensures Valid()
      ensures full <==> 0 < maxsize == |old(items)|
      ensures items == if full then old(items) else old(items) + [x]
    {
      full := 0 < maxsize == |items|;
      if !full {
        items := items + [x];
      }
    }

    /** `get_nowait()`: the oldest item, or `Empty` (None) when there is none. */
    method GetNowait() returns (r: Option<T>)
      requires Valid()
      modifies this`items
      ensures Valid()
      ensures old(items) == [] ==> r == None && items == []
      ensures old(items) != [] ==> r == Some(old(items)[0]) && items == old(items)[1..]
    {
      if items == [] {
        r := None;
      } else {
        r := Some(items[0]);
        items := items[1..];
      }
    }

    /** `push(x, block=False)`: retry `put` until it succeeds, taking out the
        oldest item after each refusal. At most two attempts are made. */
    method Push(x: T) returns (ghost attempts: nat)
      requires Valid()
      modifies this`items
      ensures Valid()
      ensures items == Pushed(old(items), x, maxsize)
      ensures 1 <= attempts <= 2
    {
      var done := false;
      attempts := 0;
      while !done
        invariant Valid()
        invariant !done ==> attempts <= 1 && (attempts == 1 ==> |items| < maxsize)
        invariant !done ==> items == old(items) || (0 < maxsize == |old(items)| && items == old(items)[1..])
        invariant done ==> 1 <= attempts <= 2 && items == Pushed(old(items), x, maxsize)
        decreases if done then 0 else if 0 < maxsize == |items| then 2 else 1
      {
        var full := PutNowait(x);
        attempts := attempts + 1;
        if full {
          var _ := GetNowait();
        } else {
          done := true;
        }
      }
    }

    /** `push_nowait(x)`: the same as `push(x, block=False)`. */
    method PushNowait(x: T)
      requires Valid()
      modifies this`items
      ensures Valid()
      ensures items == Pushed(old(items), x, maxsize)
    {
      var _ := Push(x);
    }
  }
}
