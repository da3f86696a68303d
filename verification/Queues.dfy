/** Bounded queues (src/arpc/queue.h) and promises (src/arpc/future.h).  Flags are booleans;
    what blocks is not modelled, the `maybe` operations are. */
module Queues {
  import opened Results

  /** queue<T>: under its lock, the two flags always say what the contents allow. */
  class Queue<T> {
    const maxSize: nat
    var data: seq<T>
    var canGet: bool
    var canPut: bool

    ghost predicate Valid()
      reads this
    {
      |data| <= maxSize && (canGet <==> data != []) && (canPut <==> |data| < maxSize)
    }

    constructor (maxSize: nat)
      ensures Valid() && data == [] && this.maxSize == maxSize
    {
      this.maxSize := maxSize;
      data := [];
      new;
      UpdateFlags();
    }

    method UpdateFlags()
      modifies this`canGet, this`canPut
      ensures canGet == (data != []) && canPut == (|data| != maxSize)
    {
      canGet := |data| != 0;
      canPut := |data| != maxSize;
    }

    method MaybePut(x: T) returns (r: Result<()>)
      requires Valid()
      modifies this
      ensures Valid()
      ensures |old(data)| == maxSize ==> r == Err(TryAgain) && data == old(data)
      ensures |old(data)| < maxSize ==> r.Ok? && data == old(data) + [x]
    {
      if |data| == maxSize {
        return Err(TryAgain);
      }
      data := data + [x];
      UpdateFlags();
      return Ok(());
    }

    method MaybeGet() returns (r: Result<T>)
      requires Valid()
      modifies this
      ensures Valid()
      ensures old(data) == [] ==> r == Err(TryAgain) && data == old(data)
      ensures old(data) != [] ==> r == Ok(old(data)[0]) && data == old(data)[1..]
    {
      if |data| == 0 {
        return Err(TryAgain);
      }
      r := Ok(data[0]);
      data := data[1..];
      UpdateFlags();
    }

    /** queue<T>::empty compares empty() with 0, so it answers true exactly when there is
        something in the queue. */
    method Empty() returns (r: bool)
      ensures r <==> data != []
    {
      return (|data| == 0) == false;
    }
  }

  /** queue<void>: only the number of tokens. */
  class Tokens {
    const maxSize: nat
    var size: nat
    var canGet: bool
    var canPut: bool

    ghost predicate Valid()
      reads this
    {
      size <= maxSize && (canGet <==> size > 0) && (canPut <==> size < maxSize)
    }

    constructor (maxSize: nat)
      ensures Valid() && size == 0 && this.maxSize == maxSize
    {
      this.maxSize := maxSize;
      size := 0;
      new;
      UpdateFlags();
    }

    method UpdateFlags()
      modifies this`canGet, this`canPut
      ensures canGet == (size != 0) && canPut == (size != maxSize)
    {
      canGet := size != 0;
      canPut := size != maxSize;
    }

    method MaybePut() returns (r: Result<()>)
      requires Valid()
      modifies this
      ensures Valid()
      ensures old(size) == maxSize ==> r == Err(TryAgain) && size == old(size)
      ensures old(size) < maxSize ==> r.Ok? && size == old(size) + 1
    {
      if size == maxSize {
        return Err(TryAgain);
      }
      size := size + 1;
      UpdateFlags();
      return Ok(());
    }

    method MaybeGet() returns (r: Result<()>)
      requires Valid()
      modifies this
      ensures Valid()
      ensures old(size) == 0 ==> r == Err(TryAgain) && size == old(size)
      ensures old(size) > 0 ==> r.Ok? && size == old(size) - 1
    {
      if size == 0 {
        return Err(TryAgain);
      }
      size := size - 1;
      UpdateFlags();
      return Ok(());
    }
  }

  /** A promise together with the state it shares with its future.  `open` says that the promise
      still holds the state; giving an outcome lets go of it. */
  class Promise<T> {
    var open: bool
    var result: Option<Result<T>>
    var ready: bool

    ghost predicate Valid()
      reads this
    {
      (open <==> result.None?) && (ready ==> result.Some?)
    }

    constructor ()
      ensures Valid() && open
    {
      open, result, ready := true, None, false;
    }

    /** set_value and set_exception: the first outcome stays; a second one is refused. */
    method Set(outcome: Result<T>) returns (r: Result<()>)
      requires Valid()
      modifies this
      ensures Valid() && !open
      ensures old(open) ==> r.Ok? && result == Some(outcome) && ready
      ensures !old(open) ==> r == Err(InvalidState) && result == old(result) && ready == old(ready)
    {
      if !open {
        return Err(InvalidState);
      }
      open := false;
      result := Some(outcome);
      ready := true;
      return Ok(());
    }

    /** ~promise: a promise that never got an outcome is broken. */
    method Destroy()
      requires Valid()
      modifies this
      ensures Valid() && !open
      ensures result == if old(open) then Some(Err(InvalidState)) else old(result)
    {
      if open {
        var _ := Set(Err(InvalidState));
      }
    }

    /** future::maybe_get.  A value is moved out: `husk` is what moving leaves of it, and what a
        further get finds.  An exception is thrown again by every get. */
    method MaybeGet(husk: T) returns (r: Result<T>)
      requires Valid()
      modifies this`ready, this`result
      ensures Valid()
      ensures r == (if old(result).None? then Err(TryAgain) else old(result).value)
      ensures result == (if old(result).Some? && r.Ok? then Some(Ok(husk)) else old(result))
      ensures ready == (old(ready) && result.None?)
    {
      match result
      case None => r := Err(TryAgain);
      case Some(outcome) =>
        ready := false;
        r := outcome;
        if outcome.Ok? {
          result := Some(Ok(husk));
        }
    }
  }
}
