/** Bounds-checked reads from the whole-file byte buffer. Where the C# indexes `bytes[k]` and faults
    when `k` is outside the buffer, the model returns an error naming the first index that faults. */
module ByteBuffer {
  import opened LittleEndian

  /** Why a decode stopped: an index outside the buffer (C#'s index fault) or a negative frame
      count (C#'s fault on `new Frame[frameCount]`). */
  datatype Error = OutOfRange(index: int) | NegativeFrameCount(count: int)

  datatype Result<T> = Ok(value: T) | Err(error: Error)

  datatype Option<T> = None | Some(value: T)

  /** `bytes[k]`, or the fault it raises. */
  function ReadByte(bytes: seq<byte>, k: int): Result<byte>
  {
    if 0 <= k < |bytes| then Ok(bytes[k]) else Err(OutOfRange(k))
  }

  /** The reads `bytes[lo]`, `bytes[lo + 1]`, ..., `bytes[lo + n - 1]` done one after the other,
      stopping at the first fault: the reference meaning of a run of reads. */
  function ReadEach(bytes: seq<byte>, lo: int, n: nat): Result<seq<byte>>
    decreases n
  {
    if n == 0 then Ok([])
    else
      match ReadByte(bytes, lo)
      case Err(e) => Err(e)
      case Ok(b) =>
        match ReadEach(bytes, lo + 1, n - 1)
        case Err(e) => Err(e)
        case Ok(rest) => Ok([b] + rest)
  }

  /** The same run of reads in closed form: the window `bytes[lo..lo + n]`, or the first index that faults. */
  function ReadRange(bytes: seq<byte>, lo: int, n: nat): (r: Result<seq<byte>>)
    ensures r.Ok? <==> n == 0 || (0 <= lo && lo + n <= |bytes|)
    ensures r.Ok? ==> |r.value| == n && forall j :: 0 <= j < n ==> r.value[j] == bytes[lo + j]
  {
    if n == 0 then Ok([])
    else if 0 <= lo && lo + n <= |bytes| then Ok(bytes[lo..lo + n])
    else Err(OutOfRange(if 0 <= lo < |bytes| then |bytes| else lo))
  }

  /** The closed form agrees with the reads done one at a time, including which index faults first. */
  lemma {:induction false} ReadRangeIsSequential(bytes: seq<byte>, lo: int, n: nat)
    ensures ReadRange(bytes, lo, n) == ReadEach(bytes, lo, n)
    decreases n
  {
    if n > 0 && 0 <= lo < |bytes| {
      ReadRangeIsSequential(bytes, lo + 1, n - 1);
      if lo + n <= |bytes| {
        assert bytes[lo..lo + n] == [bytes[lo]] + bytes[lo + 1..lo + n];
      }
    }
  }

  /** Results taken in order, stopping at the first error: all the values, or the first error. */
  function Collect<T>(results: seq<Result<T>>): (r: Result<seq<T>>)
    ensures r.Ok? ==> |r.value| == |results| && forall i :: 0 <= i < |results| ==> results[i] == Ok(r.value[i])
    decreases |results|
  {
    if results == [] then Ok([])
    else
      var last := |results| - 1;
      match Collect(results[..last])
      case Err(e) => Err(e)
      case Ok(values) =>
        match results[last]
        case Err(e) => Err(e)
        case Ok(v) => Ok(values + [v])
  }

  /** Collecting fails exactly when some result is an error, and then with the first error. */
  lemma {:induction false} CollectFirstError<T>(results: seq<Result<T>>)
    ensures Collect(results).Ok? <==> forall i :: 0 <= i < |results| ==> results[i].Ok?
    ensures Collect(results).Err? ==>
      exists i :: 0 <= i < |results| && results[i] == Err(Collect(results).error) &&
        forall t :: 0 <= t < i ==> results[t].Ok?
    decreases |results|
  {
    if results != [] {
      var last := |results| - 1;
      var prefix := results[..last];
      CollectFirstError(prefix);
      assert forall i :: 0 <= i < last ==> prefix[i] == results[i];
      if Collect(prefix).Err? {
        var i :| 0 <= i < |prefix| && prefix[i] == Err(Collect(prefix).error) &&
          forall t :: 0 <= t < i ==> prefix[t].Ok?;
        assert results[i] == Err(Collect(results).error);
      } else {
        assert Collect(results).Err? ==> results[last] == Err(Collect(results).error);
      }
    }
  }

  /** An error among the first `k` results is the error of the whole collection. */
  lemma {:induction false} CollectErrorPersists<T>(results: seq<Result<T>>, k: nat)
    requires k <= |results| && Collect(results[..k]).Err?
    ensures Collect(results) == Collect(results[..k])
    decreases |results|
  {
    if k == |results| {
      assert results[..k] == results;
    } else {
      var last := |results| - 1;
      assert results[..last][..k] == results[..k];
      CollectErrorPersists(results[..last], k);
    }
  }

  /** Results that are all values collect to exactly those values. */
  lemma {:induction false} CollectAllOk<T>(results: seq<Result<T>>, values: seq<T>)
    requires |results| == |values| && forall i :: 0 <= i < |results| ==> results[i] == Ok(values[i])
    ensures Collect(results) == Ok(values)
    decreases |results|
  {
    if results != [] {
      var last := |results| - 1;
      CollectAllOk(results[..last], values[..last]);
      assert values == values[..last] + [values[last]];
    }
  }

  /** One more value extends the collection of a prefix. */
  lemma CollectNext<T>(results: seq<Result<T>>, n: nat, values: seq<T>)
    requires n < |results| && Collect(results[..n]) == Ok(values) && results[n].Ok?
    ensures Collect(results[..n + 1]) == Ok(values + [results[n].value])
  {
    assert results[..n + 1][..n] == results[..n];
  }

  /** The first error after a run of values is the error of the whole collection. */
  lemma CollectStops<T>(results: seq<Result<T>>, n: nat, values: seq<T>)
    requires n < |results| && Collect(results[..n]) == Ok(values) && results[n].Err?
    ensures Collect(results) == Err(results[n].error)
  {
    assert results[..n + 1][..n] == results[..n];
    CollectErrorPersists(results, n + 1);
  }
}
