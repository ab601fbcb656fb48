/** `File.read(noBytes)` of the fifth iteration (src/adap-b05/files/File.ts). The bytes come
    from `readNextByte()`, which subclasses override and which may throw; the model takes what
    its successive calls do as a sequence of outcomes, one per call. The loop counts every
    exception in one counter, and rethrows a MethodFailed once that counter has reached three;
    any other exception, and a MethodFailed before the third exception, leaves a zero byte. */
module FileRead {
  import opened Common

  /** What one call of `readNextByte()` does: return a number, or throw. */
  datatype ByteRead = Byte(value: int) | Throws(error: Error)

  /** Storing a number in an `Int8Array`: the value modulo 256, read as a signed byte. */
  function ToInt8(v: int): (r: int)
    ensures -128 <= r < 128
    ensures (r - v) % 256 == 0
  {
    (v + 128) % 256 - 128
  }

  /** The element a call leaves in the result: its value stored as a signed byte, or the 0 the
      fresh array holds when the call threw. */
  function ByteOf(o: ByteRead): (r: int)
    ensures -128 <= r < 128
    ensures o.Throws? ==> r == 0
  {
    match o
    case Byte(v) => ToInt8(v)
    case Throws(_) => 0
  }

  /** How many of the calls threw, whatever the exception. */
  function Failures(os: seq<ByteRead>): (r: nat)
    ensures r <= |os|
  {
    if os == [] then 0
    else Failures(os[..|os| - 1]) + (if os[|os| - 1].Throws? then 1 else 0)
  }

  /** Call i ends the read: it throws a MethodFailed and is at least the third call that threw. */
  predicate AbortsAt(os: seq<ByteRead>, i: nat)
    requires i < |os|
  {
    os[i] == Throws(MethodFailed) && Failures(os[..i + 1]) >= 3
  }

  /** What `read(noBytes)` returns, given what the first `noBytes` calls do: the MethodFailed of
      a call that ends the read, or else one signed byte per call. */
  function ReadOf(noBytes: nat, os: seq<ByteRead>): (r: Result<seq<int>>)
    requires noBytes <= |os|
    ensures r.Err? <==> exists i :: 0 <= i < noBytes && AbortsAt(os, i)
    ensures r.Err? ==> r.error == MethodFailed
    ensures r.Ok? ==> |r.value| == noBytes && forall i :: 0 <= i < noBytes ==> r.value[i] == ByteOf(os[i])
  {
    if exists i :: 0 <= i < noBytes && AbortsAt(os, i) then Err(MethodFailed)
    else Ok(seq(noBytes, i requires 0 <= i < noBytes => ByteOf(os[i])))
  }

  /** The loop of `read`: `os` holds what the calls of `readNextByte()` do, in order. */
  method Read(noBytes: nat, os: seq<ByteRead>) returns (r: Result<seq<int>>)
    requires noBytes <= |os|
    ensures r == ReadOf(noBytes, os)
  {
    var result := seq(noBytes, _ => 0);
    var tries := 0;
    var i := 0;
    while i < noBytes
      invariant 0 <= i <= noBytes && |result| == noBytes
      invariant tries == Failures(os[..i])
      invariant forall k :: 0 <= k < i ==> !AbortsAt(os, k)
      invariant forall k :: 0 <= k < i ==> result[k] == ByteOf(os[k])
      invariant forall k :: i <= k < noBytes ==> result[k] == 0
    {
      assert os[..i + 1][..i] == os[..i];
      if os[i].Byte? {
        result := result[i := ToInt8(os[i].value)];
      } else {
        tries := tries + 1;
        if os[i].error == MethodFailed && tries >= 3 {
          assert AbortsAt(os, i);
          return Err(MethodFailed);
        }
      }
      i := i + 1;
    }
    assert result == seq(noBytes, k requires 0 <= k < noBytes => ByteOf(os[k]));
    r := Ok(result);
  }

  // ---------------------------------------------------------------------------------------
  // properties
  // ---------------------------------------------------------------------------------------

  /** A signed byte is stored as it is, and numbers 256 apart are stored alike. */
  lemma ToInt8Wraps(v: int)
    ensures -128 <= v < 128 ==> ToInt8(v) == v
    ensures ToInt8(v + 256) == ToInt8(v)
  {
  }

  /** The count of failures only grows as calls are added. */
  lemma {:induction false} FailuresGrow(os: seq<ByteRead>, i: nat, j: nat)
    requires i <= j <= |os|
    ensures Failures(os[..i]) <= Failures(os[..j])
    decreases j - i
  {
    if i < j {
      FailuresGrow(os, i, j - 1);
      assert os[..j][..j - 1] == os[..j - 1];
    }
  }

  /** Fewer than three exceptions among the calls never end the read. */
  lemma FewFailuresNeverAbort(noBytes: nat, os: seq<ByteRead>)
    requires noBytes <= |os| && Failures(os[..noBytes]) < 3
    ensures ReadOf(noBytes, os).Ok?
  {
    forall i | 0 <= i < noBytes
      ensures !AbortsAt(os, i)
    {
      FailuresGrow(os, i + 1, noBytes);
    }
  }

  /** Only a MethodFailed ends the read: calls that throw anything else, however many, leave
      zero bytes. */
  lemma OtherExceptionsNeverAbort(noBytes: nat, os: seq<ByteRead>)
    requires noBytes <= |os| && forall i :: 0 <= i < noBytes ==> os[i] != Throws(MethodFailed)
    ensures ReadOf(noBytes, os).Ok?
  {
  }

  /** The stub `readNextByte()`, which returns 0 every time, reads `noBytes` zeros. */
  lemma StubReadsZeros(noBytes: nat, os: seq<ByteRead>)
    requires noBytes <= |os| && forall i :: 0 <= i < noBytes ==> os[i] == Byte(0)
    ensures ReadOf(noBytes, os) == Ok(seq(noBytes, _ => 0))
  {
    OtherExceptionsNeverAbort(noBytes, os);
    assert ReadOf(noBytes, os).value == seq(noBytes, _ => 0);
  }

  /** The counter is shared by all exceptions: two exceptions of another kind, then one
      MethodFailed, end a three-byte read, while the MethodFailed alone does not. */
  lemma ThirdFailureAborts()
    ensures ReadOf(3, [Throws(ServiceFailure), Throws(IllegalArgument), Throws(MethodFailed)]) == Err(MethodFailed)
    ensures ReadOf(3, [Byte(1), Byte(300), Throws(MethodFailed)]) == Ok([1, 44, 0])
  {
    var os := [Throws(ServiceFailure), Throws(IllegalArgument), Throws(MethodFailed)];
    assert os[..3] == os && os[..3][..2] == os[..2] == [Throws(ServiceFailure), Throws(IllegalArgument)];
    assert os[..2][..1] == [Throws(ServiceFailure)] && [Throws(ServiceFailure)][..0] == [];
    assert AbortsAt(os, 2);
    var ps := [Byte(1), Byte(300), Throws(MethodFailed)];
    assert ps[..3] == ps && ps[..3][..2] == ps[..2] == [Byte(1), Byte(300)];
    assert ps[..2][..1] == [Byte(1)] && [Byte(1)][..0] == [];
    FewFailuresNeverAbort(3, ps);
    assert ReadOf(3, ps).value == [1, 44, 0];
  }
}
