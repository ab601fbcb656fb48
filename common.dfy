/** Failure kinds, results, and the three JavaScript array operations the name classes rely on. */
module Common {

  /** The exception classes the names and files raise. A precondition dispatched through the
      assertion dispatcher is an IllegalArgument, a postcondition a MethodFailed, a class
      invariant an InvalidState. PlainError is a bare JavaScript `Error`; TypeError is what
      JavaScript throws when a string method is called on `undefined`. */
  datatype Error = IllegalArgument | MethodFailed | InvalidState | ServiceFailure | PlainError | TypeError

  datatype Result<T> = Ok(value: T) | Err(error: Error)

  datatype Outcome = Pass | Fail(error: Error)

  datatype Option<T> = None | Some(value: T)

  /** `a[i] = x` on a JavaScript array: past the end the array grows, with holes between the old
      end and i. A hole reads as `hole`: the empty string where the array is joined into a
      string straight away, `undefined` (None) where an element is read back on its own. */
  function Assign<T>(a: seq<T>, i: nat, x: T, hole: T): (r: seq<T>)
    ensures |r| == if i < |a| then |a| else i + 1
    ensures r[i] == x
    ensures forall k :: 0 <= k < |a| && k != i ==> r[k] == a[k]
    ensures forall k :: |a| <= k < i ==> r[k] == hole
  {
    if i < |a| then a[i := x] else a + seq(i - |a|, _ => hole) + [x]
  }

  /** `a.splice(i, 0, x)`: an index past the end inserts at the end. */
  function SpliceInsert<T>(a: seq<T>, i: nat, x: T): (r: seq<T>)
    ensures |r| == |a| + 1
    ensures i <= |a| ==> r[i] == x && r[..i] == a[..i] && r[i + 1..] == a[i..]
    ensures i > |a| ==> r == a + [x]
  {
    if i <= |a| then a[..i] + [x] + a[i..] else a + [x]
  }

  /** `a.splice(i, 1)`: an index past the end removes nothing. */
  function SpliceRemove<T>(a: seq<T>, i: nat): (r: seq<T>)
    ensures i < |a| ==> |r| == |a| - 1 && r[..i] == a[..i] && r[i..] == a[i + 1..]
    ensures i >= |a| ==> r == a
  {
    if i < |a| then a[..i] + a[i + 1..] else a
  }

  /** Every element present: an array without holes. */
  function Present<T>(a: seq<T>): (r: seq<Option<T>>)
    ensures |r| == |a| && forall k :: 0 <= k < |a| ==> r[k] == Some(a[k])
  {
    seq(|a|, k requires 0 <= k < |a| => Some(a[k]))
  }

  /** How `+` writes an element into a string: `undefined` becomes the text "undefined". */
  function Text(c: Option<string>): string {
    match c
    case Some(s) => s
    case None => "undefined"
  }

  function Texts(cs: seq<Option<string>>): (r: seq<string>)
    ensures |r| == |cs| && forall k :: 0 <= k < |cs| ==> r[k] == Text(cs[k])
  {
    seq(|cs|, k requires 0 <= k < |cs| => Text(cs[k]))
  }

  /** Concatenation regroups freely. */
  lemma AppendAssoc<T>(a: seq<T>, b: seq<T>, c: seq<T>)
    ensures a + b + c == a + (b + c)
  {
  }
}
