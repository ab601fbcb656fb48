/** The abstract base class of the third iteration (src/adap-b03/names/AbstractName.ts). Its
    constructor takes any delimiter without a check, and its template methods reach a name only
    through `getNoComponents`, `getComponent` and the delimiter. Nothing in this iteration keeps
    the count and the components in step: an index below `getNoComponents()` may read back
    `undefined`, or `getComponent` may throw, and the template methods pass on what they get. */
module AbstractNameB03 {
  import opened Common
  import opened Escaping
  import opened Hashing
  import AbstractNameB04
  import AbstractNameB05

  /** What one `getComponent(i)` call gives a template method: a string, `undefined`, or an
      exception. */
  datatype Read = Got(value: string) | Undefined | Threw(error: Error)

  datatype Shape = Snapshot(delimiter: char, count: int, components: seq<Read>)

  /** A name as a template method sees it: its delimiter, `getNoComponents()` (which may be
      negative), and the outcome of `getComponent(i)` for every index below it. */
  type Snapshot = n: Shape | |n.components| == Size(n.count) witness Snapshot('.', 0, [])

  /** How many indices a loop `i < count` visits. */
  function Size(count: int): nat {
    if count < 0 then 0 else count
  }

  /** The read of a `getComponent` that returns a string or `undefined` (None). */
  function Returned(c: Option<string>): Read {
    match c
    case Some(s) => Got(s)
    case None => Undefined
  }

  /** The read of a `getComponent` that returns a string or throws. */
  function Called(c: Result<string>): Read {
    match c
    case Ok(s) => Got(s)
    case Err(e) => Threw(e)
  }

  /** A read passed to `unescape` or `escape`: a string method called on `undefined` throws. */
  function AsArgument(r: Read): Result<string> {
    match r
    case Got(s) => Ok(s)
    case Undefined => Err(TypeError)
    case Threw(e) => Err(e)
  }

  /** A read pushed into an array that `join` writes out: `undefined` is written as "". */
  function AsElement(r: Read): Result<string> {
    match r
    case Got(s) => Ok(s)
    case Undefined => Ok([])
    case Threw(e) => Err(e)
  }

  function Arguments(n: Snapshot): (r: seq<Result<string>>)
    ensures |r| == |n.components| && forall i :: 0 <= i < |r| ==> r[i] == AsArgument(n.components[i])
  {
    seq(|n.components|, i requires 0 <= i < |n.components| => AsArgument(n.components[i]))
  }

  function Elements(n: Snapshot): (r: seq<Result<string>>)
    ensures |r| == |n.components| && forall i :: 0 <= i < |r| ==> r[i] == AsElement(n.components[i])
  {
    seq(|n.components|, i requires 0 <= i < |n.components| => AsElement(n.components[i]))
  }

  /** `asString(d)`: the components unescaped under the own delimiter and joined by `d`,
      whatever `d` is; the first component `unescape` cannot take ends it with that failure. */
  function AsStringOf(n: Snapshot, d: string): Result<string> {
    match AbstractNameB05.Collect(Arguments(n))
    case Err(e) => Err(e)
    case Ok(cs) => Ok(Join(UnescapeAll(cs, n.delimiter), d))
  }

  /** `asDataString()`, and `toString()` with it: the components as `getComponent` returns them,
      joined by the own delimiter, `undefined` as "". */
  function AsDataStringOf(n: Snapshot): Result<string> {
    match AbstractNameB05.Collect(Elements(n))
    case Err(e) => Err(e)
    case Ok(cs) => Ok(Join(cs, [n.delimiter]))
  }

  /** `getHashCode()`: the 32-bit fold over `toString()` followed by the delimiter. */
  function HashCodeOf(n: Snapshot): Result<int> {
    match AsDataStringOf(n)
    case Err(e) => Err(e)
    case Ok(s) => Ok(HashOf(s + [n.delimiter]))
  }

  /** The loop of `isEqual` from index i on: it reads the own component, then the other one
      (either call may throw), and answers false at the first pair that differs under `!==`;
      past the last index the delimiters decide. */
  function EqualFrom(n: Snapshot, m: Snapshot, i: nat): (r: Result<bool>)
    requires n.count == m.count && i <= |n.components|
    ensures r.Err? ==> exists k :: i <= k < |n.components| && (n.components[k].Threw? || m.components[k].Threw?)
    decreases |n.components| - i
  {
    if i == |n.components| then Ok(n.delimiter == m.delimiter)
    else if n.components[i].Threw? then Err(n.components[i].error)
    else if m.components[i].Threw? then Err(m.components[i].error)
    else if n.components[i] != m.components[i] then Ok(false)
    else EqualFrom(n, m, i + 1)
  }

  /** `isEqual(other)`: different counts are not equal; otherwise the loop decides. */
  function IsEqualOf(n: Snapshot, m: Snapshot): Result<bool> {
    if n.count != m.count then Ok(false) else EqualFrom(n, m, 0)
  }

  /** The index of the first component `concat` cannot pass to `unescape`, or the number of
      components when there is none. */
  function FirstFailure(v: seq<Result<string>>): (k: nat)
    ensures k <= |v|
    ensures forall i :: 0 <= i < k ==> v[i].Ok?
    ensures k < |v| ==> v[k].Err?
  {
    if v == [] || v[0].Err? then 0
    else
      var k := FirstFailure(v[1..]);
      assert forall i :: 1 <= i < k + 1 ==> v[i] == v[1..][i - 1];
      k + 1
  }

  /** What `concat` appends for each component that reads as a string: unescaped under the
      other delimiter and escaped under the own one ("" stands where nothing is appended). */
  function Translations(other: Snapshot, own: char): (r: seq<string>)
    ensures |r| == |other.components|
    ensures forall i :: 0 <= i < |r| && other.components[i].Got? ==>
      r[i] == Translate(other.components[i].value, other.delimiter, own)
  {
    seq(|other.components|, i requires 0 <= i < |other.components| =>
      if other.components[i].Got? then Translate(other.components[i].value, other.delimiter, own) else [])
  }

  /** What `concat(other)` hands to `append`: the translation of every component up to the
      first one that is not a string. */
  function ConcatItems(other: Snapshot, own: char): (r: seq<string>)
    ensures |r| == FirstFailure(Arguments(other)) <= |other.components|
    ensures forall i :: 0 <= i < |r| ==>
      other.components[i].Got? && r[i] == Translate(other.components[i].value, other.delimiter, own)
    ensures |r| < |other.components| ==> !other.components[|r|].Got?
  {
    var k := FirstFailure(Arguments(other));
    assert forall i :: 0 <= i < k ==> Arguments(other)[i].Ok?;
    Translations(other, own)[..k]
  }

  /** The outcome of `concat(other)`: the failure of the first component that is not a string. */
  function ConcatOutcome(other: Snapshot): Outcome {
    var args := Arguments(other);
    var k := FirstFailure(args);
    if k == |args| then Pass else Fail(args[k].error)
  }

  /** The while-loop of `asString`. */
  method AsString(n: Snapshot, d: string) returns (r: Result<string>)
    ensures r == AsStringOf(n, d)
  {
    var v := Arguments(n);
    var unescaped: seq<string> := [];
    ghost var raw: seq<string> := [];
    var i := 0;
    while i < n.count
      invariant 0 <= i <= |v|
      invariant AbstractNameB05.Collect(v[..i]) == Ok(raw)
      invariant unescaped == UnescapeAll(raw, n.delimiter)
    {
      AbstractNameB05.CollectPrefix(v, i);
      match v[i]
      case Err(e) =>
        AbstractNameB05.CollectErrorStays(v, i + 1);
        return Err(e);
      case Ok(c) =>
        unescaped := unescaped + [Unescape(c, n.delimiter)];
        raw := raw + [c];
      i := i + 1;
    }
    assert v[..i] == v;
    r := Ok(Join(unescaped, d));
  }

  /** The while-loop of `asDataString`. */
  method AsDataString(n: Snapshot) returns (r: Result<string>)
    ensures r == AsDataStringOf(n)
  {
    var v := Elements(n);
    var parts: seq<string> := [];
    var i := 0;
    while i < n.count
      invariant 0 <= i <= |v|
      invariant AbstractNameB05.Collect(v[..i]) == Ok(parts)
    {
      AbstractNameB05.CollectPrefix(v, i);
      match v[i]
      case Err(e) =>
        AbstractNameB05.CollectErrorStays(v, i + 1);
        return Err(e);
      case Ok(c) =>
        parts := parts + [c];
      i := i + 1;
    }
    assert v[..i] == v;
    r := Ok(Join(parts, [n.delimiter]));
  }

  /** The loop of `isEqual`, which returns at the first difference. */
  method IsEqual(n: Snapshot, m: Snapshot) returns (r: Result<bool>)
    ensures r == IsEqualOf(n, m)
  {
    if n.count != m.count {
      return Ok(false);
    }
    var i := 0;
    while i < n.count
      invariant 0 <= i <= |n.components|
      invariant EqualFrom(n, m, i) == IsEqualOf(n, m)
    {
      var mine := n.components[i];
      if mine.Threw? {
        return Err(mine.error);
      }
      var theirs := m.components[i];
      if theirs.Threw? {
        return Err(theirs.error);
      }
      if mine != theirs {
        return Ok(false);
      }
      i := i + 1;
    }
    r := Ok(n.delimiter == m.delimiter);
  }

  /** The loop of `getHashCode`. */
  method GetHashCode(n: Snapshot) returns (r: Result<int>)
    ensures r == HashCodeOf(n)
    ensures r.Ok? ==> -TwoTo31 <= r.value < TwoTo31
  {
    var s := AsDataString(n);
    match s
    case Err(e) =>
      r := Err(e);
    case Ok(t) =>
      var h := StringHash(t + [n.delimiter]);
      r := Ok(h);
  }

  /** `isEmpty()`: `!getNoComponents()`, so a negative count is not empty. */
  method IsEmpty(n: Snapshot) returns (r: bool)
    ensures r <==> n.count == 0
  {
    r := n.count == 0;
  }

  // ---------------------------------------------------------------------------------------
  // properties of the template methods
  // ---------------------------------------------------------------------------------------

  /** `asString` needs every component to be a string; `asDataString` (and so `getHashCode`)
      only needs no `getComponent` call to throw. */
  lemma WhenReadsFail(n: Snapshot, d: string)
    ensures AsStringOf(n, d).Ok? <==> forall i :: 0 <= i < |n.components| ==> n.components[i].Got?
    ensures AsDataStringOf(n).Ok? <==> forall i :: 0 <= i < |n.components| ==> !n.components[i].Threw?
    ensures HashCodeOf(n).Ok? <==> AsDataStringOf(n).Ok?
  {
    var v := Arguments(n);
    if AsStringOf(n, d).Ok? {
      forall i | 0 <= i < |n.components| ensures n.components[i].Got? {
        assert v[i].Ok?;
      }
    }
  }

  /** `isEqual` compares the reads as values: it holds exactly when the two snapshots coincide
      and no `getComponent` call throws. */
  lemma IsEqualIsSameSnapshot(n: Snapshot, m: Snapshot)
    ensures IsEqualOf(n, m) == Ok(true) <==>
      n == m && forall i :: 0 <= i < |n.components| ==> !n.components[i].Threw?
  {
    if n.count == m.count {
      if IsEqualOf(n, m) == Ok(true) {
        EqualFromTrue(n, m, 0);
        assert n.components == n.components[0..] == m.components[0..] == m.components;
      }
      if n == m && forall i :: 0 <= i < |n.components| ==> !n.components[i].Threw? {
        EqualFromSelf(n, 0);
      }
    }
  }

  lemma {:induction false} EqualFromTrue(n: Snapshot, m: Snapshot, i: nat)
    requires n.count == m.count && i <= |n.components| && EqualFrom(n, m, i) == Ok(true)
    ensures n.components[i..] == m.components[i..] && n.delimiter == m.delimiter
    ensures forall k :: i <= k < |n.components| ==> !n.components[k].Threw?
    decreases |n.components| - i
  {
    if i < |n.components| {
      EqualFromTrue(n, m, i + 1);
      assert n.components[i..] == [n.components[i]] + n.components[i + 1..];
      assert m.components[i..] == [m.components[i]] + m.components[i + 1..];
    }
  }

  lemma {:induction false} EqualFromSelf(n: Snapshot, i: nat)
    requires i <= |n.components|
    requires forall k :: i <= k < |n.components| ==> !n.components[k].Threw?
    ensures EqualFrom(n, n, i) == Ok(true)
    decreases |n.components| - i
  {
    if i < |n.components| {
      EqualFromSelf(n, i + 1);
    }
  }

  /** Equal names hash alike. */
  lemma EqualNamesHashAlike(n: Snapshot, m: Snapshot)
    requires IsEqualOf(n, m) == Ok(true)
    ensures HashCodeOf(n).Ok? && HashCodeOf(n) == HashCodeOf(m)
  {
    IsEqualIsSameSnapshot(n, m);
    WhenReadsFail(n, []);
  }

  /** Without the delimiter check of the next iteration, an empty `d` glues the unescaped
      components together. */
  lemma AsStringWithEmptyDelimiter(n: Snapshot)
    requires forall i :: 0 <= i < |n.components| ==> n.components[i].Got?
    ensures AsStringOf(n, []).Ok?
    ensures |AsStringOf(n, []).value| == SumOfLengths(UnescapeAll(AbstractNameB05.Collect(Arguments(n)).value, n.delimiter))
  {
    WhenReadsFail(n, []);
    JoinEmptyLength(UnescapeAll(AbstractNameB05.Collect(Arguments(n)).value, n.delimiter));
  }

  function SumOfLengths(ps: seq<string>): nat {
    if ps == [] then 0 else |ps[0]| + SumOfLengths(ps[1..])
  }

  lemma {:induction false} JoinEmptyLength(ps: seq<string>)
    ensures |Join(ps, [])| == SumOfLengths(ps)
    decreases |ps|
  {
    if |ps| >= 2 {
      JoinCons(ps[0], ps[1..], []);
      JoinEmptyLength(ps[1..]);
      assert [ps[0]] + ps[1..] == ps;
    } else if |ps| == 1 {
      assert ps[1..] == [];
    }
  }

  // ---------------------------------------------------------------------------------------
  // agreement with the next iteration
  // ---------------------------------------------------------------------------------------

  /** A name whose count is not negative and whose every component reads as a string: the
      names the fourth iteration's checks let through. */
  predicate Defined(n: Snapshot) {
    n.count >= 0 && forall i :: 0 <= i < |n.components| ==> n.components[i].Got?
  }

  /** The components of a defined name, as the fourth iteration's template methods see them. */
  function Plain(n: Snapshot): (r: AbstractNameB04.Snapshot)
    requires Defined(n)
    ensures r.delimiter == n.delimiter && |r.components| == n.count
    ensures forall i :: 0 <= i < n.count ==> n.components[i] == Got(r.components[i])
  {
    AbstractNameB04.Snapshot(n.delimiter,
      seq(|n.components|, i requires 0 <= i < |n.components| && n.components[i].Got? => n.components[i].value))
  }

  lemma CollectPlain(n: Snapshot)
    requires Defined(n)
    ensures AbstractNameB05.Collect(Arguments(n)) == Ok(Plain(n).components)
    ensures AbstractNameB05.Collect(Elements(n)) == Ok(Plain(n).components)
  {
    var a := AbstractNameB05.Collect(Arguments(n));
    var e := AbstractNameB05.Collect(Elements(n));
    assert a.value == Plain(n).components;
    assert e.value == Plain(n).components;
  }

  /** On defined names the template methods of this iteration give what the fourth iteration's
      give, save that `asString` here also takes an empty delimiter. */
  lemma AgreesWithNextIteration(n: Snapshot, d: string)
    requires Defined(n)
    ensures |d| > 0 ==> AsStringOf(n, d) == AbstractNameB04.AsStringOf(Plain(n), d)
    ensures AsDataStringOf(n) == Ok(AbstractNameB04.AsDataStringOf(Plain(n)))
    ensures HashCodeOf(n) == Ok(AbstractNameB04.HashCodeOf(Plain(n)))
  {
    CollectPlain(n);
  }

  lemma IsEqualAgreesWithNextIteration(n: Snapshot, m: Snapshot)
    requires Defined(n) && Defined(m)
    ensures IsEqualOf(n, m) == Ok(AbstractNameB04.IsEqualOf(Plain(n), Plain(m)))
  {
    IsEqualIsSameSnapshot(n, m);
    AbstractNameB04.IsEqualIsSameSnapshot(Plain(n), Plain(m));
    if n.count == m.count {
      assert EqualFrom(n, m, 0).Ok?;
      if Plain(n) == Plain(m) {
        assert n.components == m.components;
        assert n == m;
        assert IsEqualOf(n, m) == Ok(true);
      } else {
        assert n != m;
        assert IsEqualOf(n, m) == EqualFrom(n, m, 0);
        assert IsEqualOf(n, m) != Ok(true);
        assert IsEqualOf(n, m).Ok?;
        assert !IsEqualOf(n, m).value;
        assert !AbstractNameB04.IsEqualOf(Plain(n), Plain(m));
      }
    }
  }

  /** `concat` passes exactly when every component reads as a string; otherwise it fails
      with what the first other read gave, after appending the ones before it. */
  lemma ConcatStopsAtFirstFailure(other: Snapshot, own: char)
    ensures ConcatOutcome(other).Pass? <==> forall i :: 0 <= i < |other.components| ==> other.components[i].Got?
    ensures ConcatOutcome(other).Fail? ==>
      var k := |ConcatItems(other, own)|;
      k < |other.components| && ConcatOutcome(other).error == AsArgument(other.components[k]).error
  {
    var k := |ConcatItems(other, own)|;
    if forall i :: 0 <= i < |other.components| ==> other.components[i].Got? {
      assert k == |other.components|;
    }
  }

  /** On a defined name `concat` appends the translation of every component and passes. */
  lemma ConcatOfDefinedName(other: Snapshot, own: char)
    requires Defined(other)
    ensures ConcatOutcome(other) == Pass
    ensures ConcatItems(other, own) == AbstractNameB04.TranslateAll(Plain(other), own)
  {
    ConcatStopsAtFirstFailure(other, own);
  }
}
