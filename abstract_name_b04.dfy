/** The abstract base class of the fourth iteration (src/adap-b04/names/AbstractName.ts). Its
    template methods reach a name only through `getNoComponents`, `getComponent` and the
    delimiter; in this iteration `getComponent` cannot fail for an index below
    `getNoComponents()`, so a template method sees a name as a `Snapshot`: its delimiter and
    the components `getComponent` returns, in order. */
module AbstractNameB04 {
  import opened Common
  import opened Escaping
  import opened Hashing

  datatype Snapshot = Snapshot(delimiter: char, components: seq<string>)

  /** The constructor's check: a missing delimiter means the default, an empty one is a plain
      `Error`, and any non-empty string is accepted, whatever its length. */
  function CheckDelimiter(delimiter: Option<string>): (r: Result<string>)
    ensures r.Ok? <==> delimiter.None? || |delimiter.value| > 0
    ensures r.Ok? ==> r.value == if delimiter.None? then [DefaultDelimiter] else delimiter.value
    ensures r.Err? ==> r.error == PlainError
  {
    match delimiter
    case None => Ok([DefaultDelimiter])
    case Some(s) => if |s| == 0 then Err(PlainError) else Ok(s)
  }

  /** `asString(d)`: the components unescaped under the own delimiter, joined by `d`; an empty
      `d` is a plain `Error`. */
  function AsStringOf(n: Snapshot, d: string): Result<string> {
    if |d| == 0 then Err(PlainError) else Ok(Join(UnescapeAll(n.components, n.delimiter), d))
  }

  /** `asDataString()`, and `toString()` with it: the components as they are, joined by the own
      delimiter. */
  function AsDataStringOf(n: Snapshot): string {
    Join(n.components, [n.delimiter])
  }

  /** `isEqual(other)`: the same number of components, the same component at every index, and
      the same delimiter. */
  predicate IsEqualOf(n: Snapshot, m: Snapshot) {
    && |n.components| == |m.components|
    && (forall i :: 0 <= i < |n.components| ==> n.components[i] == m.components[i])
    && n.delimiter == m.delimiter
  }

  /** `getHashCode()`: the 32-bit fold over `toString()` followed by the delimiter. */
  function HashCodeOf(n: Snapshot): int {
    HashOf(AsDataStringOf(n) + [n.delimiter])
  }

  /** What `concat(other)` appends: every component of the other name, unescaped under the
      other delimiter and escaped under the own one. */
  function TranslateAll(other: Snapshot, own: char): (r: seq<string>)
    ensures |r| == |other.components|
    ensures forall i :: 0 <= i < |r| ==> r[i] == Translate(other.components[i], other.delimiter, own)
  {
    seq(|other.components|, i requires 0 <= i < |other.components| =>
      Translate(other.components[i], other.delimiter, own))
  }

  /** The while-loop of `asString`. */
  method AsString(n: Snapshot, d: string) returns (r: Result<string>)
    ensures r == AsStringOf(n, d)
  {
    if |d| == 0 {
      return Err(PlainError);
    }
    var unescaped: seq<string> := [];
    var i := 0;
    while i < |n.components|
      invariant 0 <= i <= |n.components|
      invariant unescaped == UnescapeAll(n.components[..i], n.delimiter)
    {
      unescaped := unescaped + [Unescape(n.components[i], n.delimiter)];
      i := i + 1;
    }
    assert n.components[..i] == n.components;
    r := Ok(Join(unescaped, d));
  }

  /** The while-loop of `asDataString`. */
  method AsDataString(n: Snapshot) returns (s: string)
    ensures s == AsDataStringOf(n)
  {
    var parts: seq<string> := [];
    var i := 0;
    while i < |n.components|
      invariant 0 <= i <= |n.components|
      invariant parts == n.components[..i]
    {
      parts := parts + [n.components[i]];
      i := i + 1;
    }
    assert parts == n.components;
    s := Join(parts, [n.delimiter]);
  }

  /** The loop of `isEqual`, which returns at the first difference. */
  method IsEqual(n: Snapshot, m: Snapshot) returns (r: bool)
    ensures r <==> n == m
  {
    if |n.components| != |m.components| {
      return false;
    }
    for i := 0 to |n.components|
      invariant n.components[..i] == m.components[..i]
    {
      if n.components[i] != m.components[i] {
        return false;
      }
      assert n.components[..i + 1] == n.components[..i] + [n.components[i]];
      assert m.components[..i + 1] == m.components[..i] + [m.components[i]];
    }
    assert n.components == n.components[..|n.components|];
    assert m.components == m.components[..|m.components|];
    r := n.delimiter == m.delimiter;
  }

  /** The loop of `getHashCode`. */
  method GetHashCode(n: Snapshot) returns (h: int)
    ensures h == HashCodeOf(n)
    ensures -TwoTo31 <= h < TwoTo31
  {
    var s := AsDataString(n);
    h := StringHash(s + [n.delimiter]);
  }

  /** `isEmpty()`: no components. */
  method IsEmpty(n: Snapshot) returns (r: bool)
    ensures r <==> |n.components| == 0
  {
    r := |n.components| == 0;
  }

  // ---------------------------------------------------------------------------------------
  // properties of the template methods
  // ---------------------------------------------------------------------------------------

  /** `isEqual` compares the names as values: it holds exactly when the two snapshots coincide. */
  lemma IsEqualIsSameSnapshot(n: Snapshot, m: Snapshot)
    ensures IsEqualOf(n, m) <==> n == m
  {
    if IsEqualOf(n, m) {
      assert n.components == m.components;
    }
  }

  /** Equal names hash alike: the hash reads nothing but the components and the delimiter. */
  lemma EqualNamesHashAlike(n: Snapshot, m: Snapshot)
    requires IsEqualOf(n, m)
    ensures HashCodeOf(n) == HashCodeOf(m)
  {
    IsEqualIsSameSnapshot(n, m);
  }

  /** `asString(d)` for a one-character `d` reads back: splitting it at `d` gives the unescaped
      components, as long as none of them contains `d`. */
  lemma AsStringReadsBack(n: Snapshot, d: char)
    requires |n.components| >= 1
    requires forall i :: 0 <= i < |n.components| ==> d !in Unescape(n.components[i], n.delimiter)
    ensures AsStringOf(n, [d]).Ok?
    ensures SplitRaw(AsStringOf(n, [d]).value, d) == UnescapeAll(n.components, n.delimiter)
  {
    SplitRawJoin(UnescapeAll(n.components, n.delimiter), d);
  }

  /** `asDataString()` reads back: splitting it at the unescaped delimiters gives the components
      again, when they can be told apart (no bare delimiter inside one, no trailing escape). */
  lemma DataStringReadsBack(n: Snapshot)
    requires n.delimiter != Esc && Resplittable(n.components, n.delimiter)
    ensures Split(AsDataStringOf(n), n.delimiter) == n.components
  {
    SplitJoin(n.components, n.delimiter);
  }

  /** `concat` keeps what the appended components mean: unescaped under the own delimiter, the
      translated components are the other name's components unescaped under its delimiter,
      provided those hold no backslash; and each of them is properly escaped. */
  lemma TranslateAllKeepsValues(other: Snapshot, own: char)
    requires own != Esc
    requires forall i :: 0 <= i < |other.components| ==>
      Esc !in Unescape(other.components[i], other.delimiter)
    ensures UnescapeAll(TranslateAll(other, own), own) == UnescapeAll(other.components, other.delimiter)
    ensures forall i :: 0 <= i < |other.components| ==> IsEscaped(TranslateAll(other, own)[i], own)
  {
    forall i | 0 <= i < |other.components|
      ensures Unescape(TranslateAll(other, own)[i], own) == Unescape(other.components[i], other.delimiter)
      ensures IsEscaped(TranslateAll(other, own)[i], own)
    {
      TranslateKeepsValue(other.components[i], other.delimiter, own);
    }
  }
}
