/** The array-backed name of the fifth iteration (src/adap-b05/names/StringArrayName.ts): the
    components are stored unescaped, and `getComponent` escapes them again. */
module StringArrayNameB05 {
  import opened Common
  import opened Escaping
  import AbstractNameB05

  /** The constructor's checks: the delimiter (in the base class), then a non-empty array of
      components that are all escaped for that delimiter. */
  predicate Acceptable(other: seq<string>, delimiter: Option<string>) {
    && AbstractNameB05.CheckDelimiter(delimiter).Ok?
    && |other| > 0
    && forall i :: 0 <= i < |other| ==> IsEscaped(other[i], AbstractNameB05.CheckDelimiter(delimiter).value)
  }

  class StringArrayName {
    const delimiter: char
    var components: seq<string>

    /** `new StringArrayName(other, delimiter)` once the checks have passed. */
    constructor(other: seq<string>, delimiter: char)
      ensures this.delimiter == delimiter && components == UnescapeAll(other, delimiter)
    {
      this.delimiter := delimiter;
      components := UnescapeAll(other, delimiter);
    }

    /** The constructor with its checks; every violation is an IllegalArgument. */
    static method Create(other: seq<string>, delimiter: Option<string>) returns (r: Result<StringArrayName>)
      ensures r.Ok? <==> Acceptable(other, delimiter)
      ensures r.Err? ==> r.error == IllegalArgument
      ensures r.Ok? ==> fresh(r.value)
      ensures r.Ok? ==> r.value.delimiter == AbstractNameB05.CheckDelimiter(delimiter).value
      ensures r.Ok? ==> r.value.components == UnescapeAll(other, r.value.delimiter)
    {
      var d := AbstractNameB05.CheckDelimiter(delimiter);
      if d.Err? {
        return Err(d.error);
      }
      if |other| == 0 {
        return Err(IllegalArgument);
      }
      for i := 0 to |other|
        invariant forall k :: 0 <= k < i ==> IsEscaped(other[k], d.value)
      {
        if !IsEscaped(other[i], d.value) {
          return Err(IllegalArgument);
        }
      }
      var n := new StringArrayName(other, d.value);
      r := Ok(n);
    }

    /** `getComponent(i)`: the stored value escaped again; an escaping that does not come out
        escaped is a failed postcondition. */
    function GetComponent(i: int): (r: Result<string>)
      reads this
      ensures !(0 <= i < |components|) ==> r == Err(IllegalArgument)
      ensures 0 <= i < |components| ==>
        var e := Escape(components[i], delimiter);
        r == if IsEscaped(e, delimiter) then Ok(e) else Err(MethodFailed)
    {
      if !(0 <= i < |components|) then Err(IllegalArgument)
      else
        var e := Escape(components[i], delimiter);
        if IsEscaped(e, delimiter) then Ok(e) else Err(MethodFailed)
    }

    /** What the template methods of the base class see of this name. */
    function View(): (r: AbstractNameB05.Snapshot)
      reads this
      ensures r.delimiter == delimiter && |r.components| == |components|
      ensures forall i :: 0 <= i < |components| ==> r.components[i] == GetComponent(i)
    {
      AbstractNameB05.Snapshot(delimiter, seq(|components|, i reads this => GetComponent(i)))
    }

    method SetComponent(i: int, c: string) returns (r: Outcome)
      modifies this
      ensures !IsEscaped(c, delimiter) || !(0 <= i < old(|components|)) ==>
        r == Fail(IllegalArgument) && components == old(components)
      ensures IsEscaped(c, delimiter) && 0 <= i < old(|components|) ==>
        r == Pass && components == old(components)[i := Unescape(c, delimiter)]
    {
      if !IsEscaped(c, delimiter) || !(0 <= i < |components|) {
        return Fail(IllegalArgument);
      }
      components := components[i := Unescape(c, delimiter)];
      r := Pass;
    }

    method Insert(i: int, c: string) returns (r: Outcome)
      modifies this
      ensures !IsEscaped(c, delimiter) || !(0 <= i <= old(|components|)) ==>
        r == Fail(IllegalArgument) && components == old(components)
      ensures IsEscaped(c, delimiter) && 0 <= i <= old(|components|) ==>
        r == Pass && components == old(components)[..i] + [Unescape(c, delimiter)] + old(components)[i..]
    {
      if !IsEscaped(c, delimiter) || !(0 <= i <= |components|) {
        return Fail(IllegalArgument);
      }
      components := components[..i] + [Unescape(c, delimiter)] + components[i..];
      r := Pass;
    }

    method Append(c: string) returns (r: Outcome)
      modifies this
      ensures !IsEscaped(c, delimiter) ==> r == Fail(IllegalArgument) && components == old(components)
      ensures IsEscaped(c, delimiter) ==> r == Pass && components == old(components) + [Unescape(c, delimiter)]
    {
      if !IsEscaped(c, delimiter) {
        return Fail(IllegalArgument);
      }
      components := components + [Unescape(c, delimiter)];
      r := Pass;
    }

    method Remove(i: int) returns (r: Outcome)
      modifies this
      ensures !(0 <= i < old(|components|)) ==> r == Fail(IllegalArgument) && components == old(components)
      ensures 0 <= i < old(|components|) ==>
        r == Pass && components == old(components)[..i] + old(components)[i + 1..]
    {
      if !(0 <= i < |components|) {
        return Fail(IllegalArgument);
      }
      components := components[..i] + components[i + 1..];
      r := Pass;
    }

    /** `concat(other)`: the translated components of the other name are appended one by one,
        up to the first failure. */
    method Concat(other: AbstractNameB05.Snapshot) returns (r: Outcome)
      modifies this
      ensures var plan := AbstractNameB05.PlanConcat(other, delimiter);
        r == plan.outcome && components == old(components) + UnescapeAll(plan.items, delimiter)
    {
      ghost var done: seq<string> := [];
      AbstractNameB05.PlannedAtStart(other, delimiter);
      var i := 0;
      while i < |other.components|
        invariant 0 <= i <= |other.components|
        invariant AbstractNameB05.PlannedUpTo(other, delimiter, i, done)
        invariant components == old(components) + UnescapeAll(done, delimiter)
      {
        match other.components[i]
        case Err(e) =>
          AbstractNameB05.PlannedStop(other, delimiter, i, done);
          return Fail(e);
        case Ok(c) =>
          var t := Translate(c, other.delimiter, delimiter);
          var a := Append(t);
          if a.Fail? {
            AbstractNameB05.PlannedStop(other, delimiter, i, done);
            return a;
          }
          AbstractNameB05.PlannedNext(other, delimiter, i, done);
          assert UnescapeAll(done + [t], delimiter) == UnescapeAll(done, delimiter) + [Unescape(t, delimiter)];
          done := done + [t];
          i := i + 1;
      }
      AbstractNameB05.PlannedStop(other, delimiter, i, done);
      r := Pass;
    }
  }

  // ---------------------------------------------------------------------------------------
  // properties
  // ---------------------------------------------------------------------------------------

  /** A stored value without a backslash is read back as its escaping, which unescapes to it. */
  lemma PlainComponentReadsBack(n: StringArrayName, i: int)
    requires n.delimiter != Esc && 0 <= i < |n.components| && Esc !in n.components[i]
    ensures n.GetComponent(i) == Ok(Escape(n.components[i], n.delimiter))
    ensures Unescape(n.GetComponent(i).value, n.delimiter) == n.components[i]
  {
    EscapeIsEscaped(n.components[i], n.delimiter);
    BackslashFreeHasNoEscapedDelimiter(n.components[i], n.delimiter);
    UnescapeEscape(n.components[i], n.delimiter);
  }

  /** The escapings of backslash-free values pass the constructor's checks, and the constructor
      stores the values themselves. */
  lemma EscapedValuesAreAccepted(us: seq<string>, d: char)
    requires d != Esc && |us| > 0 && forall k :: 0 <= k < |us| ==> Esc !in us[k]
    ensures Acceptable(EscapeAll(us, d), Some([d]))
    ensures UnescapeAll(EscapeAll(us, d), d) == us
  {
    var es := EscapeAll(us, d);
    forall k | 0 <= k < |us|
      ensures IsEscaped(es[k], d) && Unescape(es[k], d) == us[k]
    {
      EscapeIsEscaped(us[k], d);
      BackslashFreeHasNoEscapedDelimiter(us[k], d);
      UnescapeEscape(us[k], d);
    }
  }

  /** For stored values without backslashes, `asString(sep)` joins the values themselves and
      `toString()` joins their escapings. */
  lemma PlainNamePrints(n: StringArrayName, sep: char)
    requires n.delimiter != Esc && forall k :: 0 <= k < |n.components| ==> Esc !in n.components[k]
    ensures AbstractNameB05.AsStringOf(n.View(), [sep]) == Ok(Join(n.components, [sep]))
    ensures AbstractNameB05.ToStringOf(n.View()) == Ok(Join(EscapeAll(n.components, n.delimiter), [n.delimiter]))
  {
    var es := EscapeAll(n.components, n.delimiter);
    forall k | 0 <= k < |es|
      ensures n.View().components[k] == Ok(es[k]) && Unescape(es[k], n.delimiter) == n.components[k]
    {
      PlainComponentReadsBack(n, k);
    }
    AbstractNameB05.CollectAllOk(n.View().components, es);
    assert UnescapeAll(es, n.delimiter) == n.components;
  }

  /** `setComponent(i, escape(s))` for a backslash-free `s` is accepted, and `getComponent(i)`
      then returns the same string. */
  lemma SetThenGetPlain(u: string, d: char)
    requires d != Esc && Esc !in u
    ensures IsEscaped(Escape(u, d), d)
    ensures var stored := Unescape(Escape(u, d), d);
      Esc !in stored && Escape(stored, d) == Escape(u, d)
  {
    EscapeIsEscaped(u, d);
    BackslashFreeHasNoEscapedDelimiter(u, d);
    UnescapeEscape(u, d);
  }

  // ---------------------------------------------------------------------------------------
  // an escaped backslash in front of an escaped delimiter
  // ---------------------------------------------------------------------------------------

  /** The component `\\\.` (an escaped backslash, then an escaped '.') is escaped and accepted
      by `setComponent`; it is stored as `\\.`, whose escaping is `\\.` again, and that is
      not escaped: the following `getComponent` fails its postcondition. */
  lemma SetThenGetFailsAfterEscapedBackslash()
    ensures IsEscaped("\\\\\\.", '.')
    ensures Unescape("\\\\\\.", '.') == "\\\\."
    ensures Escape("\\\\.", '.') == "\\\\."
    ensures !IsEscaped("\\\\.", '.')
  {
    assert DropPairs("\\.", '\\', '\\') == "\\.";
    assert DropPairs("\\\\\\.", '\\', '\\') == "\\.";
    assert DropPairs("\\.", '\\', '.') == "";
    assert Unescape("\\.", '.') == ".";
    assert Unescape("\\\\.", '.') == "\\.";
    assert EscapeAfter(".", '.', true) == ".";
    assert EscapeAfter("\\.", '.', true) == "\\.";
    assert DropPairs(".", '\\', '\\') == ".";
    assert DropPairs("\\\\.", '\\', '\\') == ".";
  }

  /** A name holding that stored value cannot return it. */
  lemma StoredEscapedBackslashIsUnreadable(n: StringArrayName, i: int)
    requires n.delimiter == '.' && 0 <= i < |n.components| && n.components[i] == "\\\\."
    ensures n.GetComponent(i) == Err(MethodFailed)
  {
    SetThenGetFailsAfterEscapedBackslash();
  }

  /** With the token-aware codec storing `UnescapeTokens(c)` and returning `EscapeTokens` of the
      stored value, every escaped component is read back as it was set, and every stored value is
      returned escaped and reads back as itself. */
  lemma CorrectedSetThenGet(c: string, u: string, d: char)
    requires d != Esc && IsEscaped(c, d)
    ensures EscapeTokens(UnescapeTokens(c, d), d) == c
    ensures IsEscaped(EscapeTokens(u, d), d) && UnescapeTokens(EscapeTokens(u, d), d) == u
  {
    IsEscapedIffWellEscaped(c, d);
    UnescapeTokensEscapeTokens(c, d);
    EscapeTokensWellEscaped(u, d);
    IsEscapedIffWellEscaped(EscapeTokens(u, d), d);
  }
}
