/** The array-backed name of the fourth iteration (src/adap-b04/names/StringArrayName.ts): the
    components are stored unescaped, `getComponent` escapes them again, and index errors are
    IllegalArguments. */
module StringArrayNameB04 {
  import opened Common
  import opened Escaping
  import AbstractNameB04
  import StringNameB04

  /** What the template methods of the base class see of the stored components. */
  function ViewOf(components: seq<string>, d: char): (r: AbstractNameB04.Snapshot)
    ensures r.delimiter == d && |r.components| == |components|
    ensures forall i :: 0 <= i < |components| ==> r.components[i] == Escape(components[i], d)
  {
    AbstractNameB04.Snapshot(d, EscapeAll(components, d))
  }

  class StringArrayName {
    const delimiter: char
    var components: seq<string>

    /** `new StringArrayName(other, delimiter)` once the delimiter has passed the base class
        check: the loop pushes every input component unescaped; an empty array is allowed. */
    constructor(other: seq<string>, delimiter: char)
      ensures this.delimiter == delimiter && components == UnescapeAll(other, delimiter)
    {
      this.delimiter := delimiter;
      components := [];
      new;
      for i := 0 to |other|
        invariant components == UnescapeAll(other[..i], delimiter)
      {
        components := components + [Unescape(other[i], delimiter)];
      }
      assert other[..|other|] == other;
    }

    /** The constructor with the base class check: an empty delimiter is a plain `Error`. */
    static method Create(other: seq<string>, delimiter: Option<string>) returns (r: Result<StringArrayName>)
      requires delimiter.Some? ==> |delimiter.value| <= 1
      ensures r.Err? <==> AbstractNameB04.CheckDelimiter(delimiter).Err?
      ensures r.Err? ==> r.error == PlainError
      ensures r.Ok? ==> fresh(r.value)
      ensures r.Ok? ==> r.value.delimiter == AbstractNameB04.CheckDelimiter(delimiter).value[0]
      ensures r.Ok? ==> r.value.components == UnescapeAll(other, r.value.delimiter)
    {
      var d := AbstractNameB04.CheckDelimiter(delimiter);
      if d.Err? {
        return Err(d.error);
      }
      var n := new StringArrayName(other, d.value[0]);
      r := Ok(n);
    }

    function GetNoComponents(): (r: nat)
      reads this
      ensures r == |components|
    {
      |components|
    }

    /** `getComponent(i)`: the stored component escaped again; an index outside the array is
        an IllegalArgument. */
    function GetComponent(i: int): (r: Result<string>)
      reads this
      ensures r.Ok? <==> 0 <= i < |components|
      ensures r.Err? ==> r.error == IllegalArgument
      ensures r.Ok? ==> r.value == Escape(components[i], delimiter)
    {
      if 0 <= i < |components| then Ok(Escape(components[i], delimiter)) else Err(IllegalArgument)
    }

    function View(): (r: AbstractNameB04.Snapshot)
      reads this
      ensures r == ViewOf(components, delimiter)
      ensures forall i :: 0 <= i < |r.components| ==> GetComponent(i) == Ok(r.components[i])
    {
      ViewOf(components, delimiter)
    }

    method SetComponent(i: int, c: string) returns (r: Outcome)
      modifies this
      ensures !(0 <= i < old(|components|)) ==> r == Fail(IllegalArgument) && components == old(components)
      ensures 0 <= i < old(|components|) ==>
        r == Pass && components == old(components)[i := Unescape(c, delimiter)]
    {
      if !(0 <= i < |components|) {
        return Fail(IllegalArgument);
      }
      components := components[i := Unescape(c, delimiter)];
      r := Pass;
    }

    /** `insert(i, c)`: unlike the string-backed name, the end position is accepted. */
    method Insert(i: int, c: string) returns (r: Outcome)
      modifies this
      ensures !(0 <= i <= old(|components|)) ==> r == Fail(IllegalArgument) && components == old(components)
      ensures 0 <= i <= old(|components|) ==>
        r == Pass && components == old(components)[..i] + [Unescape(c, delimiter)] + old(components)[i..]
    {
      if !(0 <= i <= |components|) {
        return Fail(IllegalArgument);
      }
      components := SpliceInsert(components, i, Unescape(c, delimiter));
      r := Pass;
    }

    method Append(c: string)
      modifies this
      ensures components == old(components) + [Unescape(c, delimiter)]
    {
      components := components + [Unescape(c, delimiter)];
    }

    method Remove(i: int) returns (r: Outcome)
      modifies this
      ensures !(0 <= i < old(|components|)) ==> r == Fail(IllegalArgument) && components == old(components)
      ensures 0 <= i < old(|components|) ==>
        r == Pass && components == old(components)[..i] + old(components)[i + 1..]
    {
      if !(0 <= i < |components|) {
        return Fail(IllegalArgument);
      }
      components := SpliceRemove(components, i);
      r := Pass;
    }

    /** `concat(other)`: `append` of every translated component of the other name. */
    method Concat(other: AbstractNameB04.Snapshot)
      modifies this
      ensures components == old(components) + UnescapeAll(AbstractNameB04.TranslateAll(other, delimiter), delimiter)
    {
      var items := AbstractNameB04.TranslateAll(other, delimiter);
      ghost var start := components;
      var i := 0;
      while i < |items|
        invariant 0 <= i <= |items|
        invariant components == start + UnescapeAll(items[..i], delimiter)
      {
        Append(items[i]);
        assert UnescapeAll(items[..i + 1], delimiter) == UnescapeAll(items[..i], delimiter) + [Unescape(items[i], delimiter)];
        i := i + 1;
      }
      assert items[..i] == items;
    }
  }

  // ---------------------------------------------------------------------------------------
  // properties
  // ---------------------------------------------------------------------------------------

  /** A name built from escaped backslash-free components reads them back unchanged through
      `getComponent`, and `asString` of its components gives their literal values. */
  lemma PlainComponentsReadBack(us: seq<string>, d: char)
    requires d != Esc && forall k :: 0 <= k < |us| ==> Esc !in us[k]
    ensures ViewOf(UnescapeAll(EscapeAll(us, d), d), d).components == EscapeAll(us, d)
    ensures UnescapeAll(ViewOf(UnescapeAll(EscapeAll(us, d), d), d).components, d) == us
  {
    forall k | 0 <= k < |us|
      ensures Unescape(Escape(us[k], d), d) == us[k]
    {
      BackslashFreeHasNoEscapedDelimiter(us[k], d);
      UnescapeEscape(us[k], d);
    }
  }

  /** The two representations agree: the array name built from components that hold neither a
      backslash nor the delimiter, and the string name built from those components joined by the
      delimiter, show the template methods the same name, so they are `isEqual`, print alike and
      hash alike. */
  lemma RepresentationsAgree(cs: seq<string>, d: char)
    requires d != Esc && |cs| >= 1
    requires forall k :: 0 <= k < |cs| ==> Esc !in cs[k] && d !in cs[k]
    ensures ViewOf(UnescapeAll(cs, d), d) == StringNameB04.ViewOf(Unescape(Join(cs, [d]), d), d)
    ensures AbstractNameB04.IsEqualOf(ViewOf(UnescapeAll(cs, d), d), StringNameB04.ViewOf(Unescape(Join(cs, [d]), d), d))
  {
    var stored := UnescapeAll(cs, d);
    assert stored == cs;
    assert EscapeAll(cs, d) == cs;
    JoinAvoids(cs, d, Esc);
    SplitRawJoin(cs, d);
    AbstractNameB04.IsEqualIsSameSnapshot(ViewOf(stored, d), StringNameB04.ViewOf(Unescape(Join(cs, [d]), d), d));
  }

  /** A character that is neither the separator nor in any part is not in their join. */
  lemma {:induction false} JoinAvoids(ps: seq<string>, d: char, x: char)
    requires x != d && forall k :: 0 <= k < |ps| ==> x !in ps[k]
    ensures x !in Join(ps, [d])
    decreases |ps|
  {
    if |ps| >= 2 {
      JoinCons(ps[0], ps[1..], [d]);
      JoinAvoids(ps[1..], d, x);
      assert forall k :: 0 <= k < |ps[1..]| ==> ps[1..][k] == ps[k + 1];
    }
  }

  /** `new StringArrayName(["oss", "cs"])` and `new StringName("oss.cs")` are `isEqual` and
      give the same `asString()`. */
  lemma OssCsNamesAgree()
    ensures var a := ViewOf(UnescapeAll(["oss", "cs"], '.'), '.');
      var s := StringNameB04.ViewOf(Unescape("oss.cs", '.'), '.');
      AbstractNameB04.IsEqualOf(a, s) && AbstractNameB04.AsStringOf(a, ".") == AbstractNameB04.AsStringOf(s, ".")
  {
    var cs := ["oss", "cs"];
    assert Esc !in cs[0] && '.' !in cs[0];
    assert Esc !in cs[1] && '.' !in cs[1];
    JoinCons("oss", ["cs"], ".");
    assert Join(cs, ".") == "oss.cs";
    RepresentationsAgree(cs, '.');
    AbstractNameB04.IsEqualIsSameSnapshot(ViewOf(UnescapeAll(cs, '.'), '.'), StringNameB04.ViewOf(Unescape("oss.cs", '.'), '.'));
  }
}
