/** The array-backed name of the third iteration (src/adap-b03/names/StringArrayName.ts): the
    components are stored unescaped and escaped again on the way out; there are no checks. A
    `setComponent` past the end leaves holes in the array (None), and `escape` of a hole throws
    a TypeError. */
module StringArrayNameB03 {
  import opened Common
  import opened Escaping
  import AbstractNameB03
  import AbstractNameB04
  import AbstractNameB05

  class StringArrayName {
    const delimiter: char
    var components: seq<Option<string>>

    /** `new StringArrayName(other, delimiter)`: the loop pushes every input unescaped. */
    constructor(other: seq<string>, delimiter: char)
      ensures this.delimiter == delimiter && components == Present(UnescapeAll(other, delimiter))
    {
      this.delimiter := delimiter;
      components := [];
      new;
      for i := 0 to |other|
        invariant components == Present(UnescapeAll(other[..i], delimiter))
      {
        components := components + [Some(Unescape(other[i], delimiter))];
      }
      assert other[..|other|] == other;
    }

    function GetNoComponents(): (r: nat)
      reads this
      ensures r == |components|
    {
      |components|
    }

    /** `getComponent(i)`: the stored value escaped again; `escape` of a hole or of the
        `undefined` past the end throws a TypeError. */
    function GetComponent(i: nat): (r: Result<string>)
      reads this
      ensures r.Ok? <==> i < |components| && components[i].Some?
      ensures r.Ok? ==> r.value == Escape(components[i].value, delimiter)
      ensures r.Err? ==> r.error == TypeError
    {
      if i < |components| && components[i].Some? then Ok(Escape(components[i].value, delimiter)) else Err(TypeError)
    }

    /** What the template methods see: one read per array slot. */
    function View(): (r: AbstractNameB03.Snapshot)
      reads this
      ensures r.delimiter == delimiter && r.count == |components|
      ensures forall i :: 0 <= i < |components| ==> r.components[i] == AbstractNameB03.Called(GetComponent(i))
    {
      var cs := components;
      var rs := seq(|cs|, i requires 0 <= i < |cs| =>
        if cs[i].Some? then AbstractNameB03.Got(Escape(cs[i].value, delimiter))
        else AbstractNameB03.Threw(TypeError));
      AbstractNameB03.Snapshot(delimiter, |cs|, rs)
    }

    /** `components[i] = unescape(c)`: past the end the array grows, with holes. */
    method SetComponent(i: nat, c: string)
      modifies this
      ensures components == Assign(old(components), i, Some(Unescape(c, delimiter)), None)
    {
      components := Assign(components, i, Some(Unescape(c, delimiter)), None);
    }

    method Insert(i: nat, c: string)
      modifies this
      ensures components == SpliceInsert(old(components), i, Some(Unescape(c, delimiter)))
    {
      components := SpliceInsert(components, i, Some(Unescape(c, delimiter)));
    }

    method Append(c: string)
      modifies this
      ensures components == old(components) + [Some(Unescape(c, delimiter))]
    {
      components := components + [Some(Unescape(c, delimiter))];
    }

    method Remove(i: nat)
      modifies this
      ensures components == SpliceRemove(old(components), i)
    {
      components := SpliceRemove(components, i);
    }

    /** `concat(other)`: `append` of every translated component of the other name, until a
        component is not a string: `unescape` then throws, and what was appended stays. */
    method Concat(other: AbstractNameB03.Snapshot) returns (r: Outcome)
      modifies this
      ensures r == AbstractNameB03.ConcatOutcome(other)
      ensures components == old(components) + Present(UnescapeAll(AbstractNameB03.ConcatItems(other, delimiter), delimiter))
    {
      ghost var done := AbstractNameB03.ConcatItems(other, delimiter);
      ghost var pushed := Present(UnescapeAll(done, delimiter));
      ghost var start := components;
      var i := 0;
      while i < other.count
        invariant 0 <= i <= |done|
        invariant components == start + pushed[..i]
      {
        var read := other.components[i];
        if !read.Got? {
          assert i == |done| && pushed[..i] == pushed;
          return Fail(AbstractNameB03.AsArgument(read).error);
        }
        Append(Translate(read.value, other.delimiter, delimiter));
        assert pushed[..i + 1] == pushed[..i] + [pushed[i]];
        i := i + 1;
      }
      assert pushed[..i] == pushed;
      r := Pass;
    }
  }

  // ---------------------------------------------------------------------------------------
  // properties
  // ---------------------------------------------------------------------------------------

  /** After `setComponent(i, escape(s))` for a backslash-free `s`, the stored value is `s` and
      `getComponent(i)` returns `escape(s)` again. */
  lemma SetThenGetReadsBack(n: StringArrayName, i: nat, s: string)
    requires n.delimiter != Esc && Esc !in s
    requires i < |n.components| && n.components[i] == Some(Unescape(Escape(s, n.delimiter), n.delimiter))
    ensures n.components[i] == Some(s)
    ensures n.GetComponent(i) == Ok(Escape(s, n.delimiter))
  {
    BackslashFreeHasNoEscapedDelimiter(s, n.delimiter);
    UnescapeEscape(s, n.delimiter);
  }

  /** For an array without holes whose values hold no backslash, the components the template
      methods see unescape to the stored values, and the data string splits back into them. */
  lemma PlainNamePrints(n: StringArrayName, values: seq<string>)
    requires n.delimiter != Esc && |values| >= 1 && n.components == Present(values)
    requires forall k :: 0 <= k < |values| ==> Esc !in values[k]
    ensures AbstractNameB03.Defined(n.View())
    ensures UnescapeAll(AbstractNameB03.Plain(n.View()).components, n.delimiter) == values
    ensures AbstractNameB03.AsDataStringOf(n.View()).Ok?
    ensures Split(AbstractNameB03.AsDataStringOf(n.View()).value, n.delimiter) == AbstractNameB03.Plain(n.View()).components
  {
    var v := n.View();
    var escaped := AbstractNameB03.Plain(v).components;
    assert escaped == EscapeAll(values, n.delimiter);
    forall k | 0 <= k < |values|
      ensures Unescape(Escape(values[k], n.delimiter), n.delimiter) == values[k]
    {
      BackslashFreeHasNoEscapedDelimiter(values[k], n.delimiter);
      UnescapeEscape(values[k], n.delimiter);
    }
    EscapedBackslashFreeIsResplittable(values, n.delimiter);
    AbstractNameB03.AgreesWithNextIteration(v, ".");
    AbstractNameB04.DataStringReadsBack(AbstractNameB03.Plain(v));
  }

  /** A `setComponent` two past the end of a name without holes leaves a hole: reading it
      throws a TypeError, and so do `asDataString`, `getHashCode` and `asString`. */
  lemma SetPastEndLeavesHole(n: StringArrayName, values: seq<string>, c: string)
    requires n.components == Assign(Present(values), |values| + 1, Some(Unescape(c, n.delimiter)), None)
    ensures |n.components| == |values| + 2 && n.components[|values|] == None
    ensures n.GetComponent(|values|) == Err(TypeError)
    ensures AbstractNameB03.AsDataStringOf(n.View()) == Err(TypeError)
    ensures AbstractNameB03.HashCodeOf(n.View()) == Err(TypeError)
    ensures AbstractNameB03.AsStringOf(n.View(), [n.delimiter]) == Err(TypeError)
  {
    var v := n.View();
    var k := |values|;
    assert v.components[k] == AbstractNameB03.Threw(TypeError);
    var e := AbstractNameB03.Elements(v);
    assert e[..k + 1] == e[..k] + [Err(TypeError)];
    AbstractNameB05.CollectPrefix(e, k);
    assert AbstractNameB05.Collect(e[..k]).Ok? by {
      assert forall j :: 0 <= j < k ==> e[..k][j].Ok?;
    }
    AbstractNameB05.CollectErrorStays(e, k + 1);
    var a := AbstractNameB03.Arguments(v);
    AbstractNameB05.CollectPrefix(a, k);
    assert AbstractNameB05.Collect(a[..k]).Ok? by {
      assert forall j :: 0 <= j < k ==> a[..k][j].Ok?;
    }
    AbstractNameB05.CollectErrorStays(a, k + 1);
  }
}
