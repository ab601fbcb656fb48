/** The array-backed name of the second iteration (src/adap-b02/names/StringArrayName.ts): the
    components are kept as given, with no escaping at all. A `setComponent` past the end leaves
    holes in the array (None), which read back as `undefined`. */
module StringArrayNameB02 {
  import opened Common
  import opened Escaping

  class StringArrayName {
    const delimiter: char
    var components: seq<Option<string>>

    /** `new StringArrayName(other, delimiter)`: the loop copies the input in order. */
    constructor(other: seq<string>, delimiter: char)
      ensures this.delimiter == delimiter && components == Present(other)
    {
      this.delimiter := delimiter;
      components := [];
      new;
      for i := 0 to |other|
        invariant components == Present(other[..i])
      {
        components := components + [Some(other[i])];
      }
      assert other[..|other|] == other;
    }

    /** `asString(sep)`: the loop joins the components with the own delimiter, a hole written
        as "undefined"; `sep` is not used. */
    method AsString(sep: string) returns (nameString: string)
      ensures nameString == Join(Texts(components), [delimiter])
    {
      ghost var texts := Texts(components);
      nameString := [];
      for i := 0 to |components|
        invariant nameString == if i == 0 then [] else Join(texts[..i], [delimiter]) + (if i < |components| then [delimiter] else [])
      {
        if i > 0 {
          JoinSnoc(texts[..i], texts[i], [delimiter]);
        }
        assert texts[..i + 1] == texts[..i] + [texts[i]];
        nameString := nameString + Text(components[i]);
        if i < |components| - 1 {
          nameString := nameString + [delimiter];
        }
      }
      assert texts[..|components|] == texts;
    }

    /** `asDataString()`: `asString` with the own delimiter. */
    method AsDataString() returns (s: string)
      ensures s == Join(Texts(components), [delimiter])
    {
      s := AsString([delimiter]);
    }

    method IsEmpty() returns (r: bool)
      ensures r <==> |components| == 0
    {
      r := |components| == 0;
    }

    function GetNoComponents(): (r: nat)
      reads this
      ensures r == |components|
    {
      |components|
    }

    /** `getComponent(i)`: the component as stored, or `undefined` (None) for a hole and past
        the end. */
    function GetComponent(i: nat): (r: Option<string>)
      reads this
      ensures i < |components| ==> r == components[i]
      ensures i >= |components| ==> r.None?
    {
      if i < |components| then components[i] else None
    }

    /** What `getComponent` returns for every index below `getNoComponents()`. */
    function Reads(): (r: seq<Option<string>>)
      reads this
      ensures |r| == |components| && forall i :: 0 <= i < |r| ==> r[i] == GetComponent(i)
    {
      components
    }

    /** `setComponent(i, c)`: ignored when `c` is the escape character itself; otherwise
        `components[i] = c`, which grows the array past its end, with holes. */
    method SetComponent(i: nat, c: string)
      modifies this
      ensures c == [Esc] ==> components == old(components)
      ensures c != [Esc] ==> components == Assign(old(components), i, Some(c), None)
    {
      if c != [Esc] {
        components := Assign(components, i, Some(c), None);
      }
    }

    method Insert(i: nat, c: string)
      modifies this
      ensures components == SpliceInsert(old(components), i, Some(c))
    {
      components := SpliceInsert(components, i, Some(c));
    }

    method Append(c: string)
      modifies this
      ensures components == old(components) + [Some(c)]
    {
      components := components + [Some(c)];
    }

    method Remove(i: nat)
      modifies this
      ensures components == SpliceRemove(old(components), i)
    {
      components := SpliceRemove(components, i);
    }

    /** `concat(other)`: nothing when the delimiters differ, else `push` of every value
        `other.getComponent(index)` returns, `undefined` included. The other name is given by
        its delimiter and those values. */
    method Concat(otherDelimiter: char, others: seq<Option<string>>)
      modifies this
      ensures otherDelimiter != delimiter ==> components == old(components)
      ensures otherDelimiter == delimiter ==> components == old(components) + others
    {
      if delimiter != otherDelimiter {
        return;
      }
      ghost var start := components;
      for index := 0 to |others|
        invariant components == start + others[..index]
      {
        assert others[..index + 1] == others[..index] + [others[index]];
        components := components + [others[index]];
      }
      assert others[..|others|] == others;
    }
  }


  // ---------------------------------------------------------------------------------------
  // properties
  // ---------------------------------------------------------------------------------------

  /** `setComponent(2, "c")` on the one-component name "a" leaves a hole at index 1, which
      `getComponent` returns as `undefined` and `asString` writes as "undefined". */
  lemma HolePrintsUndefined()
    ensures var cs := Assign(Present(["a"]), 2, Some("c"), None);
      cs == [Some("a"), None, Some("c")] && Join(Texts(cs), ".") == "a.undefined.c"
  {
    var cs := Assign(Present(["a"]), 2, Some("c"), None);
    assert cs == [Some("a"), None, Some("c")];
    assert Texts(cs) == ["a", "undefined", "c"];
    JoinCons("a", ["undefined", "c"], ".");
    JoinCons("undefined", ["c"], ".");
  }

  /** Without holes, `asString` joins the stored components with the delimiter, and they split
      back out of it when none holds the delimiter. */
  lemma PlainNameReadsBack(values: seq<string>, d: char)
    requires forall k :: 0 <= k < |values| ==> d !in values[k]
    requires |values| >= 1
    ensures Texts(Present(values)) == values
    ensures SplitRaw(Join(Texts(Present(values)), [d]), d) == values
  {
    assert Texts(Present(values)) == values;
    SplitRawJoin(values, d);
  }
}
