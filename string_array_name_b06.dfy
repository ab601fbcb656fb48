/** The array-backed name of the sixth iteration (src/adap-b06/names/StringArrayName.ts): stored
    unescaped as in the fifth, with persistent mutators that return a deep copy, and with every
    violated precondition except the delimiter's reported as a MethodFailed. */
module StringArrayNameB06 {
  import opened Common
  import opened Escaping
  import AbstractNameB05
  import StringArrayNameB05

  /** The constructor's checks after the delimiter's: a non-empty array of escaped components. */
  predicate ValidComponents(other: seq<string>, d: char) {
    |other| > 0 && forall i :: 0 <= i < |other| ==> IsEscaped(other[i], d)
  }

  class StringArrayName {
    const delimiter: char
    var components: seq<string>

    constructor(components: seq<string>, delimiter: char)
      ensures this.delimiter == delimiter && this.components == components
    {
      this.delimiter := delimiter;
      this.components := components;
    }

    /** The constructor with its checks: a bad delimiter is an IllegalArgument, an empty array or
        an unescaped component a MethodFailed. The components are stored unescaped. */
    static method Create(other: seq<string>, delimiter: Option<string>) returns (r: Result<StringArrayName>)
      ensures AbstractNameB05.CheckDelimiter(delimiter).Err? ==> r == Err(IllegalArgument)
      ensures AbstractNameB05.CheckDelimiter(delimiter).Ok? ==>
        (r.Ok? <==> ValidComponents(other, AbstractNameB05.CheckDelimiter(delimiter).value))
      ensures AbstractNameB05.CheckDelimiter(delimiter).Ok? && r.Err? ==> r.error == MethodFailed
      ensures r.Ok? ==> fresh(r.value)
      ensures r.Ok? ==> r.value.delimiter == AbstractNameB05.CheckDelimiter(delimiter).value
      ensures r.Ok? ==> r.value.components == UnescapeAll(other, r.value.delimiter)
    {
      var d := AbstractNameB05.CheckDelimiter(delimiter);
      if d.Err? {
        return Err(d.error);
      }
      if |other| == 0 {
        return Err(MethodFailed);
      }
      for i := 0 to |other|
        invariant forall k :: 0 <= k < i ==> IsEscaped(other[k], d.value)
      {
        if !IsEscaped(other[i], d.value) {
          return Err(MethodFailed);
        }
      }
      var n := new StringArrayName(UnescapeAll(other, d.value), d.value);
      r := Ok(n);
    }

    /** `getComponent(i)`: the stored value escaped again; both the index check and the check of
        the result are MethodFailed. */
    function GetComponent(i: int): (r: Result<string>)
      reads this
      ensures !(0 <= i < |components|) ==> r == Err(MethodFailed)
      ensures r.Ok? ==> 0 <= i < |components| && r.value == Escape(components[i], delimiter)
      ensures r.Ok? ==> IsEscaped(r.value, delimiter)
      ensures 0 <= i < |components| && IsEscaped(Escape(components[i], delimiter), delimiter) ==> r.Ok?
    {
      if !(0 <= i < |components|) then Err(MethodFailed)
      else
        var e := Escape(components[i], delimiter);
        if IsEscaped(e, delimiter) then Ok(e) else Err(MethodFailed)
    }

    method SetComponent(i: int, c: string) returns (r: Result<StringArrayName>)
      ensures components == old(components)
      ensures !IsEscaped(c, delimiter) || !(0 <= i < |components|) ==> r == Err(MethodFailed)
      ensures IsEscaped(c, delimiter) && 0 <= i < |components| ==>
        r.Ok? && fresh(r.value) && r.value.delimiter == delimiter
        && r.value.components == components[i := Unescape(c, delimiter)]
    {
      if !IsEscaped(c, delimiter) || !(0 <= i < |components|) {
        return Err(MethodFailed);
      }
      var copy := new StringArrayName(components[i := Unescape(c, delimiter)], delimiter);
      r := Ok(copy);
    }

    method Insert(i: int, c: string) returns (r: Result<StringArrayName>)
      ensures components == old(components)
      ensures !IsEscaped(c, delimiter) || !(0 <= i <= |components|) ==> r == Err(MethodFailed)
      ensures IsEscaped(c, delimiter) && 0 <= i <= |components| ==>
        r.Ok? && fresh(r.value) && r.value.delimiter == delimiter
        && r.value.components == components[..i] + [Unescape(c, delimiter)] + components[i..]
    {
      if !IsEscaped(c, delimiter) || !(0 <= i <= |components|) {
        return Err(MethodFailed);
      }
      var copy := new StringArrayName(components[..i] + [Unescape(c, delimiter)] + components[i..], delimiter);
      r := Ok(copy);
    }

    method Append(c: string) returns (r: Result<StringArrayName>)
      ensures components == old(components)
      ensures !IsEscaped(c, delimiter) ==> r == Err(MethodFailed)
      ensures IsEscaped(c, delimiter) ==>
        r.Ok? && fresh(r.value) && r.value.delimiter == delimiter
        && r.value.components == components + [Unescape(c, delimiter)]
    {
      if !IsEscaped(c, delimiter) {
        return Err(MethodFailed);
      }
      var copy := new StringArrayName(components + [Unescape(c, delimiter)], delimiter);
      r := Ok(copy);
    }

    method Remove(i: int) returns (r: Result<StringArrayName>)
      ensures components == old(components)
      ensures !(0 <= i < |components|) ==> r == Err(MethodFailed)
      ensures 0 <= i < |components| ==>
        r.Ok? && fresh(r.value) && r.value.delimiter == delimiter
        && r.value.components == components[..i] + components[i + 1..]
    {
      if !(0 <= i < |components|) {
        return Err(MethodFailed);
      }
      var copy := new StringArrayName(components[..i] + components[i + 1..], delimiter);
      r := Ok(copy);
    }
  }

  // ---------------------------------------------------------------------------------------
  // properties
  // ---------------------------------------------------------------------------------------

  /** The copy `setComponent(i, escape(u))` returns, for a backslash-free `u`, stores `u` at i
      and reads `escape(u)` back there; the receiver keeps its own components. */
  lemma SetComponentCopyReadsBack(n: StringArrayName, copy: StringArrayName, i: int, u: string)
    requires n.delimiter != Esc && Esc !in u && 0 <= i < |n.components|
    requires copy.delimiter == n.delimiter
    requires copy.components == n.components[i := Unescape(Escape(u, n.delimiter), n.delimiter)]
    ensures copy.components[i] == u
    ensures copy.GetComponent(i) == Ok(Escape(u, n.delimiter))
  {
    StringArrayNameB05.SetThenGetPlain(u, n.delimiter);
    UnescapeEscape(u, n.delimiter);
    BackslashFreeHasNoEscapedDelimiter(u, n.delimiter);
  }
}
