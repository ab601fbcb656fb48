/** The string-backed name of the sixth iteration (src/adap-b06/names/StringName.ts): the same
    representation as in the fifth, but every mutator leaves the receiver alone and returns a
    deep copy that carries the change. */
module StringNameB06 {
  import opened Common
  import opened Escaping
  import AbstractNameB05
  import StringNameB05

  class StringName {
    const delimiter: char
    var name: string
    var noComponents: nat

    constructor(other: string, delimiter: char)
      ensures this.delimiter == delimiter && name == other
      ensures noComponents == |Split(other, delimiter)|
    {
      this.delimiter := delimiter;
      name := other;
      noComponents := |Split(other, delimiter)|;
    }

    /** The deep copy a mutator returns, with its new fields. */
    constructor Copy(delimiter: char, name: string, noComponents: nat)
      ensures this.delimiter == delimiter && this.name == name && this.noComponents == noComponents
    {
      this.delimiter := delimiter;
      this.name := name;
      this.noComponents := noComponents;
    }

    /** The constructor with the base class's delimiter check in front (the sixth iteration's
        base class is taken to check its delimiter as the fifth's does). */
    static method Create(other: string, delimiter: Option<string>) returns (r: Result<StringName>)
      ensures r.Err? <==> AbstractNameB05.CheckDelimiter(delimiter).Err?
      ensures r.Err? ==> r.error == IllegalArgument
      ensures r.Ok? ==> fresh(r.value)
      ensures r.Ok? ==> r.value.delimiter == AbstractNameB05.CheckDelimiter(delimiter).value
      ensures r.Ok? ==> r.value.name == other
      ensures r.Ok? ==> r.value.noComponents == |Split(other, r.value.delimiter)| >= 1
    {
      var d := AbstractNameB05.CheckDelimiter(delimiter);
      if d.Err? {
        return Err(d.error);
      }
      var n := new StringName(other, d.value);
      r := Ok(n);
    }

    /** `getComponent(i)`: as in the fifth iteration. */
    function GetComponent(i: int): (r: Result<string>)
      reads this
      ensures !(0 <= i < noComponents) ==> r == Err(IllegalArgument)
      ensures r.Ok? ==> 0 <= i < |Split(name, delimiter)| && r.value == Split(name, delimiter)[i]
      ensures r.Ok? ==> IsEscaped(r.value, delimiter)
      ensures 0 <= i < noComponents && r.Err? ==> r.error == MethodFailed
    {
      if !(0 <= i < noComponents) then Err(IllegalArgument)
      else
        var pieces := Split(name, delimiter);
        if i >= |pieces| || !IsEscaped(pieces[i], delimiter) then Err(MethodFailed)
        else Ok(pieces[i])
    }

    /** The checks shared by `setComponent` and `insert`: an escaped component and an index
        below the count. */
    predicate ValidEdit(i: int, c: string)
      reads this
    {
      IsEscaped(c, delimiter) && 0 <= i < noComponents
    }

    method SetComponent(i: int, c: string) returns (r: Result<StringName>)
      ensures name == old(name) && noComponents == old(noComponents)
      ensures !ValidEdit(i, c) ==> r == Err(IllegalArgument)
      ensures ValidEdit(i, c) ==> r.Ok? && fresh(r.value) && r.value.delimiter == delimiter
      ensures ValidEdit(i, c) ==>
        var pieces := Assign(Split(name, delimiter), i, c, []);
        r.Ok? && r.value.name == Join(pieces, [delimiter]) && r.value.noComponents == |pieces|
    {
      if !ValidEdit(i, c) {
        return Err(IllegalArgument);
      }
      var pieces := Assign(Split(name, delimiter), i, c, []);
      var copy := new StringName.Copy(delimiter, Join(pieces, [delimiter]), |pieces|);
      r := Ok(copy);
    }

    /** `insert(i, c)`: the index is checked like an index to read, so `i == count` is rejected. */
    method Insert(i: int, c: string) returns (r: Result<StringName>)
      ensures name == old(name) && noComponents == old(noComponents)
      ensures !ValidEdit(i, c) ==> r == Err(IllegalArgument)
      ensures ValidEdit(i, c) ==> r.Ok? && fresh(r.value) && r.value.delimiter == delimiter
      ensures ValidEdit(i, c) ==>
        var pieces := SpliceInsert(Split(name, delimiter), i, c);
        r.Ok? && r.value.name == Join(pieces, [delimiter]) && r.value.noComponents == |pieces|
    {
      if !ValidEdit(i, c) {
        return Err(IllegalArgument);
      }
      var pieces := SpliceInsert(Split(name, delimiter), i, c);
      var copy := new StringName.Copy(delimiter, Join(pieces, [delimiter]), |pieces|);
      r := Ok(copy);
    }

    method Append(c: string) returns (r: Result<StringName>)
      ensures name == old(name) && noComponents == old(noComponents)
      ensures !IsEscaped(c, delimiter) ==> r == Err(IllegalArgument)
      ensures IsEscaped(c, delimiter) ==> r.Ok? && fresh(r.value) && r.value.delimiter == delimiter
      ensures IsEscaped(c, delimiter) ==> r.Ok? && r.value.name == name + [delimiter] + c
      ensures IsEscaped(c, delimiter) ==> r.Ok? && r.value.noComponents == |Split(name, delimiter)| + 1
    {
      if !IsEscaped(c, delimiter) {
        return Err(IllegalArgument);
      }
      var before := Split(name, delimiter);
      var pieces := before + [c];
      JoinSplit(name, delimiter);
      JoinSnoc(before, c, [delimiter]);
      var copy := new StringName.Copy(delimiter, Join(pieces, [delimiter]), |pieces|);
      r := Ok(copy);
    }

    method Remove(i: int) returns (r: Result<StringName>)
      ensures name == old(name) && noComponents == old(noComponents)
      ensures !(0 <= i < noComponents) ==> r == Err(IllegalArgument)
      ensures 0 <= i < noComponents ==> r.Ok? && fresh(r.value) && r.value.delimiter == delimiter
      ensures 0 <= i < noComponents ==>
        var pieces := SpliceRemove(Split(name, delimiter), i);
        r.Ok? && r.value.name == Join(pieces, [delimiter]) && r.value.noComponents == |pieces|
    {
      if !(0 <= i < noComponents) {
        return Err(IllegalArgument);
      }
      var pieces := SpliceRemove(Split(name, delimiter), i);
      var copy := new StringName.Copy(delimiter, Join(pieces, [delimiter]), |pieces|);
      r := Ok(copy);
    }
  }

  // ---------------------------------------------------------------------------------------
  // properties
  // ---------------------------------------------------------------------------------------

  /** For a name whose pieces keep apart and a clean component, the copy `setComponent` returns
      splits into the receiver's pieces with piece i replaced, counts them, and reads `c` back
      at i. */
  lemma SetComponentCopyReadsBack(n: StringName, copy: StringName, i: nat, c: string)
    requires n.delimiter != Esc && StringNameB05.AllClean(Split(n.name, n.delimiter), n.delimiter)
    requires i < |Split(n.name, n.delimiter)| && StringNameB05.Clean(c, n.delimiter)
    requires copy.delimiter == n.delimiter
    requires var pieces := Assign(Split(n.name, n.delimiter), i, c, []);
      copy.name == Join(pieces, [n.delimiter]) && copy.noComponents == |pieces|
    ensures Split(copy.name, copy.delimiter) == Split(n.name, n.delimiter)[i := c]
    ensures copy.noComponents == |Split(copy.name, copy.delimiter)|
    ensures copy.GetComponent(i) == Ok(c)
  {
    StringNameB05.SetComponentKeepsComponents(n.name, n.delimiter, i, c);
  }

  /** The copy `append` returns for a clean component has the receiver's pieces and `c` after
      them, and reads `c` back as its last component. */
  lemma AppendCopyReadsBack(n: StringName, copy: StringName, c: string)
    requires n.delimiter != Esc && StringNameB05.AllClean(Split(n.name, n.delimiter), n.delimiter)
    requires StringNameB05.Clean(c, n.delimiter)
    requires copy.delimiter == n.delimiter && copy.name == n.name + [n.delimiter] + c
    requires copy.noComponents == |Split(n.name, n.delimiter)| + 1
    ensures Split(copy.name, copy.delimiter) == Split(n.name, n.delimiter) + [c]
    ensures copy.GetComponent(copy.noComponents - 1) == Ok(c)
  {
    StringNameB05.AppendKeepsComponents(n.name, n.delimiter, c);
  }
}
