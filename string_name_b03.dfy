/** The string-backed name of the third iteration (src/adap-b03/names/StringName.ts): the name
    string as given and a `length` field. Nothing is checked: the constructor sets `length` to
    the number of pieces of the look-behind split, and every mutator adjusts it by the change it
    intends, whether or not the string then splits into that many pieces. */
module StringNameB03 {
  import opened Common
  import opened Escaping
  import AbstractNameB03
  import AbstractNameB05
  import StringNameB05

  class StringName {
    const delimiter: char
    var name: string
    var length: int

    constructor(other: string, delimiter: char)
      ensures this.delimiter == delimiter && name == other
      ensures length == |Split(other, delimiter)| >= 1
    {
      this.delimiter := delimiter;
      name := other;
      length := |Split(other, delimiter)|;
    }

    /** `length` counts the pieces of the stored string. */
    predicate Synced()
      reads this
    {
      length == |Split(name, delimiter)|
    }

    /** Synced, and every piece keeps apart from its neighbours when joined again. */
    predicate Clean()
      reads this
    {
      Synced() && StringNameB05.AllClean(Split(name, delimiter), delimiter)
    }

    /** `getNoComponents()`: the stored count; it is the number of pieces only while the name is
        in step. */
    function GetNoComponents(): (r: int)
      reads this
      ensures r == length && (Synced() ==> r == |Split(name, delimiter)|)
    {
      length
    }

    /** `getComponent(i)`: piece i of the split, or `undefined` (None) past the last piece. */
    function GetComponent(i: nat): (r: Option<string>)
      reads this
      ensures r.Some? <==> i < |Split(name, delimiter)|
      ensures r.Some? ==> r.value == Split(name, delimiter)[i]
    {
      var pieces := Split(name, delimiter);
      if i < |pieces| then Some(pieces[i]) else None
    }

    /** What the template methods see: `length` indices, each reading a piece or, past the
        last piece, `undefined`. */
    function View(): (r: AbstractNameB03.Snapshot)
      reads this
      ensures r.delimiter == delimiter && r.count == length
      ensures forall i :: 0 <= i < |r.components| ==> r.components[i] == AbstractNameB03.Returned(GetComponent(i))
    {
      var size := AbstractNameB03.Size(length);
      var pieces := Split(name, delimiter);
      var rs := seq(size, i requires 0 <= i < size => AbstractNameB03.Returned(if i < |pieces| then Some(pieces[i]) else None));
      AbstractNameB03.Snapshot(delimiter, length, rs)
    }

    /** `setComponent(i, c)`: `array[i] = c` on the pieces, then join; `length` stays. */
    method SetComponent(i: nat, c: string)
      modifies this
      ensures name == Join(Assign(Split(old(name), delimiter), i, c, []), [delimiter])
      ensures length == old(length)
      ensures old(Clean()) && delimiter != Esc && i < |Split(old(name), delimiter)| && StringNameB05.Clean(c, delimiter) ==>
        Clean() && Split(name, delimiter) == Split(old(name), delimiter)[i := c]
    {
      var pieces := Split(name, delimiter);
      if delimiter != Esc && i < |pieces| && StringNameB05.AllClean(pieces, delimiter) && StringNameB05.Clean(c, delimiter) {
        StringNameB05.SetComponentKeepsComponents(name, delimiter, i, c);
      }
      pieces := Assign(pieces, i, c, []);
      name := Join(pieces, [delimiter]);
    }

    /** `insert(i, c)`: splice c in at i, join, and count one more. */
    method Insert(i: nat, c: string)
      modifies this
      ensures name == Join(SpliceInsert(Split(old(name), delimiter), i, c), [delimiter])
      ensures length == old(length) + 1
      ensures old(Clean()) && delimiter != Esc && i <= |Split(old(name), delimiter)| && StringNameB05.Clean(c, delimiter) ==>
        Clean() && Split(name, delimiter) == SpliceInsert(Split(old(name), delimiter), i, c)
    {
      var pieces := Split(name, delimiter);
      if delimiter != Esc && i <= |pieces| && StringNameB05.AllClean(pieces, delimiter) && StringNameB05.Clean(c, delimiter) {
        StringNameB05.InsertKeepsComponents(name, delimiter, i, c);
      }
      pieces := SpliceInsert(pieces, i, c);
      name := Join(pieces, [delimiter]);
      length := length + 1;
    }

    /** `append(c)`: the delimiter and c are added to the string, and one more is counted. */
    method Append(c: string)
      modifies this
      ensures name == old(name) + [delimiter] + c
      ensures length == old(length) + 1
      ensures old(Clean()) && delimiter != Esc && StringNameB05.Clean(c, delimiter) ==>
        Clean() && Split(name, delimiter) == Split(old(name), delimiter) + [c]
    {
      if delimiter != Esc && StringNameB05.AllClean(Split(name, delimiter), delimiter) && StringNameB05.Clean(c, delimiter) {
        StringNameB05.AppendKeepsComponents(name, delimiter, c);
      }
      name := name + [delimiter] + c;
      length := length + 1;
    }

    /** `remove(i)`: splice out piece i, join, and count one less. */
    method Remove(i: nat)
      modifies this
      ensures name == Join(SpliceRemove(Split(old(name), delimiter), i), [delimiter])
      ensures length == old(length) - 1
      ensures old(Clean()) && delimiter != Esc && i < |Split(old(name), delimiter)| && |Split(old(name), delimiter)| >= 2 ==>
        Clean() && Split(name, delimiter) == SpliceRemove(Split(old(name), delimiter), i)
    {
      var pieces := Split(name, delimiter);
      if delimiter != Esc && i < |pieces| && |pieces| >= 2 && StringNameB05.AllClean(pieces, delimiter) {
        StringNameB05.RemoveKeepsComponents(name, delimiter, i);
      }
      pieces := SpliceRemove(pieces, i);
      name := Join(pieces, [delimiter]);
      length := length - 1;
    }

    /** `concat(other)`: `append` of every translated component of the other name, until a
        component is not a string: `unescape` then throws, and what was appended stays. */
    method Concat(other: AbstractNameB03.Snapshot) returns (r: Outcome)
      modifies this
      ensures r == AbstractNameB03.ConcatOutcome(other)
      ensures name == Appended(old(name), AbstractNameB03.ConcatItems(other, delimiter), delimiter)
      ensures length == old(length) + |AbstractNameB03.ConcatItems(other, delimiter)|
      ensures old(Clean()) && delimiter != Esc && StringNameB05.AllClean(AbstractNameB03.ConcatItems(other, delimiter), delimiter) ==>
        Clean() && Split(name, delimiter) == Split(old(name), delimiter) + AbstractNameB03.ConcatItems(other, delimiter)
    {
      ghost var done := AbstractNameB03.ConcatItems(other, delimiter);
      ghost var start := name;
      ghost var clean := Clean() && delimiter != Esc && StringNameB05.AllClean(done, delimiter);
      var i := 0;
      while i < other.count
        invariant 0 <= i <= |done|
        invariant name == Appended(start, done[..i], delimiter)
        invariant length == old(length) + i
        invariant clean ==> Clean() && Split(name, delimiter) == Split(start, delimiter) + done[..i]
      {
        var read := other.components[i];
        if !read.Got? {
          assert i == |done| && done[..i] == done;
          return Fail(AbstractNameB03.AsArgument(read).error);
        }
        Append(Translate(read.value, other.delimiter, delimiter));
        AppendedSnoc(start, done[..i], done[i], delimiter);
        assert done[..i + 1] == done[..i] + [done[i]];
        if clean {
          assert StringNameB05.Clean(done[i], delimiter);
          AppendAssoc(Split(start, delimiter), done[..i], [done[i]]);
        }
        i := i + 1;
      }
      assert done[..i] == done;
      r := Pass;
    }
  }

  // ---------------------------------------------------------------------------------------
  // properties
  // ---------------------------------------------------------------------------------------

  /** `new StringName("")` has one (empty) component; appending a component without a bare
      delimiter then gives two, the first one empty. */
  lemma EmptyNameThenAppend(c: string, d: char)
    requires d != Esc && NoBareDelimiter(c, d)
    ensures Split([], d) == [[]]
    ensures Split([] + [d] + c, d) == [[], c]
  {
    var ps: seq<string> := [[], c];
    assert Resplittable(ps, d) by {
      assert NoBareDelimiter(ps[0], d);
      assert !EndsInEsc(ps[0]);
    }
    SplitJoin(ps, d);
    JoinCons([], [c], [d]);
  }

  /** A synced name reads back: the components the template methods see, joined by the
      delimiter, are the stored string. */
  lemma SyncedNameReadsBack(n: StringName)
    requires n.Synced()
    ensures AbstractNameB03.AsDataStringOf(n.View()) == Ok(n.name)
  {
    var pieces := Split(n.name, n.delimiter);
    var v := AbstractNameB03.Elements(n.View());
    assert forall i :: 0 <= i < |v| ==> v[i] == Ok(pieces[i]);
    var cs := AbstractNameB05.Collect(v);
    assert cs.value == pieces;
    JoinSplit(n.name, n.delimiter);
  }

  /** `setComponent` with a component that holds a bare delimiter breaks the count: the string
      then has more pieces than `length` says. */
  lemma SetComponentWithDelimiterDesyncs(d: char)
    requires d != Esc
    ensures var ps := Assign(Split([], d), 0, [d], []);
      |Split(Join(ps, [d]), d)| == 2 != |Split([], d)|
  {
    assert Join([[d]], [d]) == [d];
    assert Split([d], d) == SplitAfter([d], d, false);
    assert [d][1..] == [];
  }

  /** `setComponent(0, "a\\")` on "x.y": the new string "a\\.y" is a single piece, because
      the look-behind sees a backslash in front of the delimiter, while `length` stays 2. */
  lemma SetComponentHidesDelimiter()
    ensures var ps := Assign(Split("x.y", '.'), 0, "a\\", []);
      Join(ps, ".") == "a\\.y" && Split("a\\.y", '.') == ["a\\.y"]
  {
    assert Split("x.y", '.') == ["x", "y"] by {
      assert Resplittable(["x", "y"], '.');
      SplitJoin(["x", "y"], '.');
      JoinCons("x", ["y"], ".");
      assert "x" + "." + "y" == "x.y";
    }
    assert Assign(["x", "y"], 0, "a\\", []) == ["a\\", "y"];
    JoinCons("a\\", ["y"], ".");
    var s := "a\\.y";
    assert s[1..] == "\\.y" && s[2..] == ".y" && s[3..] == "y";
    assert CountAfter(s, '.', false) == 0;
    SplitWithoutBareDelimiter(s, '.');
  }

  /** The name left by that edit: index 1 reads `undefined`. `asDataString` writes it as "",
      so the data string ends in the delimiter, while `asString` throws a TypeError. */
  lemma MissingPieceReadsUndefined(n: StringName)
    requires n.name == "a\\.y" && n.delimiter == '.' && n.length == 2
    ensures n.View().components == [AbstractNameB03.Got("a\\.y"), AbstractNameB03.Undefined]
    ensures AbstractNameB03.AsDataStringOf(n.View()) == Ok("a\\.y.")
    ensures AbstractNameB03.AsStringOf(n.View(), ".") == Err(TypeError)
  {
    SetComponentHidesDelimiter();
    assert n.GetComponent(0) == Some("a\\.y");
    assert n.GetComponent(1) == None;
    var v := n.View();
    assert v.components == [AbstractNameB03.Got("a\\.y"), AbstractNameB03.Undefined];
    SecondReadUndefined(v, "a\\.y");
    assert Join(["a\\.y", []], ".") == "a\\.y" + "." + [] == "a\\.y.";
  }

  /** Two reads, a string and then `undefined`: the data string joins the string and "", and
      `asString` fails with a TypeError. */
  lemma SecondReadUndefined(v: AbstractNameB03.Snapshot, s: string)
    requires v.components == [AbstractNameB03.Got(s), AbstractNameB03.Undefined]
    ensures AbstractNameB03.AsDataStringOf(v) == Ok(Join([s, []], [v.delimiter]))
    ensures AbstractNameB03.AsStringOf(v, [v.delimiter]) == Err(TypeError)
  {
    var e := AbstractNameB03.Elements(v);
    assert e == [Ok(s), Ok([])];
    assert e[..0] == [] && e[..2] == e;
    AbstractNameB05.CollectPrefix(e, 0);
    assert [] + [s] == [s];
    AbstractNameB05.CollectPrefix(e, 1);
    assert [s] + [[]] == [s, []];
    var a := AbstractNameB03.Arguments(v);
    assert a == [Ok(s), Err(TypeError)];
    assert a[..0] == [] && a[..2] == a;
    AbstractNameB05.CollectPrefix(a, 0);
    AbstractNameB05.CollectPrefix(a, 1);
  }
}
