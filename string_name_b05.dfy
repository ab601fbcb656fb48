/** The string-backed name of the fifth iteration (src/adap-b05/names/StringName.ts): the name
    string and a stored component count. Every mutator splits the string at the delimiters not
    preceded by a backslash, edits the pieces as a JavaScript array, joins them back and stores
    the new piece count. */
module StringNameB05 {
  import opened Common
  import opened Escaping
  import AbstractNameB05

  /** A component the string representation keeps apart from its neighbours: escaped, and not
      ending in a backslash (which would hide the delimiter that follows it from the split). */
  predicate Clean(c: string, d: char) {
    IsEscaped(c, d) && !EndsInEsc(c)
  }

  predicate AllClean(ps: seq<string>, d: char) {
    forall i :: 0 <= i < |ps| ==> Clean(ps[i], d)
  }

  class StringName {
    const delimiter: char
    var name: string
    var noComponents: nat

    /** `new StringName(other, delimiter)` once the delimiter has passed the base class check. */
    constructor(other: string, delimiter: char)
      ensures this.delimiter == delimiter && name == other
      ensures noComponents == |Split(other, delimiter)|
    {
      this.delimiter := delimiter;
      name := other;
      noComponents := |Split(other, delimiter)|;
    }

    /** The constructor with the base class's delimiter check in front. */
    static method Create(other: string, delimiter: Option<string>) returns (r: Result<StringName>)
      ensures r.Err? <==> AbstractNameB05.CheckDelimiter(delimiter).Err?
      ensures r.Err? ==> r.error == IllegalArgument
      ensures r.Ok? ==> fresh(r.value)
      ensures r.Ok? ==> r.value.delimiter == AbstractNameB05.CheckDelimiter(delimiter).value
      ensures r.Ok? ==> r.value.name == other
      ensures r.Ok? ==> r.value.noComponents == |Split(other, r.value.delimiter)| >= 1
    {
      var d := AbstractNameB05.CheckDelimiter(delimiter);
      if d.Err? {
        return Err(d.error);
      }
      var n := new StringName(other, d.value);
      r := Ok(n);
    }

    /** The stored count agrees with the string. */
    predicate Synced()
      reads this
    {
      noComponents == |Split(name, delimiter)|
    }

    /** `getComponent(i)`: the index is checked against the stored count; the piece of the split
        must exist and be escaped. */
    function GetComponent(i: int): (r: Result<string>)
      reads this
      ensures !(0 <= i < noComponents) ==> r == Err(IllegalArgument)
      ensures r.Ok? ==> 0 <= i < |Split(name, delimiter)| && r.value == Split(name, delimiter)[i]
      ensures r.Ok? ==> IsEscaped(r.value, delimiter)
      ensures 0 <= i < noComponents && r.Err? ==> r.error == MethodFailed
    {
      if !(0 <= i < noComponents) then Err(IllegalArgument)
      else
        var pieces := Split(name, delimiter);
        if i >= |pieces| || !IsEscaped(pieces[i], delimiter) then Err(MethodFailed)
        else Ok(pieces[i])
    }

    /** What the template methods of the base class see of this name. */
    function View(): (r: AbstractNameB05.Snapshot)
      reads this
      ensures r.delimiter == delimiter && |r.components| == noComponents
      ensures forall i :: 0 <= i < noComponents ==> r.components[i] == GetComponent(i)
    {
      AbstractNameB05.Snapshot(delimiter, seq(noComponents, i reads this => GetComponent(i)))
    }

    method SetComponent(i: int, c: string) returns (r: Outcome)
      modifies this
      ensures !(0 <= i < old(noComponents)) || !IsEscaped(c, delimiter) ==>
        r == Fail(IllegalArgument) && name == old(name) && noComponents == old(noComponents)
      ensures 0 <= i < old(noComponents) && IsEscaped(c, delimiter) ==>
        var pieces := Assign(Split(old(name), delimiter), i, c, []);
        r == Pass && name == Join(pieces, [delimiter]) && noComponents == |pieces|
    {
      if !(0 <= i < noComponents) || !IsEscaped(c, delimiter) {
        return Fail(IllegalArgument);
      }
      var pieces := Assign(Split(name, delimiter), i, c, []);
      name := Join(pieces, [delimiter]);
      noComponents := |pieces|;
      r := Pass;
    }

    method Insert(i: int, c: string) returns (r: Outcome)
      modifies this
      ensures !(0 <= i <= old(noComponents)) || !IsEscaped(c, delimiter) ==>
        r == Fail(IllegalArgument) && name == old(name) && noComponents == old(noComponents)
      ensures 0 <= i <= old(noComponents) && IsEscaped(c, delimiter) ==>
        var pieces := SpliceInsert(Split(old(name), delimiter), i, c);
        r == Pass && name == Join(pieces, [delimiter]) && noComponents == |pieces|
    {
      if !(0 <= i <= noComponents) || !IsEscaped(c, delimiter) {
        return Fail(IllegalArgument);
      }
      var pieces := SpliceInsert(Split(name, delimiter), i, c);
      name := Join(pieces, [delimiter]);
      noComponents := |pieces|;
      r := Pass;
    }

    /** `append(c)`: the name grows by the delimiter and `c`; the count becomes one more than the
        number of pieces the old string splits into. */
    method Append(c: string) returns (r: Outcome)
      modifies this
      ensures !IsEscaped(c, delimiter) ==>
        r == Fail(IllegalArgument) && name == old(name) && noComponents == old(noComponents)
      ensures IsEscaped(c, delimiter) ==>
        r == Pass && name == old(name) + [delimiter] + c
        && noComponents == |Split(old(name), delimiter)| + 1
    {
      if !IsEscaped(c, delimiter) {
        return Fail(IllegalArgument);
      }
      var before := Split(name, delimiter);
      var pieces := before + [c];
      JoinSplit(name, delimiter);
      JoinSnoc(before, c, [delimiter]);
      name := Join(pieces, [delimiter]);
      noComponents := |pieces|;
      r := Pass;
    }

    method Remove(i: int) returns (r: Outcome)
      modifies this
      ensures !(0 <= i < old(noComponents)) ==>
        r == Fail(IllegalArgument) && name == old(name) && noComponents == old(noComponents)
      ensures 0 <= i < old(noComponents) ==>
        var pieces := SpliceRemove(Split(old(name), delimiter), i);
        r == Pass && name == Join(pieces, [delimiter]) && noComponents == |pieces|
    {
      if !(0 <= i < noComponents) {
        return Fail(IllegalArgument);
      }
      var pieces := SpliceRemove(Split(name, delimiter), i);
      name := Join(pieces, [delimiter]);
      noComponents := |pieces|;
      r := Pass;
    }

    /** `concat(other)`: append the other name's components, translated to this delimiter, one
        by one; the first failure stops the loop and leaves the appends made so far in place. */
    method Concat(other: AbstractNameB05.Snapshot) returns (r: Outcome)
      modifies this
      ensures var plan := AbstractNameB05.PlanConcat(other, delimiter);
        && r == plan.outcome
        && name == Appended(old(name), plan.items, delimiter)
        && (plan.items == [] ==> noComponents == old(noComponents))
        && (plan.items != [] ==>
              noComponents == |Split(Appended(old(name), Init(plan.items), delimiter), delimiter)| + 1)
    {
      ghost var name0 := name;
      ghost var done: seq<string> := [];
      AbstractNameB05.PlannedAtStart(other, delimiter);
      var i := 0;
      while i < |other.components|
        invariant 0 <= i <= |other.components|
        invariant AbstractNameB05.PlannedUpTo(other, delimiter, i, done)
        invariant name == Appended(name0, done, delimiter)
        invariant done == [] ==> noComponents == old(noComponents)
        invariant done != [] ==>
          noComponents == |Split(Appended(name0, Init(done), delimiter), delimiter)| + 1
      {
        match other.components[i]
        case Err(e) =>
          AbstractNameB05.PlannedStop(other, delimiter, i, done);
          return Fail(e);
        case Ok(c) =>
          var t := Translate(c, other.delimiter, delimiter);
          ghost var before := name;
          var a := Append(t);
          if a.Fail? {
            AbstractNameB05.PlannedStop(other, delimiter, i, done);
            return a;
          }
          AbstractNameB05.PlannedNext(other, delimiter, i, done);
          AppendedSnoc(name0, done, t, delimiter);
          done := done + [t];
          i := i + 1;
      }
      AbstractNameB05.PlannedStop(other, delimiter, i, done);
      r := Pass;
    }
  }

  // ---------------------------------------------------------------------------------------
  // the string and the count stay in step for clean components
  // ---------------------------------------------------------------------------------------

  lemma CleanIsResplittable(ps: seq<string>, d: char)
    requires d != Esc && |ps| >= 1 && AllClean(ps, d)
    ensures Resplittable(ps, d)
  {
    forall i | 0 <= i < |ps|
      ensures NoBareDelimiter(ps[i], d)
    {
      IsEscapedIffWellEscaped(ps[i], d);
      WellEscapedHasNoBareDelimiter(ps[i], d, false);
    }
  }

  /** Clean pieces joined by the delimiter split back into the same pieces. */
  lemma CleanPiecesResplit(ps: seq<string>, d: char)
    requires d != Esc && |ps| >= 1 && AllClean(ps, d)
    ensures Split(Join(ps, [d]), d) == ps
  {
    CleanIsResplittable(ps, d);
    SplitJoin(ps, d);
  }

  /** `setComponent` on a name of clean pieces with a clean component replaces exactly that piece. */
  lemma SetComponentKeepsComponents(name: string, d: char, i: nat, c: string)
    requires d != Esc && AllClean(Split(name, d), d) && i < |Split(name, d)| && Clean(c, d)
    ensures var ps := Split(name, d);
      Split(Join(Assign(ps, i, c, []), [d]), d) == ps[i := c] && AllClean(ps[i := c], d)
  {
    var ps := Split(name, d);
    assert Assign(ps, i, c, []) == ps[i := c];
    CleanPiecesResplit(ps[i := c], d);
  }

  /** `insert` on a name of clean pieces with a clean component adds exactly that piece. */
  lemma InsertKeepsComponents(name: string, d: char, i: nat, c: string)
    requires d != Esc && AllClean(Split(name, d), d) && i <= |Split(name, d)| && Clean(c, d)
    ensures var ps := Split(name, d);
      Split(Join(SpliceInsert(ps, i, c), [d]), d) == ps[..i] + [c] + ps[i..]
      && AllClean(ps[..i] + [c] + ps[i..], d)
  {
    var ps := Split(name, d);
    var qs := ps[..i] + [c] + ps[i..];
    assert SpliceInsert(ps, i, c) == qs;
    assert forall k :: 0 <= k < |qs| ==> qs[k] == c || qs[k] in ps;
    CleanPiecesResplit(qs, d);
  }

  /** `append` on a name of clean pieces with a clean component adds exactly that piece. */
  lemma AppendKeepsComponents(name: string, d: char, c: string)
    requires d != Esc && AllClean(Split(name, d), d) && Clean(c, d)
    ensures Split(name + [d] + c, d) == Split(name, d) + [c]
    ensures AllClean(Split(name, d) + [c], d)
  {
    var ps := Split(name, d);
    JoinSplit(name, d);
    JoinSnoc(ps, c, [d]);
    CleanPiecesResplit(ps + [c], d);
  }

  /** `remove` on a name of at least two clean pieces drops exactly that piece. */
  lemma RemoveKeepsComponents(name: string, d: char, i: nat)
    requires d != Esc && AllClean(Split(name, d), d) && i < |Split(name, d)| && |Split(name, d)| >= 2
    ensures var ps := Split(name, d);
      Split(Join(SpliceRemove(ps, i), [d]), d) == ps[..i] + ps[i + 1..]
      && AllClean(ps[..i] + ps[i + 1..], d)
  {
    var ps := Split(name, d);
    var qs := ps[..i] + ps[i + 1..];
    assert SpliceRemove(ps, i) == qs;
    assert forall k :: 0 <= k < |qs| ==> qs[k] in ps;
    CleanPiecesResplit(qs, d);
  }

  /** A synchronised name of clean pieces answers every `getComponent` with its piece, and its
      `toString()` is the name string itself. */
  lemma CleanNameReadsBack(n: StringName)
    requires n.delimiter != Esc && n.Synced() && AllClean(Split(n.name, n.delimiter), n.delimiter)
    ensures forall i :: 0 <= i < n.noComponents ==> n.GetComponent(i) == Ok(Split(n.name, n.delimiter)[i])
    ensures AbstractNameB05.ToStringOf(n.View()) == Ok(n.name)
  {
    var ps := Split(n.name, n.delimiter);
    AbstractNameB05.CollectAllOk(n.View().components, ps);
    JoinSplit(n.name, n.delimiter);
  }

  lemma {:induction false} AppendedSplits(name: string, items: seq<string>, d: char)
    requires d != Esc && AllClean(Split(name, d), d) && AllClean(items, d)
    ensures Split(Appended(name, items, d), d) == Split(name, d) + items
    decreases |items|
  {
    if items != [] {
      var init := Init(items);
      var last := items[|items| - 1];
      AppendedSplits(name, init, d);
      assert Split(name, d) + init + [last] == Split(name, d) + items;
      AppendKeepsComponents(Appended(name, init, d), d, last);
    } else {
      assert Split(name, d) + [] == Split(name, d);
    }
  }

  /** `concat` of a name whose literal components hold no backslash onto a synchronised name of
      clean pieces goes through, keeps the count in step and adds exactly those components. */
  lemma ConcatKeepsComponents(name: string, d: char, other: AbstractNameB05.Snapshot)
    requires d != Esc && AllClean(Split(name, d), d) && AbstractNameB05.PlainValues(other)
    ensures var plan := AbstractNameB05.PlanConcat(other, d);
      && plan.outcome == Pass
      && UnescapeAll(plan.items, d) == AbstractNameB05.Values(other)
      && Split(Appended(name, plan.items, d), d) == Split(name, d) + plan.items
      && (plan.items != [] ==>
            |Split(Appended(name, Init(plan.items), d), d)| + 1 == |Split(name, d)| + |plan.items|)
  {
    AbstractNameB05.ConcatOfPlainValues(other, d);
    var items := AbstractNameB05.PlanConcat(other, d).items;
    var us := AbstractNameB05.Values(other);
    forall k | 0 <= k < |items|
      ensures Clean(items[k], d)
    {
      EscapeIsEscaped(us[k], d);
      if us[k] != [] {
        EscapeAfterLast(us[k], d, false);
      }
    }
    AppendedSplits(name, items, d);
    if items != [] {
      AppendedSplits(name, Init(items), d);
    }
  }

  // ---------------------------------------------------------------------------------------
  // a component ending in an escaped backslash
  // ---------------------------------------------------------------------------------------

  /** `setComponent(0, "a\\\\")` on the name "x.y": the component is escaped and accepted, the
      count stays 2, but the new string "a\\\\.y" splits into one piece, because the
      look-behind sees a backslash in front of the delimiter. */
  lemma SetComponentEscapedBackslashMerges()
    ensures IsEscaped("a\\\\", '.')
    ensures var ps := Assign(Split("x.y", '.'), 0, "a\\\\", []);
      |ps| == 2 && Join(ps, ".") == "a\\\\.y" && Split("a\\\\.y", '.') == ["a\\\\.y"]
  {
    assert DropPairs("a\\\\", '\\', '\\') == "a";
    assert Split("x.y", '.') == ["x", "y"] by {
      assert "x"[1..] == [];
      assert "y"[1..] == [];
      assert Resplittable(["x", "y"], '.');
      SplitJoin(["x", "y"], '.');
      JoinCons("x", ["y"], ".");
      assert "x" + "." + "y" == "x.y";
    }
    assert Assign(["x", "y"], 0, "a\\\\", []) == ["a\\\\", "y"];
    JoinCons("a\\\\", ["y"], ".");
    MergedStringHasNoBareDelimiter();
    SplitWithoutBareDelimiter("a\\\\.y", '.');
  }

  lemma MergedStringHasNoBareDelimiter()
    ensures NoBareDelimiter("a\\\\.y", '.')
  {
    var s := "a\\\\.y";
    assert s[1..] == "\\\\.y";
    assert s[2..] == "\\.y";
    assert s[3..] == ".y";
    assert s[4..] == "y";
    assert CountAfter("y", '.', false) == 0;
    assert CountAfter(".y", '.', true) == 0;
    assert CountAfter("\\.y", '.', true) == 0;
    assert CountAfter("\\\\.y", '.', false) == 0;
  }

  /** After that edit, no `getComponent` call succeeds: the single piece is not escaped, and
      index 1 has no piece at all. */
  lemma MergedNameIsUnreadable(n: StringName)
    requires n.name == "a\\\\.y" && n.delimiter == '.' && n.noComponents == 2
    ensures n.GetComponent(0) == Err(MethodFailed) && n.GetComponent(1) == Err(MethodFailed)
  {
    SetComponentEscapedBackslashMerges();
    var s := "a\\\\.y";
    assert s[1..] == "\\\\.y";
    assert s[3..] == ".y";
    assert s[4..] == "y";
    assert DropPairs("y", '\\', '\\') == "y";
    assert DropPairs(".y", '\\', '\\') == ".y";
    assert DropPairs("\\\\.y", '\\', '\\') == ".y";
    assert DropPairs("a\\\\.y", '\\', '\\') == "a.y";
    assert '.' in DropPairs("a.y", '\\', '.');
    assert !IsEscaped("a\\\\.y", '.');
  }

  /** With the token-aware split in place of the look-behind split, every escaped component
      survives `setComponent`: the pieces read back are the old ones with the one replaced. */
  lemma CorrectedSetComponentKeepsComponents(name: string, d: char, i: nat, c: string)
    requires d != Esc && i < |SplitTokens(name, d)| && IsEscaped(c, d)
    requires forall k :: 0 <= k < |SplitTokens(name, d)| ==> IsEscaped(SplitTokens(name, d)[k], d)
    ensures var ps := SplitTokens(name, d);
      SplitTokens(Join(Assign(ps, i, c, []), [d]), d) == ps[i := c]
  {
    var ps := SplitTokens(name, d);
    var qs := ps[i := c];
    assert Assign(ps, i, c, []) == qs;
    forall k | 0 <= k < |qs|
      ensures WellEscaped(qs[k], d)
    {
      IsEscapedIffWellEscaped(qs[k], d);
    }
    SplitTokensJoin(qs, d);
  }
}
