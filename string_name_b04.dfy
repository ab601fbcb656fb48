/** The string-backed name of the fourth iteration (src/adap-b04/names/StringName.ts). The
    constructor stores its input unescaped, and every operation splits the stored string at
    every occurrence of the delimiter, escaped or not. */
module StringNameB04 {
  import opened Common
  import opened Escaping
  import AbstractNameB04

  /** What the template methods of the base class see of a stored string. */
  function ViewOf(name: string, d: char): (r: AbstractNameB04.Snapshot)
    ensures r.delimiter == d && |r.components| >= 1
    ensures forall i :: 0 <= i < |r.components| ==> d !in r.components[i]
  {
    AbstractNameB04.Snapshot(d, SplitRaw(name, d))
  }

  class StringName {
    const delimiter: char
    var name: string

    /** `new StringName(other, delimiter)` once its checks have passed. */
    constructor(other: string, delimiter: char)
      ensures this.delimiter == delimiter && name == Unescape(other, delimiter)
    {
      this.delimiter := delimiter;
      name := Unescape(other, delimiter);
    }

    /** The constructor with its checks: the base class rejects an empty delimiter with a plain
        `Error`, then an empty name is an IllegalArgument. */
    static method Create(other: string, delimiter: Option<string>) returns (r: Result<StringName>)
      requires delimiter.Some? ==> |delimiter.value| <= 1
      ensures AbstractNameB04.CheckDelimiter(delimiter).Err? ==> r == Err(PlainError)
      ensures AbstractNameB04.CheckDelimiter(delimiter).Ok? && other == [] ==> r == Err(IllegalArgument)
      ensures r.Ok? <==> AbstractNameB04.CheckDelimiter(delimiter).Ok? && other != []
      ensures r.Ok? ==> fresh(r.value)
      ensures r.Ok? ==> r.value.delimiter == AbstractNameB04.CheckDelimiter(delimiter).value[0]
      ensures r.Ok? ==> r.value.name == Unescape(other, r.value.delimiter)
    {
      var d := AbstractNameB04.CheckDelimiter(delimiter);
      if d.Err? {
        return Err(d.error);
      }
      if other == [] {
        return Err(IllegalArgument);
      }
      var n := new StringName(other, d.value[0]);
      r := Ok(n);
    }

    /** `getNoComponents()`: the number of pieces between delimiters, at least one. */
    function GetNoComponents(): (r: nat)
      reads this
      ensures r >= 1 && r == |SplitRaw(name, delimiter)|
    {
      |SplitRaw(name, delimiter)|
    }

    /** `getComponent(i)`: the i-th piece, which holds no delimiter; an index outside the
        pieces is a plain `Error` from `checkIndexBounds`. */
    function GetComponent(i: int): (r: Result<string>)
      reads this
      ensures r.Ok? <==> 0 <= i < |SplitRaw(name, delimiter)|
      ensures r.Err? ==> r.error == PlainError
      ensures r.Ok? ==> r.value == SplitRaw(name, delimiter)[i] && delimiter !in r.value
    {
      var pieces := SplitRaw(name, delimiter);
      if 0 <= i < |pieces| then Ok(pieces[i]) else Err(PlainError)
    }

    function View(): (r: AbstractNameB04.Snapshot)
      reads this
      ensures r == ViewOf(name, delimiter)
      ensures forall i :: 0 <= i < |r.components| ==> GetComponent(i) == Ok(r.components[i])
    {
      ViewOf(name, delimiter)
    }

    method SetComponent(i: int, c: string) returns (r: Outcome)
      modifies this
      ensures !(0 <= i < |SplitRaw(old(name), delimiter)|) ==> r == Fail(PlainError) && name == old(name)
      ensures 0 <= i < |SplitRaw(old(name), delimiter)| ==>
        r == Pass && name == Join(SplitRaw(old(name), delimiter)[i := Unescape(c, delimiter)], [delimiter])
    {
      var components := SplitRaw(name, delimiter);
      if !(0 <= i < |components|) {
        return Fail(PlainError);
      }
      components := Assign(components, i, Unescape(c, delimiter), []);
      name := Join(components, [delimiter]);
      r := Pass;
    }

    /** `insert(i, c)`: the bounds check is the one of `getComponent`, so inserting at the end
        position is rejected. */
    method Insert(i: int, c: string) returns (r: Outcome)
      modifies this
      ensures !(0 <= i < |SplitRaw(old(name), delimiter)|) ==> r == Fail(PlainError) && name == old(name)
      ensures 0 <= i < |SplitRaw(old(name), delimiter)| ==>
        var ps := SplitRaw(old(name), delimiter);
        r == Pass && name == Join(ps[..i] + [Unescape(c, delimiter)] + ps[i..], [delimiter])
    {
      var components := SplitRaw(name, delimiter);
      if !(0 <= i < |components|) {
        return Fail(PlainError);
      }
      components := SpliceInsert(components, i, Unescape(c, delimiter));
      name := Join(components, [delimiter]);
      r := Pass;
    }

    method Append(c: string)
      modifies this
      ensures name == old(name) + [delimiter] + Unescape(c, delimiter)
    {
      name := name + [delimiter] + Unescape(c, delimiter);
    }

    method Remove(i: int) returns (r: Outcome)
      modifies this
      ensures !(0 <= i < |SplitRaw(old(name), delimiter)|) ==> r == Fail(PlainError) && name == old(name)
      ensures 0 <= i < |SplitRaw(old(name), delimiter)| ==>
        var ps := SplitRaw(old(name), delimiter);
        r == Pass && name == Join(ps[..i] + ps[i + 1..], [delimiter])
    {
      var components := SplitRaw(name, delimiter);
      if !(0 <= i < |components|) {
        return Fail(PlainError);
      }
      components := SpliceRemove(components, i);
      name := Join(components, [delimiter]);
      r := Pass;
    }

    /** `concat(other)`: `append` of every translated component of the other name. */
    method Concat(other: AbstractNameB04.Snapshot)
      modifies this
      ensures name == Appended(old(name), UnescapeAll(AbstractNameB04.TranslateAll(other, delimiter), delimiter), delimiter)
    {
      var items := AbstractNameB04.TranslateAll(other, delimiter);
      ghost var us := UnescapeAll(items, delimiter);
      ghost var start := name;
      ghost var done: seq<string> := [];
      var i := 0;
      while i < |items|
        invariant 0 <= i <= |items|
        invariant done == us[..i]
        invariant name == Appended(start, done, delimiter)
      {
        ghost var u := Unescape(items[i], delimiter);
        Append(items[i]);
        AppendedSnoc(start, done, u, delimiter);
        assert us[..i + 1] == us[..i] + [u];
        done := done + [u];
        i := i + 1;
      }
      assert us[..i] == us;
    }
  }

  // ---------------------------------------------------------------------------------------
  // properties
  // ---------------------------------------------------------------------------------------

  /** The components joined by the delimiter give the stored string back. */
  lemma ComponentsJoinToName(name: string, d: char)
    ensures Join(ViewOf(name, d).components, [d]) == name
  {
    JoinSplitRaw(name, d);
  }

  /** The constructor loses the escaping of its input: for a backslash-free `u`, the name built
      from `escape(u)` has the pieces of `u` split at every delimiter, so an escaped delimiter
      becomes a separator. */
  lemma ConstructorDropsEscapes(u: string, d: char)
    requires d != Esc && Esc !in u
    ensures ViewOf(Unescape(Escape(u, d), d), d).components == SplitRaw(u, d)
  {
    BackslashFreeHasNoEscapedDelimiter(u, d);
    UnescapeEscape(u, d);
  }

  /** `setComponent(i, c)` replaces piece i and nothing else, when `unescape(c)` holds no
      delimiter. */
  lemma SetComponentKeepsComponents(name: string, i: nat, u: string, d: char)
    requires i < |SplitRaw(name, d)| && d !in u
    ensures SplitRaw(Join(SplitRaw(name, d)[i := u], [d]), d) == SplitRaw(name, d)[i := u]
  {
    SplitRawJoin(SplitRaw(name, d)[i := u], d);
  }

  /** `insert(i, c)` adds one piece at i, when `unescape(c)` holds no delimiter. */
  lemma InsertKeepsComponents(name: string, i: nat, u: string, d: char)
    requires i < |SplitRaw(name, d)| && d !in u
    ensures var ps := SplitRaw(name, d);
      SplitRaw(Join(ps[..i] + [u] + ps[i..], [d]), d) == ps[..i] + [u] + ps[i..]
  {
    var ps := SplitRaw(name, d);
    var qs := ps[..i] + [u] + ps[i..];
    assert forall k :: 0 <= k < |qs| ==> qs[k] == u || qs[k] in ps;
    SplitRawJoin(qs, d);
  }

  /** `append(c)` adds one piece at the end, when `unescape(c)` holds no delimiter. */
  lemma AppendKeepsComponents(name: string, u: string, d: char)
    requires d !in u
    ensures SplitRaw(name + [d] + u, d) == SplitRaw(name, d) + [u]
  {
    var ps := SplitRaw(name, d);
    JoinSplitRaw(name, d);
    JoinSnoc(ps, u, [d]);
    SplitRawJoin(ps + [u], d);
  }

  /** `remove(i)` drops piece i, as long as another piece is left: removing the only piece
      leaves the empty string, which still reads as one (empty) piece. */
  lemma RemoveKeepsComponents(name: string, i: nat, d: char)
    requires i < |SplitRaw(name, d)| && |SplitRaw(name, d)| >= 2
    ensures var ps := SplitRaw(name, d);
      SplitRaw(Join(ps[..i] + ps[i + 1..], [d]), d) == ps[..i] + ps[i + 1..]
  {
    var ps := SplitRaw(name, d);
    var qs := ps[..i] + ps[i + 1..];
    assert forall k :: 0 <= k < |qs| ==> qs[k] in ps;
    SplitRawJoin(qs, d);
  }

  /** Removing the only piece: the name is empty, and still has one component. */
  lemma RemoveLastLeavesOneComponent(name: string, d: char)
    requires |SplitRaw(name, d)| == 1
    ensures var ps := SplitRaw(name, d);
      Join(ps[..0] + ps[1..], [d]) == [] && |SplitRaw([], d)| == 1
  {
  }

  /** `concat(other)` adds the other name's components, in order, when their translations
      unescape to strings without the own delimiter. */
  lemma {:induction false} ConcatKeepsComponents(name: string, us: seq<string>, d: char)
    requires forall k :: 0 <= k < |us| ==> d !in us[k]
    ensures SplitRaw(Appended(name, us, d), d) == SplitRaw(name, d) + us
    decreases |us|
  {
    if us == [] {
      assert SplitRaw(name, d) + [] == SplitRaw(name, d);
    } else {
      var init := Init(us);
      var last := us[|us| - 1];
      ConcatKeepsComponents(name, init, d);
      AppendKeepsComponents(Appended(name, init, d), last, d);
      assert us == init + [last];
    }
  }
}
