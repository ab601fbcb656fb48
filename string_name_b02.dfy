/** The string-backed name of the second iteration (src/adap-b02/names/StringName.ts). There is
    no base class yet: the constructor, `asString` and `asDataString` scan the stored string
    character by character, while the component operations split it at every occurrence of the
    delimiter, escaped or not. */
module StringNameB02 {
  import opened Common
  import opened Escaping

  /** What `asString(sep)` emits for the rest of a string: a backslash emits the character after
      it (which is then handled again on its own turn), a delimiter emits `sep`, any other
      character itself. */
  function ScanAsString(s: string, d: char, sep: string): string {
    if s == [] then []
    else
      (if s[0] == Esc then (if |s| > 1 then [s[1]] else [])
       else if s[0] == d then sep
       else [s[0]])
      + ScanAsString(s[1..], d, sep)
  }

  /** What `asString(sep)` emits for the character at position i. */
  function EmittedAt(s: string, i: nat, d: char, sep: string): string
    requires i < |s|
  {
    if s[i] == Esc then (if i + 1 < |s| then [s[i + 1]] else [])
    else if s[i] == d then sep
    else [s[i]]
  }

  lemma ScanAsStringStep(s: string, i: nat, d: char, sep: string)
    requires i < |s|
    ensures ScanAsString(s[i..], d, sep) == EmittedAt(s, i, d, sep) + ScanAsString(s[i + 1..], d, sep)
  {
    assert s[i..][1..] == s[i + 1..];
  }

  /** What `asDataString()` emits for the rest of a string: every delimiter not preceded by a
      backslash becomes '.', every other character is copied. */
  function ScanDataString(s: string, d: char, afterEsc: bool): (r: string)
    ensures |r| == |s|
  {
    if s == [] then []
    else [if s[0] == d && !afterEsc then DefaultDelimiter else s[0]] + ScanDataString(s[1..], d, s[0] == Esc)
  }

  lemma ScanDataStringStep(s: string, i: nat, d: char)
    requires i < |s|
    ensures ScanDataString(s[i..], d, i > 0 && s[i - 1] == Esc)
      == [if s[i] == d && !(i > 0 && s[i - 1] == Esc) then DefaultDelimiter else s[i]]
         + ScanDataString(s[i + 1..], d, s[i] == Esc)
  {
    assert s[i..][1..] == s[i + 1..];
  }

  /** What one `append(c)` does to the string: the delimiter only goes in front of `c` when the
      string is not empty. */
  function AppendOnce(name: string, c: string, d: char): string {
    name + (if name == [] then [] else [d]) + c
  }

  /** The string after `append` of each item in turn. */
  function AppendEach(name: string, items: seq<string>, d: char): string {
    if items == [] then name else AppendOnce(AppendEach(name, Init(items), d), items[|items| - 1], d)
  }

  class StringName {
    const delimiter: char
    var name: string
    var length: int

    /** `new StringName(other, delimiter)`: one component, plus one for every delimiter at the
        start or after a character other than a backslash. */
    constructor(other: string, delimiter: char)
      ensures this.delimiter == delimiter && name == other
      ensures length == 1 + CountAfter(other, delimiter, false)
      ensures length == |Split(other, delimiter)|
    {
      this.delimiter := delimiter;
      name := other;
      length := 1;
      new;
      for index := 0 to |other|
        invariant name == other
        invariant length + CountAfter(other[index..], delimiter, index > 0 && other[index - 1] == Esc)
          == 1 + CountAfter(other, delimiter, false)
      {
        assert other[index..][1..] == other[index + 1..];
        if other[index] == delimiter && (index == 0 || other[index - 1] != Esc) {
          length := length + 1;
        }
      }
      SplitCount(other, delimiter);
    }

    /** `asString(sep)`: the character scan. */
    method AsString(sep: string) returns (result: string)
      ensures result == ScanAsString(name, delimiter, sep)
    {
      var s := name;
      result := [];
      for index := 0 to |s|
        invariant result + ScanAsString(s[index..], delimiter, sep) == ScanAsString(s, delimiter, sep)
      {
        var emitted: string := [];
        if s[index] == Esc {
          if index + 1 < |s| {
            emitted := [s[index + 1]];
          }
        } else if s[index] == delimiter {
          emitted := sep;
        } else {
          emitted := [s[index]];
        }
        assert emitted == EmittedAt(s, index, delimiter, sep);
        ScanAsStringStep(s, index, delimiter, sep);
        AppendAssoc(result, emitted, ScanAsString(s[index + 1..], delimiter, sep));
        result := result + emitted;
      }
    }

    /** `asDataString()`: the character scan that turns bare delimiters into '.'. */
    method AsDataString() returns (result: string)
      ensures result == ScanDataString(name, delimiter, false)
    {
      var s := name;
      result := [];
      for index := 0 to |s|
        invariant result + ScanDataString(s[index..], delimiter, index > 0 && s[index - 1] == Esc)
          == ScanDataString(s, delimiter, false)
      {
        var emitted: char;
        if s[index] == delimiter && (index == 0 || s[index - 1] != Esc) {
          emitted := DefaultDelimiter;
        } else {
          emitted := s[index];
        }
        ScanDataStringStep(s, index, delimiter);
        AppendAssoc(result, [emitted], ScanDataString(s[index + 1..], delimiter, s[index] == Esc));
        result := result + [emitted];
      }
    }

    /** `isEmpty()` answers whether the string has at least one character. */
    method IsEmpty() returns (r: bool)
      ensures r <==> |name| >= 1
    {
      r := |name| >= 1;
    }

    /** `getNoComponents()`: the stored count, which the operations below can leave out of step
        with the pieces (even negative after `remove` on an empty count). */
    function GetNoComponents(): (r: int)
      reads this
      ensures r == length
    {
      length
    }

    /** `getComponent(x)`: piece x of the split at every delimiter, or `undefined` (None). */
    function GetComponent(x: nat): (r: Option<string>)
      reads this
      ensures r.Some? <==> x < |SplitRaw(name, delimiter)|
      ensures r.Some? ==> r.value == SplitRaw(name, delimiter)[x] && delimiter !in r.value
    {
      var pieces := SplitRaw(name, delimiter);
      if x < |pieces| then Some(pieces[x]) else None
    }

    method SetComponent(n: nat, c: string)
      modifies this
      ensures name == Join(Assign(SplitRaw(old(name), delimiter), n, c, []), [delimiter])
      ensures length == old(length)
    {
      var pieces := SplitRaw(name, delimiter);
      pieces := Assign(pieces, n, c, []);
      name := Join(pieces, [delimiter]);
    }

    method Insert(n: nat, c: string)
      modifies this
      ensures name == Join(SpliceInsert(SplitRaw(old(name), delimiter), n, c), [delimiter])
      ensures length == old(length) + 1
    {
      var pieces := SplitRaw(name, delimiter);
      pieces := SpliceInsert(pieces, n, c);
      name := Join(pieces, [delimiter]);
      length := length + 1;
    }

    method Append(c: string)
      modifies this
      ensures name == AppendOnce(old(name), c, delimiter)
      ensures length == old(length) + 1
    {
      name := name + (if name != [] then [delimiter] else []) + c;
      length := length + 1;
    }

    method Remove(n: nat)
      modifies this
      ensures name == Join(SpliceRemove(SplitRaw(old(name), delimiter), n), [delimiter])
      ensures length == old(length) - 1
    {
      var pieces := SplitRaw(name, delimiter);
      pieces := SpliceRemove(pieces, n);
      name := Join(pieces, [delimiter]);
      length := length - 1;
    }

    /** What `getComponent` returns for every index below `getNoComponents()`. */
    function Reads(): (r: seq<Option<string>>)
      reads this
      ensures |r| == (if length < 0 then 0 else length)
      ensures forall i :: 0 <= i < |r| ==> r[i] == GetComponent(i)
    {
      var size := if length < 0 then 0 else length;
      var pieces := SplitRaw(name, delimiter);
      seq(size, i requires 0 <= i < size => if i < |pieces| then Some(pieces[i]) else None)
    }

    /** `concat(other)`: nothing when the delimiters differ, else `append` of every value
        `other.getComponent(index)` returns, as it is; `+` writes `undefined` as the text
        "undefined". The other name is given by its delimiter and those values. */
    method Concat(otherDelimiter: char, others: seq<Option<string>>)
      modifies this
      ensures otherDelimiter != delimiter ==> name == old(name) && length == old(length)
      ensures otherDelimiter == delimiter ==>
        name == AppendEach(old(name), Texts(others), delimiter)
        && length == old(length) + |others|
    {
      if delimiter != otherDelimiter {
        return;
      }
      ghost var start := name;
      ghost var texts := Texts(others);
      for index := 0 to |others|
        invariant name == AppendEach(start, texts[..index], delimiter)
        invariant length == old(length) + index
      {
        assert Init(texts[..index + 1]) == texts[..index];
        Append(Text(others[index]));
      }
      assert texts[..|others|] == texts;
    }
  }

  // ---------------------------------------------------------------------------------------
  // properties
  // ---------------------------------------------------------------------------------------

  /** On a string without backslashes, `asString(sep)` puts `sep` in place of every delimiter:
      it joins the pieces between delimiters with `sep`. */
  lemma {:induction false} AsStringReplacesDelimiters(s: string, d: char, sep: string)
    requires Esc !in s
    ensures ScanAsString(s, d, sep) == Join(SplitRaw(s, d), sep)
    decreases |s|
  {
    if s != [] {
      assert Esc !in s[1..] by {
        forall k | 0 <= k < |s[1..]| ensures s[1..][k] != Esc { assert s[1..][k] == s[k + 1]; }
      }
      AsStringReplacesDelimiters(s[1..], d, sep);
      var rest := SplitRaw(s[1..], d);
      assert s[0] != Esc;
      if s[0] == d {
        assert ScanAsString(s, d, sep) == sep + ScanAsString(s[1..], d, sep);
        assert SplitRaw(s, d) == [[]] + rest;
        JoinCons([], rest, sep);
        assert [] + sep == sep;
      } else {
        assert ScanAsString(s, d, sep) == [s[0]] + ScanAsString(s[1..], d, sep);
        assert SplitRaw(s, d) == [[s[0]] + rest[0]] + rest[1..];
        JoinGlueHead([s[0]], rest, sep);
      }
    }
  }

  /** A backslash followed by an ordinary character emits that character twice. */
  lemma AsStringEmitsEscapedCharacterTwice(c: char, d: char, sep: string)
    requires c != Esc && c != d
    ensures ScanAsString([Esc, c], d, sep) == [c, c]
  {
    assert [Esc, c][1..] == [c];
    assert [c][1..] == [];
    assert ScanAsString([c], d, sep) == [c] + ScanAsString([], d, sep);
  }

  /** `asDataString()` joins the pieces of the look-behind split with '.': it reads the
      components exactly as the constructor counts them. */
  lemma {:induction false} DataStringJoinsPieces(s: string, d: char, afterEsc: bool)
    ensures ScanDataString(s, d, afterEsc) == Join(SplitAfter(s, d, afterEsc), [DefaultDelimiter])
    decreases |s|
  {
    if s != [] {
      DataStringJoinsPieces(s[1..], d, s[0] == Esc);
      var rest := SplitAfter(s[1..], d, s[0] == Esc);
      if s[0] == d && !afterEsc {
        JoinCons([], rest, [DefaultDelimiter]);
      } else {
        JoinGlueHead([s[0]], rest, [DefaultDelimiter]);
      }
    }
  }

  /** The count and the component access disagree on an escaped delimiter: `a\.b` counts as one
      component but splits into the two pieces `a\` and `b`. */
  lemma EscapedDelimiterCountsOnceSplitsTwice()
    ensures 1 + CountAfter("a\\.b", '.', false) == 1
    ensures SplitRaw("a\\.b", '.') == ["a\\", "b"]
  {
    assert "a\\.b"[1..] == "\\.b";
    assert "\\.b"[1..] == ".b";
    assert ".b"[1..] == "b";
    assert "b"[1..] == [];
    var r0 := SplitRaw([], '.');
    assert r0 == [[]];
    assert SplitRaw("b", '.') == [['b'] + r0[0]] + r0[1..];
    assert r0[0] == [] && r0[1..] == [];
    assert ['b'] + r0[0] == "b";
    assert SplitRaw("b", '.') == ["b"];
    assert SplitRaw(".b", '.') == [[]] + SplitRaw("b", '.');
    var r2 := SplitRaw(".b", '.');
    assert r2 == [[], "b"];
    assert SplitRaw("\\.b", '.') == [['\\'] + r2[0]] + r2[1..];
    assert r2[0] == [] && r2[1..] == ["b"];
    assert ['\\'] + r2[0] == "\\";
    assert SplitRaw("\\.b", '.') == ["\\", "b"];
    var r3 := SplitRaw("\\.b", '.');
    assert SplitRaw("a\\.b", '.') == [['a'] + r3[0]] + r3[1..];
    assert ['a'] + r3[0] == "a\\" && r3[1..] == ["b"];
  }

  /** `append` to the empty string adds no delimiter but still counts one more component: the
      name built from "" then holds one piece and counts two. */
  lemma AppendToEmptyOverCounts(c: string, d: char)
    requires d !in c
    ensures |Split([], d)| == 1
    ensures AppendOnce([], c, d) == c && |SplitRaw(c, d)| == 1
  {
    SplitRawJoin([c], d);
  }

  /** The name that count leaves behind reads `undefined` at index 1, and `concat` of it appends
      the text "undefined". */
  lemma OverCountedNameConcatsUndefined(n: StringName, m: StringName)
    requires n.name == "x" && n.length == 2 && n.delimiter == '.'
    requires m.name == "y" && m.delimiter == '.'
    ensures n.Reads() == [Some("x"), None]
    ensures AppendEach(m.name, Texts(n.Reads()), m.delimiter) == "y.x.undefined"
  {
    assert SplitRaw("x", '.') == ["x"] by {
      SplitRawJoin(["x"], '.');
    }
    assert n.Reads() == [Some("x"), None];
    assert Texts(n.Reads()) == ["x", "undefined"];
    assert Init(["x", "undefined"]) == ["x"];
    assert Init(["x"]) == [];
    assert AppendEach("y", ["x"], '.') == AppendOnce("y", "x", '.') == "y.x";
    assert AppendOnce("y.x", "undefined", '.') == "y.x.undefined";
  }
}
