/** The escape codec shared by every iteration of the names: `escape`, `unescape`, `isEscaped`,
    the look-behind `splitString`, the plain `split` on a delimiter character, and `join`.
    The escape character is a backslash, the default delimiter a period. The source builds
    regular expressions from the delimiter; here each one is written out character by character. */
module Escaping {

  const Esc: char := '\\'
  const DefaultDelimiter: char := '.'

  /** A delimiter that the source's regular expressions read as the literal character itself:
      not the escape character, and not a letter or digit (`\d`, `\w`, `\1`, ... are classes
      or back-references in a regular expression). */
  predicate SupportedDelimiter(d: char) {
    d != Esc && !('a' <= d <= 'z' || 'A' <= d <= 'Z' || '0' <= d <= '9')
  }

  // ---------------------------------------------------------------------------------------
  // escape / unescape
  // ---------------------------------------------------------------------------------------

  /** Escape the rest of a string; `afterEsc` says whether the input character just before it
      was a backslash (the look-behind of the source's pattern looks at the input, not the output). */
  function EscapeAfter(s: string, d: char, afterEsc: bool): (r: string)
    ensures |r| >= |s|
    ensures d !in s ==> r == s
  {
    if s == [] then []
    else (if s[0] == d && !afterEsc then [Esc, d] else [s[0]]) + EscapeAfter(s[1..], d, s[0] == Esc)
  }

  /** `escape(s, d)`: a backslash goes in front of every `d` that is not already preceded by one. */
  function Escape(s: string, d: char): (r: string)
    ensures |r| >= |s|
    ensures d !in s ==> r == s
  {
    EscapeAfter(s, d, false)
  }

  /** `unescape(s, d)`: every backslash-delimiter pair becomes the bare delimiter; the pairs are
      found left to right without overlap. */
  function Unescape(s: string, d: char): (r: string)
    ensures |r| <= |s|
    ensures Esc !in s ==> r == s
  {
    if |s| >= 2 && s[0] == Esc && s[1] == d then [d] + Unescape(s[2..], d)
    else if s == [] then []
    else [s[0]] + Unescape(s[1..], d)
  }

  /** `s.replaceAll(a + b, "")` for a two-character pattern: occurrences are found left to right
      without overlap, and what the removal brings together is not searched again. */
  function DropPairs(s: string, a: char, b: char): (r: string)
    ensures |r| <= |s|
  {
    if |s| >= 2 && s[0] == a && s[1] == b then DropPairs(s[2..], a, b)
    else if s == [] then []
    else [s[0]] + DropPairs(s[1..], a, b)
  }

  /** `isEscaped(s, d)`: delete the doubled backslashes, then the escaped delimiters, and check
      that neither a backslash nor a delimiter is left. */
  function IsEscaped(s: string, d: char): (r: bool)
    ensures Esc !in s ==> (r <==> d !in s)
    ensures d != Esc && |s| >= 1 && s[0] == d ==> !r
  {
    DropPairsWithout(s, Esc, Esc);
    DropPairsWithout(s, Esc, d);
    var masked := DropPairs(DropPairs(s, Esc, Esc), Esc, d);
    Esc !in masked && d !in masked
  }

  /** A string without the pattern's first character has nothing to delete. */
  lemma DropPairsWithout(s: string, a: char, b: char)
    ensures a !in s ==> DropPairs(s, a, b) == s
  {
  }

  /** The grammar of a well-escaped component: a sequence of the tokens `\\`, `\d` and single
      characters that are neither the backslash nor the delimiter. */
  predicate WellEscaped(s: string, d: char)
    decreases |s|
  {
    if s == [] then true
    else if s[0] == Esc then |s| >= 2 && (s[1] == Esc || s[1] == d) && WellEscaped(s[2..], d)
    else s[0] != d && WellEscaped(s[1..], d)
  }

  /** Tokens `\d` and single characters other than the backslash and the delimiter: what is left
      of a well-escaped string once its doubled backslashes are gone. */
  predicate OnlyEscapedDelimiters(t: string, d: char)
    decreases |t|
  {
    if t == [] then true
    else if t[0] == Esc then |t| >= 2 && t[1] == d && OnlyEscapedDelimiters(t[2..], d)
    else t[0] != d && OnlyEscapedDelimiters(t[1..], d)
  }

  /** No backslash stands immediately before a delimiter. */
  predicate NoEscapedDelimiter(s: string, d: char) {
    forall i :: 0 <= i < |s| - 1 && s[i] == Esc ==> s[i + 1] != d
  }

  lemma {:induction false} DropEscapedDelimiters(t: string, d: char)
    requires d != Esc
    ensures (var m := DropPairs(t, Esc, d); Esc !in m && d !in m) <==> OnlyEscapedDelimiters(t, d)
    decreases |t|
  {
    if |t| >= 2 && t[0] == Esc && t[1] == d {
      DropEscapedDelimiters(t[2..], d);
    } else if t != [] {
      DropEscapedDelimiters(t[1..], d);
    }
  }

  lemma {:induction false} DropDoubledEscapes(s: string, d: char)
    requires d != Esc
    ensures OnlyEscapedDelimiters(DropPairs(s, Esc, Esc), d) <==> WellEscaped(s, d)
    decreases |s|
  {
    if |s| >= 2 && s[0] == Esc && s[1] == Esc {
      DropDoubledEscapes(s[2..], d);
    } else if |s| >= 2 && s[0] == Esc {
      var rest := DropPairs(s[2..], Esc, Esc);
      assert DropPairs(s[1..], Esc, Esc) == [s[1]] + rest;
      assert DropPairs(s, Esc, Esc) == [Esc, s[1]] + rest;
      assert ([Esc, s[1]] + rest)[2..] == rest;
      DropDoubledEscapes(s[2..], d);
    } else if s != [] {
      DropDoubledEscapes(s[1..], d);
    }
  }

  /** The source's check `isEscaped` accepts exactly the strings of the token grammar. */
  lemma IsEscapedIffWellEscaped(s: string, d: char)
    requires d != Esc
    ensures IsEscaped(s, d) <==> WellEscaped(s, d)
  {
    DropEscapedDelimiters(DropPairs(s, Esc, Esc), d);
    DropDoubledEscapes(s, d);
  }

  lemma {:induction false} EscapeAfterWellEscaped(s: string, d: char)
    requires d != Esc && Esc !in s
    ensures WellEscaped(EscapeAfter(s, d, false), d)
    decreases |s|
  {
    if s != [] {
      EscapeAfterWellEscaped(s[1..], d);
      var rest := EscapeAfter(s[1..], d, false);
      if s[0] == d {
        assert EscapeAfter(s, d, false) == [Esc, d] + rest;
        assert ([Esc, d] + rest)[2..] == rest;
      } else {
        assert EscapeAfter(s, d, false) == [s[0]] + rest;
        assert ([s[0]] + rest)[1..] == rest;
      }
    }
  }

  /** `escape` of a backslash-free string passes `isEscaped`. */
  lemma EscapeIsEscaped(s: string, d: char)
    requires d != Esc && Esc !in s
    ensures WellEscaped(Escape(s, d), d) && IsEscaped(Escape(s, d), d)
  {
    EscapeAfterWellEscaped(s, d);
    IsEscapedIffWellEscaped(Escape(s, d), d);
  }

  lemma {:induction false} EscapeAfterUnchanged(s: string, d: char, afterEsc: bool)
    requires d != Esc && WellEscaped(s, d)
    ensures EscapeAfter(s, d, afterEsc) == s
    decreases |s|
  {
    if s != [] {
      if s[0] == Esc {
        EscapeAfterUnchanged(s[2..], d, s[1] == Esc);
        assert EscapeAfter(s[1..], d, true) == [s[1]] + EscapeAfter(s[2..], d, s[1] == Esc);
        assert s == [s[0], s[1]] + s[2..];
      } else {
        EscapeAfterUnchanged(s[1..], d, false);
        assert s == [s[0]] + s[1..];
      }
    }
  }

  /** `escape` never escapes twice: an already escaped component comes back unchanged. */
  lemma EscapeOfEscaped(s: string, d: char)
    requires d != Esc && IsEscaped(s, d)
    ensures Escape(s, d) == s
  {
    IsEscapedIffWellEscaped(s, d);
    EscapeAfterUnchanged(s, d, false);
  }

  lemma {:induction false} UnescapeEscapeAfter(s: string, d: char, afterEsc: bool)
    requires d != Esc && NoEscapedDelimiter(s, d)
    requires afterEsc && s != [] ==> s[0] != d
    ensures Unescape(EscapeAfter(s, d, afterEsc), d) == s
    decreases |s|
  {
    if s != [] {
      var rest := EscapeAfter(s[1..], d, s[0] == Esc);
      assert NoEscapedDelimiter(s[1..], d) by {
        forall i | 0 <= i < |s[1..]| - 1 && s[1..][i] == Esc
          ensures s[1..][i + 1] != d
        {
          assert s[1..][i] == s[i + 1] && s[1..][i + 1] == s[i + 2];
        }
      }
      UnescapeEscapeAfter(s[1..], d, s[0] == Esc);
      assert Unescape(rest, d) == s[1..];
      var e := EscapeAfter(s, d, afterEsc);
      if s[0] == d {
        assert e == [Esc, d] + rest;
        assert e[2..] == rest;
        assert Unescape(e, d) == [d] + Unescape(rest, d);
      } else if s[0] == Esc {
        assert e == [Esc] + rest;
        if |s| >= 2 {
          assert rest == [s[1]] + EscapeAfter(s[2..], d, s[1] == Esc);
          assert s[1] != d;
          assert e[1] != d;
        }
        assert e[1..] == rest;
        assert Unescape(e, d) == [Esc] + Unescape(rest, d);
      } else {
        assert e == [s[0]] + rest;
        assert e[1..] == rest;
        assert Unescape(e, d) == [s[0]] + Unescape(rest, d);
      }
      assert [s[0]] + s[1..] == s;
    }
  }

  /** `unescape` undoes `escape` for every string in which no backslash already stands before a
      delimiter (in particular for every backslash-free string). */
  lemma UnescapeEscape(s: string, d: char)
    requires d != Esc && NoEscapedDelimiter(s, d)
    ensures Unescape(Escape(s, d), d) == s
  {
    UnescapeEscapeAfter(s, d, false);
  }

  /** A string without a backslash has none before a delimiter either. */
  lemma BackslashFreeHasNoEscapedDelimiter(s: string, d: char)
    requires Esc !in s
    ensures NoEscapedDelimiter(s, d)
  {
  }

  // ---------------------------------------------------------------------------------------
  // join and the two splits
  // ---------------------------------------------------------------------------------------

  /** `parts.join(sep)`: no separator for zero or one part. */
  function Join(parts: seq<string>, sep: string): (r: string)
    ensures |parts| == 0 ==> r == []
    ensures |parts| == 1 ==> r == parts[0]
    ensures |parts| >= 1 ==> |r| >= |parts[0]| && r[..|parts[0]|] == parts[0]
  {
    if |parts| == 0 then []
    else if |parts| == 1 then parts[0]
    else parts[0] + sep + Join(parts[1..], sep)
  }

  lemma JoinCons(x: string, rest: seq<string>, sep: string)
    requires |rest| >= 1
    ensures Join([x] + rest, sep) == x + sep + Join(rest, sep)
  {
    assert ([x] + rest)[1..] == rest;
  }

  lemma JoinGlueHead(x: string, rest: seq<string>, sep: string)
    requires |rest| >= 1
    ensures Join([x + rest[0]] + rest[1..], sep) == x + Join(rest, sep)
  {
    if |rest| >= 2 {
      JoinCons(x + rest[0], rest[1..], sep);
      JoinCons(rest[0], rest[1..], sep);
      assert [rest[0]] + rest[1..] == rest;
    }
  }

  /** Appending one part adds the separator and the part. */
  lemma JoinSnoc(parts: seq<string>, x: string, sep: string)
    requires |parts| >= 1
    ensures Join(parts + [x], sep) == Join(parts, sep) + sep + x
    decreases |parts|
  {
    if |parts| == 1 {
      assert parts + [x] == [parts[0]] + [x];
    } else {
      assert parts + [x] == [parts[0]] + (parts[1..] + [x]);
      JoinCons(parts[0], parts[1..] + [x], sep);
      JoinSnoc(parts[1..], x, sep);
    }
  }

  /** All items but the last. */
  function Init(items: seq<string>): seq<string>
    requires items != []
  {
    items[..|items| - 1]
  }

  /** `name` after appending `items` one by one: each append adds the delimiter and the item. */
  function Appended(name: string, items: seq<string>, d: char): string {
    if items == [] then name
    else Appended(name, Init(items), d) + [d] + items[|items| - 1]
  }

  lemma AppendedSnoc(name: string, items: seq<string>, t: string, d: char)
    ensures Appended(name, items + [t], d) == Appended(name, items, d) + [d] + t
    ensures Init(items + [t]) == items
  {
    assert (items + [t])[..|items|] == items;
  }

  /** The source's `splitString`: split at every `d` that is not preceded by a backslash in the
      input; `afterEsc` says whether the character before the rest was a backslash. */
  function SplitAfter(s: string, d: char, afterEsc: bool): (r: seq<string>)
    ensures |r| >= 1
  {
    if s == [] then [[]]
    else if s[0] == d && !afterEsc then [[]] + SplitAfter(s[1..], d, s[0] == Esc)
    else
      var rest := SplitAfter(s[1..], d, s[0] == Esc);
      [[s[0]] + rest[0]] + rest[1..]
  }

  /** `str.split(/(?<!\\)d/)`: never empty, the empty string gives one empty piece. */
  function Split(s: string, d: char): (r: seq<string>)
    ensures |r| >= 1
    ensures s == [] ==> r == [[]]
  {
    SplitAfter(s, d, false)
  }

  /** The number of delimiters that are not preceded by a backslash. */
  function CountAfter(s: string, d: char, afterEsc: bool): nat
  {
    if s == [] then 0
    else (if s[0] == d && !afterEsc then 1 else 0) + CountAfter(s[1..], d, s[0] == Esc)
  }

  /** A piece with no delimiter that the look-behind split would cut at. */
  predicate NoBareDelimiter(p: string, d: char) {
    CountAfter(p, d, false) == 0
  }

  predicate EndsInEsc(p: string) {
    |p| > 0 && p[|p| - 1] == Esc
  }

  /** Pieces that the look-behind split gives back after they are joined: none holds a bare
      delimiter and none but the last ends in a backslash (which would hide the delimiter after it). */
  predicate Resplittable(ps: seq<string>, d: char) {
    && |ps| >= 1
    && (forall i :: 0 <= i < |ps| ==> NoBareDelimiter(ps[i], d))
    && (forall i :: 0 <= i < |ps| - 1 ==> !EndsInEsc(ps[i]))
  }

  lemma {:induction false} SplitAfterCount(s: string, d: char, afterEsc: bool)
    ensures |SplitAfter(s, d, afterEsc)| == 1 + CountAfter(s, d, afterEsc)
    decreases |s|
  {
    if s != [] {
      SplitAfterCount(s[1..], d, s[0] == Esc);
    }
  }

  /** The look-behind split has one piece more than there are unescaped delimiters. */
  lemma SplitCount(s: string, d: char)
    ensures |Split(s, d)| == 1 + CountAfter(s, d, false)
  {
    SplitAfterCount(s, d, false);
  }

  lemma {:induction false} JoinSplitAfter(s: string, d: char, afterEsc: bool)
    ensures Join(SplitAfter(s, d, afterEsc), [d]) == s
    decreases |s|
  {
    if s != [] {
      var rest := SplitAfter(s[1..], d, s[0] == Esc);
      JoinSplitAfter(s[1..], d, s[0] == Esc);
      if s[0] == d && !afterEsc {
        JoinCons([], rest, [d]);
        assert s == [d] + s[1..];
      } else {
        JoinGlueHead([s[0]], rest, [d]);
        assert s == [s[0]] + s[1..];
      }
    }
  }

  /** Splitting loses nothing: joining the pieces with the delimiter restores the string. */
  lemma JoinSplit(s: string, d: char)
    ensures Join(Split(s, d), [d]) == s
  {
    JoinSplitAfter(s, d, false);
  }

  /** What the pieces of a look-behind split look like: the first holds no delimiter the split
      would cut at (given what stood before it), the others no bare delimiter, none but the last
      ends in a backslash, and a leading empty piece means the input started with a cut. */
  predicate SplitShape(r: seq<string>, d: char, afterEsc: bool) {
    && |r| >= 1
    && CountAfter(r[0], d, afterEsc) == 0
    && (forall i :: 1 <= i < |r| ==> NoBareDelimiter(r[i], d))
    && (forall i :: 0 <= i < |r| - 1 ==> !EndsInEsc(r[i]))
    && (|r| > 1 && r[0] == [] ==> !afterEsc)
  }

  lemma {:induction false} SplitAfterShape(s: string, d: char, afterEsc: bool)
    requires d != Esc
    ensures SplitShape(SplitAfter(s, d, afterEsc), d, afterEsc)
    decreases |s|
  {
    if s != [] {
      var rest := SplitAfter(s[1..], d, s[0] == Esc);
      SplitAfterShape(s[1..], d, s[0] == Esc);
      if s[0] == d && !afterEsc {
        assert SplitAfter(s, d, afterEsc) == [[]] + rest;
        SplitShapeCut(rest, d);
      } else {
        assert SplitAfter(s, d, afterEsc) == [[s[0]] + rest[0]] + rest[1..];
        SplitShapeGlue(s[0], rest, d, afterEsc);
      }
    }
  }

  /** A cut at a bare delimiter puts an empty piece in front. */
  lemma SplitShapeCut(rest: seq<string>, d: char)
    requires d != Esc && SplitShape(rest, d, false)
    ensures SplitShape([[]] + rest, d, false)
  {
    var r := [[]] + rest;
    forall i | 1 <= i < |r| ensures NoBareDelimiter(r[i], d) {
      assert r[i] == rest[i - 1];
    }
    forall i | 0 <= i < |r| - 1 ensures !EndsInEsc(r[i]) {
      if i > 0 { assert r[i] == rest[i - 1]; }
    }
  }

  /** Any other character joins the first piece. */
  lemma SplitShapeGlue(c: char, rest: seq<string>, d: char, afterEsc: bool)
    requires d != Esc && !(c == d && !afterEsc) && SplitShape(rest, d, c == Esc)
    ensures SplitShape([[c] + rest[0]] + rest[1..], d, afterEsc)
  {
    var head := [c] + rest[0];
    var r := [head] + rest[1..];
    assert head[0] == c && head[1..] == rest[0];
    assert CountAfter(head, d, afterEsc) == 0;
    forall i | 1 <= i < |r| ensures NoBareDelimiter(r[i], d) {
      assert r[i] == rest[i];
    }
    forall i | 0 <= i < |r| - 1 ensures !EndsInEsc(r[i]) {
      if i > 0 {
        assert r[i] == rest[i];
      } else if rest[0] == [] {
        assert head == [c];
      } else {
        assert head[|head| - 1] == rest[0][|rest[0]| - 1];
      }
    }
  }

  /** Every result of the look-behind split is resplittable. */
  lemma SplitIsResplittable(s: string, d: char)
    requires d != Esc
    ensures Resplittable(Split(s, d), d)
  {
    SplitAfterShape(s, d, false);
  }

  lemma {:induction false} SplitAfterAppend(p: string, t: string, d: char, afterEsc: bool)
    requires CountAfter(p, d, afterEsc) == 0
    ensures var rest := SplitAfter(t, d, if p == [] then afterEsc else p[|p| - 1] == Esc);
      SplitAfter(p + t, d, afterEsc) == [p + rest[0]] + rest[1..]
    decreases |p|
  {
    if p == [] {
      assert p + t == t;
      var rest := SplitAfter(t, d, afterEsc);
      assert p + rest[0] == rest[0];
      assert [rest[0]] + rest[1..] == rest;
    } else {
      SplitAfterAppend(p[1..], t, d, p[0] == Esc);
      var flag := if p[1..] == [] then p[0] == Esc else p[1..][|p[1..]| - 1] == Esc;
      assert flag == (p[|p| - 1] == Esc);
      var rest := SplitAfter(t, d, flag);
      var inner := SplitAfter(p[1..] + t, d, p[0] == Esc);
      assert inner == [p[1..] + rest[0]] + rest[1..];
      assert (p + t)[0] == p[0] && (p + t)[1..] == p[1..] + t;
      assert !(p[0] == d && !afterEsc);
      assert SplitAfter(p + t, d, afterEsc) == [[p[0]] + inner[0]] + inner[1..];
      assert [p[0]] == p[..1];
      Regroup(p, 1, rest[0]);
    }
  }

  /** The invariant of the string-backed names: resplittable pieces come back from the
      look-behind split of their join. */
  lemma {:induction false} SplitJoin(ps: seq<string>, d: char)
    requires d != Esc && Resplittable(ps, d)
    ensures Split(Join(ps, [d]), d) == ps
    decreases |ps|
  {
    if |ps| == 1 {
      SplitAfterAppend(ps[0], [], d, false);
      assert ps[0] + [] == ps[0];
    } else {
      var tail := ps[1..];
      assert Resplittable(tail, d) by {
        forall i | 0 <= i < |tail| ensures NoBareDelimiter(tail[i], d) { assert tail[i] == ps[i + 1]; }
        forall i | 0 <= i < |tail| - 1 ensures !EndsInEsc(tail[i]) { assert tail[i] == ps[i + 1]; }
      }
      SplitJoin(tail, d);
      assert NoBareDelimiter(ps[0], d) && !EndsInEsc(ps[0]);
      SplitAfterAppend(ps[0], [d] + Join(tail, [d]), d, false);
      assert ([d] + Join(tail, [d]))[1..] == Join(tail, [d]);
      assert ps[0] + [d] + Join(tail, [d]) == ps[0] + ([d] + Join(tail, [d]));
      assert ps[0] + [] == ps[0];
      assert ps == [ps[0]] + tail;
    }
  }

  lemma {:induction false} WellEscapedHasNoBareDelimiter(p: string, d: char, afterEsc: bool)
    requires d != Esc && WellEscaped(p, d)
    ensures CountAfter(p, d, afterEsc) == 0
    decreases |p|
  {
    if p != [] {
      if p[0] == Esc {
        WellEscapedHasNoBareDelimiter(p[2..], d, p[1] == Esc);
        assert p[1..][1..] == p[2..];
      } else {
        WellEscapedHasNoBareDelimiter(p[1..], d, false);
      }
    }
  }

  /** `str.split(d)` with a one-character string separator: every occurrence cuts. */
  function SplitRaw(s: string, d: char): (r: seq<string>)
    ensures |r| >= 1
    ensures forall i :: 0 <= i < |r| ==> d !in r[i]
  {
    if s == [] then [[]]
    else if s[0] == d then [[]] + SplitRaw(s[1..], d)
    else
      var rest := SplitRaw(s[1..], d);
      [[s[0]] + rest[0]] + rest[1..]
  }

  /** The plain split restores any parts that hold no delimiter. */
  lemma {:induction false} SplitRawJoin(ps: seq<string>, d: char)
    requires |ps| >= 1 && forall i :: 0 <= i < |ps| ==> d !in ps[i]
    ensures SplitRaw(Join(ps, [d]), d) == ps
    decreases |ps|, |ps[0]|
  {
    var p := ps[0];
    if p == [] {
      if |ps| > 1 {
        SplitRawJoin(ps[1..], d);
        assert Join(ps, [d]) == [d] + Join(ps[1..], [d]);
      }
    } else {
      var ps' := [p[1..]] + ps[1..];
      assert forall i :: 0 <= i < |ps'| ==> d !in ps'[i] by {
        forall i | 0 <= i < |ps'| ensures d !in ps'[i] {
          if i == 0 { assert forall x :: x in p[1..] ==> x in p; } else { assert ps'[i] == ps[i]; }
        }
      }
      SplitRawJoin(ps', d);
      if |ps| == 1 {
        assert Join(ps, [d]) == [p[0]] + Join(ps', [d]);
      } else {
        JoinCons(p[1..], ps[1..], [d]);
        assert ps'[1..] == ps[1..];
        assert Join(ps, [d]) == [p[0]] + Join(ps', [d]);
      }
      assert p == [p[0]] + p[1..];
      assert ps == [[p[0]] + ps'[0]] + ps'[1..];
    }
  }

  /** Joining the plain pieces with the delimiter restores the string. */
  lemma {:induction false} JoinSplitRaw(s: string, d: char)
    ensures Join(SplitRaw(s, d), [d]) == s
    decreases |s|
  {
    if s != [] {
      var rest := SplitRaw(s[1..], d);
      JoinSplitRaw(s[1..], d);
      if s[0] == d {
        JoinCons([], rest, [d]);
      } else {
        JoinGlueHead([s[0]], rest, [d]);
      }
      assert s == [s[0]] + s[1..];
    }
  }

  // ---------------------------------------------------------------------------------------
  // a token-aware split (the correction of the look-behind split)
  // ---------------------------------------------------------------------------------------

  /** A split that reads a backslash and the character after it as one token, so that an
      escaped backslash at the end of a component cannot hide the delimiter that follows it. */
  function SplitTokens(s: string, d: char): (r: seq<string>)
    ensures |r| >= 1
    decreases |s|
  {
    if s == [] then [[]]
    else if s[0] == Esc && |s| >= 2 then
      var rest := SplitTokens(s[2..], d);
      [[s[0], s[1]] + rest[0]] + rest[1..]
    else if s[0] == d then [[]] + SplitTokens(s[1..], d)
    else
      var rest := SplitTokens(s[1..], d);
      [[s[0]] + rest[0]] + rest[1..]
  }

  lemma {:induction false} SplitTokensAppend(p: string, t: string, d: char)
    requires d != Esc && WellEscaped(p, d)
    ensures var rest := SplitTokens(t, d);
      SplitTokens(p + t, d) == [p + rest[0]] + rest[1..]
    decreases |p|
  {
    var rest := SplitTokens(t, d);
    if p == [] {
      assert p + t == t;
      assert p + rest[0] == rest[0];
      assert [rest[0]] + rest[1..] == rest;
    } else if p[0] == Esc {
      SplitTokensAppend(p[2..], t, d);
      SplitTokensGlueEscape(p, t, d);
    } else {
      SplitTokensAppend(p[1..], t, d);
      SplitTokensGluePlain(p, t, d);
    }
  }

  /** Cutting a string and gluing the two halves back around a suffix. */
  lemma Regroup(p: string, k: nat, r: string)
    requires k <= |p|
    ensures p[..k] + (p[k..] + r) == p + r
  {
    forall i | 0 <= i < |p| + |r|
      ensures (p[..k] + (p[k..] + r))[i] == (p + r)[i]
    {
    }
  }

  /** One step of `SplitTokensAppend`: an escape pair at the head of `p` joins the first piece
      of the rest. */
  lemma SplitTokensGlueEscape(p: string, t: string, d: char)
    requires |p| >= 2 && p[0] == Esc
    requires var rest := SplitTokens(t, d);
      SplitTokens(p[2..] + t, d) == [p[2..] + rest[0]] + rest[1..]
    ensures var rest := SplitTokens(t, d);
      SplitTokens(p + t, d) == [p + rest[0]] + rest[1..]
  {
    var rest := SplitTokens(t, d);
    var q := p + t;
    assert q[2..] == p[2..] + t;
    var inner := SplitTokens(q[2..], d);
    assert inner[0] == p[2..] + rest[0] && inner[1..] == rest[1..];
    assert q[0] == Esc && q[1] == p[1] && |q| >= 2;
    assert SplitTokens(q, d) == [[q[0], q[1]] + inner[0]] + inner[1..];
    assert [q[0], q[1]] == p[..2];
    Regroup(p, 2, rest[0]);
  }

  /** One step of `SplitTokensAppend`: a plain character at the head of `p` joins the first
      piece of the rest. */
  lemma SplitTokensGluePlain(p: string, t: string, d: char)
    requires |p| >= 1 && p[0] != Esc && p[0] != d
    requires var rest := SplitTokens(t, d);
      SplitTokens(p[1..] + t, d) == [p[1..] + rest[0]] + rest[1..]
    ensures var rest := SplitTokens(t, d);
      SplitTokens(p + t, d) == [p + rest[0]] + rest[1..]
  {
    var rest := SplitTokens(t, d);
    var q := p + t;
    assert q[1..] == p[1..] + t;
    var inner := SplitTokens(q[1..], d);
    assert inner[0] == p[1..] + rest[0] && inner[1..] == rest[1..];
    assert q[0] == p[0];
    assert SplitTokens(q, d) == [[q[0]] + inner[0]] + inner[1..];
    assert [q[0]] == p[..1];
    Regroup(p, 1, rest[0]);
  }

  /** Every sequence of well-escaped components comes back from the token-aware split of its
      join, including components that end in an escaped backslash. */
  lemma {:induction false} SplitTokensJoin(ps: seq<string>, d: char)
    requires d != Esc && |ps| >= 1
    requires forall i :: 0 <= i < |ps| ==> WellEscaped(ps[i], d)
    ensures SplitTokens(Join(ps, [d]), d) == ps
    decreases |ps|
  {
    if |ps| == 1 {
      SplitTokensAppend(ps[0], [], d);
      assert ps[0] + [] == ps[0];
    } else {
      var tail := ps[1..];
      SplitTokensJoin(tail, d);
      var t := [d] + Join(tail, [d]);
      SplitTokensAppend(ps[0], t, d);
      assert t[0] == d && t[1..] == Join(tail, [d]);
      assert SplitTokens(t, d) == [[]] + tail;
      assert ps[0] + [d] + Join(tail, [d]) == ps[0] + t;
      assert ps[0] + [] == ps[0];
      assert ps == [ps[0]] + tail;
    }
  }

  // ---------------------------------------------------------------------------------------
  // component-wise maps
  // ---------------------------------------------------------------------------------------

  function UnescapeAll(cs: seq<string>, d: char): (r: seq<string>)
    ensures |r| == |cs| && forall i :: 0 <= i < |cs| ==> r[i] == Unescape(cs[i], d)
  {
    seq(|cs|, i requires 0 <= i < |cs| => Unescape(cs[i], d))
  }

  function EscapeAll(cs: seq<string>, d: char): (r: seq<string>)
    ensures |r| == |cs| && forall i :: 0 <= i < |cs| ==> r[i] == Escape(cs[i], d)
  {
    seq(|cs|, i requires 0 <= i < |cs| => Escape(cs[i], d))
  }

  /** `concat`'s translation of a component from the other name's delimiter to the own one. */
  function Translate(c: string, from: char, to: char): string {
    Escape(Unescape(c, from), to)
  }

  /** A translated component is accepted by the receiving name and keeps its literal value,
      provided its literal value holds no backslash. */
  lemma TranslateKeepsValue(c: string, from: char, to: char)
    requires to != Esc && Esc !in Unescape(c, from)
    ensures IsEscaped(Translate(c, from, to), to)
    ensures Unescape(Translate(c, from, to), to) == Unescape(c, from)
  {
    EscapeIsEscaped(Unescape(c, from), to);
    BackslashFreeHasNoEscapedDelimiter(Unescape(c, from), to);
    UnescapeEscape(Unescape(c, from), to);
  }

  /** Escaping keeps the last character, so a backslash-free string never escapes into one that
      ends in a backslash. */
  lemma {:induction false} EscapeAfterLast(s: string, d: char, afterEsc: bool)
    requires s != []
    ensures var r := EscapeAfter(s, d, afterEsc); |r| > 0 && r[|r| - 1] == s[|s| - 1]
    decreases |s|
  {
    if |s| > 1 {
      EscapeAfterLast(s[1..], d, s[0] == Esc);
    }
  }

  lemma EscapedBackslashFreeIsResplittable(us: seq<string>, d: char)
    requires d != Esc && |us| >= 1 && forall i :: 0 <= i < |us| ==> Esc !in us[i]
    ensures Resplittable(EscapeAll(us, d), d)
  {
    var es := EscapeAll(us, d);
    forall i | 0 <= i < |es|
      ensures NoBareDelimiter(es[i], d) && (es[i] != [] ==> es[i][|es[i]| - 1] != Esc)
    {
      EscapeIsEscaped(us[i], d);
      WellEscapedHasNoBareDelimiter(es[i], d, false);
      if us[i] != [] {
        EscapeAfterLast(us[i], d, false);
      }
    }
  }

  /** A string without a bare delimiter is one piece. */
  lemma SplitWithoutBareDelimiter(s: string, d: char)
    requires NoBareDelimiter(s, d)
    ensures Split(s, d) == [s]
  {
    SplitCount(s, d);
    JoinSplit(s, d);
  }

  // ---------------------------------------------------------------------------------------
  // a token-aware codec (the correction of escape/unescape)
  // ---------------------------------------------------------------------------------------

  /** Escape every backslash and every delimiter. */
  function EscapeTokens(u: string, d: char): string {
    if u == [] then []
    else (if u[0] == Esc || u[0] == d then [Esc, u[0]] else [u[0]]) + EscapeTokens(u[1..], d)
  }

  /** Read a backslash and the character after it as that character. */
  function UnescapeTokens(c: string, d: char): string {
    if c == [] then []
    else if c[0] == Esc && |c| >= 2 then [c[1]] + UnescapeTokens(c[2..], d)
    else [c[0]] + UnescapeTokens(c[1..], d)
  }

  lemma {:induction false} EscapeTokensWellEscaped(u: string, d: char)
    requires d != Esc
    ensures WellEscaped(EscapeTokens(u, d), d)
    ensures UnescapeTokens(EscapeTokens(u, d), d) == u
    decreases |u|
  {
    if u != [] {
      EscapeTokensWellEscaped(u[1..], d);
      var e := EscapeTokens(u, d);
      var rest := EscapeTokens(u[1..], d);
      if u[0] == Esc || u[0] == d {
        assert e == [Esc, u[0]] + rest;
        assert e[2..] == rest;
      } else {
        assert e == [u[0]] + rest;
        assert e[1..] == rest;
      }
      assert u == [u[0]] + u[1..];
    }
  }

  lemma {:induction false} UnescapeTokensEscapeTokens(c: string, d: char)
    requires d != Esc && WellEscaped(c, d)
    ensures EscapeTokens(UnescapeTokens(c, d), d) == c
    decreases |c|
  {
    if c != [] {
      if c[0] == Esc {
        UnescapeTokensEscapeTokens(c[2..], d);
        var v := UnescapeTokens(c, d);
        assert v == [c[1]] + UnescapeTokens(c[2..], d);
        assert v[1..] == UnescapeTokens(c[2..], d);
        assert c == [c[0], c[1]] + c[2..];
      } else {
        UnescapeTokensEscapeTokens(c[1..], d);
        var v := UnescapeTokens(c, d);
        assert v[1..] == UnescapeTokens(c[1..], d);
        assert c == [c[0]] + c[1..];
      }
    }
  }

  /** On backslash-free values the token-aware escape is the source's escape. */
  lemma {:induction false} EscapeTokensAgrees(u: string, d: char)
    requires Esc !in u
    ensures EscapeTokens(u, d) == Escape(u, d)
    decreases |u|
  {
    if u != [] {
      assert u[0] in u;
      assert forall x :: x in u[1..] ==> x in u;
      EscapeTokensAgrees(u[1..], d);
    }
  }
}
