/** The abstract base class of the fifth iteration (src/adap-b05/names/AbstractName.ts): the
    delimiter check of its constructor and the template methods that work through
    `getNoComponents` and `getComponent`. A template method sees a name as a `Snapshot`: its
    delimiter and the outcome of `getComponent(i)` for every index below `getNoComponents()`. */
module AbstractNameB05 {
  import opened Common
  import opened Escaping
  import opened Hashing

  datatype Snapshot = Snapshot(delimiter: char, components: seq<Result<string>>)

  /** The constructor's precondition: a missing delimiter means the default, a given one must be
      exactly one character long. */
  function CheckDelimiter(delimiter: Option<string>): (r: Result<char>)
    ensures r.Ok? <==> delimiter.None? || |delimiter.value| == 1
    ensures r.Ok? ==> r.value == if delimiter.None? then DefaultDelimiter else delimiter.value[0]
    ensures r.Err? ==> r.error == IllegalArgument
  {
    match delimiter
    case None => Ok(DefaultDelimiter)
    case Some(s) => if |s| == 1 then Ok(s[0]) else Err(IllegalArgument)
  }

  /** The components in order, or the failure of the first `getComponent` call that fails. */
  function Collect(v: seq<Result<string>>): (r: Result<seq<string>>)
    ensures r.Ok? <==> forall i :: 0 <= i < |v| ==> v[i].Ok?
    ensures r.Ok? ==> |r.value| == |v| && forall i :: 0 <= i < |v| ==> v[i] == Ok(r.value[i])
  {
    if v == [] then Ok([])
    else
      match Collect(v[..|v| - 1])
      case Err(e) => Err(e)
      case Ok(cs) =>
        match v[|v| - 1]
        case Err(e) => Err(e)
        case Ok(c) => Ok(cs + [c])
  }

  /** `asString(d)`: the unescaped components joined by `d`, which must be one character. */
  function AsStringOf(n: Snapshot, d: string): Result<string> {
    if |d| != 1 then Err(IllegalArgument)
    else
      match Collect(n.components)
      case Err(e) => Err(e)
      case Ok(cs) => Ok(Join(UnescapeAll(cs, n.delimiter), d))
  }

  /** `toString()`: the components as `getComponent` returns them, joined by the own delimiter. */
  function ToStringOf(n: Snapshot): Result<string> {
    match Collect(n.components)
    case Err(e) => Err(e)
    case Ok(cs) => Ok(Join(cs, [n.delimiter]))
  }

  /** The component `asDataString` emits: unescaped under the own delimiter, escaped under '.'. */
  function DataComponent(c: string, own: char): string {
    Escape(Unescape(c, own), DefaultDelimiter)
  }

  function DataComponents(cs: seq<string>, own: char): (r: seq<string>)
    ensures |r| == |cs| && forall i :: 0 <= i < |cs| ==> r[i] == DataComponent(cs[i], own)
  {
    seq(|cs|, i requires 0 <= i < |cs| => DataComponent(cs[i], own))
  }

  /** `asDataString()`: every component re-escaped for the default delimiter, joined by '.'. */
  function AsDataStringOf(n: Snapshot): Result<string> {
    match Collect(n.components)
    case Err(e) => Err(e)
    case Ok(cs) => Ok(Join(DataComponents(cs, n.delimiter), [DefaultDelimiter]))
  }

  /** `isEqual(other)`: equal data strings and equal delimiters; a failing `asDataString` of the
      receiver, then of the other name, propagates. */
  function IsEqualOf(n: Snapshot, m: Snapshot): Result<bool> {
    match AsDataStringOf(n)
    case Err(e) => Err(e)
    case Ok(a) =>
      match AsDataStringOf(m)
      case Err(e) => Err(e)
      case Ok(b) => Ok(a == b && n.delimiter == m.delimiter)
  }

  /** `getHashCode()`: the 32-bit fold over `toString()` followed by the delimiter. */
  function HashCodeOf(n: Snapshot): Result<int> {
    match ToStringOf(n)
    case Err(e) => Err(e)
    case Ok(s) => Ok(HashOf(s + [n.delimiter]))
  }

  lemma CollectPrefix(v: seq<Result<string>>, i: nat)
    requires i < |v|
    ensures Collect(v[..i + 1]) == match Collect(v[..i])
      case Err(e) => Err(e)
      case Ok(cs) => (match v[i] case Err(e) => Err(e) case Ok(c) => Ok(cs + [c]))
  {
    assert v[..i + 1][..i] == v[..i];
  }

  lemma {:induction false} CollectErrorStays(v: seq<Result<string>>, i: nat)
    requires i <= |v| && Collect(v[..i]).Err?
    ensures Collect(v) == Collect(v[..i])
    decreases |v| - i
  {
    if i < |v| {
      CollectPrefix(v, i);
      CollectErrorStays(v, i + 1);
    } else {
      assert v[..i] == v;
    }
  }

  /** The loop of `asString`. */
  method AsString(n: Snapshot, d: string) returns (r: Result<string>)
    ensures r == AsStringOf(n, d)
  {
    if |d| != 1 {
      return Err(IllegalArgument);
    }
    var v := n.components;
    var unescaped: seq<string> := [];
    ghost var raw: seq<string> := [];
    for i := 0 to |v|
      invariant Collect(v[..i]) == Ok(raw)
      invariant unescaped == UnescapeAll(raw, n.delimiter)
    {
      CollectPrefix(v, i);
      match v[i]
      case Err(e) =>
        CollectErrorStays(v, i + 1);
        return Err(e);
      case Ok(c) =>
        unescaped := unescaped + [Unescape(c, n.delimiter)];
        raw := raw + [c];
    }
    assert v[..|v|] == v;
    r := Ok(Join(unescaped, d));
  }

  /** The loop of `toString`. */
  method ToString(n: Snapshot) returns (r: Result<string>)
    ensures r == ToStringOf(n)
  {
    var v := n.components;
    var escaped: seq<string> := [];
    for i := 0 to |v|
      invariant Collect(v[..i]) == Ok(escaped)
    {
      CollectPrefix(v, i);
      match v[i]
      case Err(e) =>
        CollectErrorStays(v, i + 1);
        return Err(e);
      case Ok(c) =>
        escaped := escaped + [c];
    }
    assert v[..|v|] == v;
    r := Ok(Join(escaped, [n.delimiter]));
  }

  /** The loop of `asDataString`, then the re-escaping map and the join. */
  method AsDataString(n: Snapshot) returns (r: Result<string>)
    ensures r == AsDataStringOf(n)
  {
    var v := n.components;
    var unescaped: seq<string> := [];
    ghost var raw: seq<string> := [];
    for i := 0 to |v|
      invariant Collect(v[..i]) == Ok(raw)
      invariant unescaped == UnescapeAll(raw, n.delimiter)
    {
      CollectPrefix(v, i);
      match v[i]
      case Err(e) =>
        CollectErrorStays(v, i + 1);
        return Err(e);
      case Ok(c) =>
        unescaped := unescaped + [Unescape(c, n.delimiter)];
        raw := raw + [c];
    }
    assert v[..|v|] == v;
    var data := EscapeAll(unescaped, DefaultDelimiter);
    assert data == DataComponents(raw, n.delimiter);
    r := Ok(Join(data, [DefaultDelimiter]));
  }

  method IsEqual(n: Snapshot, m: Snapshot) returns (r: Result<bool>)
    ensures r == IsEqualOf(n, m)
  {
    var a := AsDataString(n);
    if a.Err? {
      return Err(a.error);
    }
    var b := AsDataString(m);
    if b.Err? {
      return Err(b.error);
    }
    r := Ok(a.value == b.value && n.delimiter == m.delimiter);
  }

  method GetHashCode(n: Snapshot) returns (r: Result<int>)
    ensures r == HashCodeOf(n)
  {
    var s := ToString(n);
    if s.Err? {
      return Err(s.error);
    }
    var h := StringHash(s.value + [n.delimiter]);
    r := Ok(h);
  }

  /** `isEmpty()`: no components. */
  method IsEmpty(n: Snapshot) returns (r: bool)
    ensures r <==> |n.components| == 0
  {
    r := |n.components| == 0;
  }

  /** What `concat(other)` appends: the other name's components, each unescaped under the other
      delimiter and escaped under the own one, up to the first `getComponent` that fails or the
      first translated component that `append` rejects as not escaped. */
  datatype ConcatPlan = ConcatPlan(items: seq<string>, outcome: Outcome)

  function ConcatFrom(other: Snapshot, own: char, i: nat): (r: ConcatPlan)
    requires i <= |other.components|
    ensures |r.items| <= |other.components| - i
    ensures r.outcome.Pass? ==> |r.items| == |other.components| - i
    ensures forall k :: 0 <= k < |r.items| ==> IsEscaped(r.items[k], own)
    decreases |other.components| - i
  {
    if i == |other.components| then ConcatPlan([], Pass)
    else
      match other.components[i]
      case Err(e) => ConcatPlan([], Fail(e))
      case Ok(c) =>
        var t := Translate(c, other.delimiter, own);
        if !IsEscaped(t, own) then ConcatPlan([], Fail(IllegalArgument))
        else
          var rest := ConcatFrom(other, own, i + 1);
          ConcatPlan([t] + rest.items, rest.outcome)
  }

  function PlanConcat(other: Snapshot, own: char): ConcatPlan {
    ConcatFrom(other, own, 0)
  }

  /** The plan from component i on, when that component is read and accepted: its translation,
      then the plan from the next component. */
  lemma ConcatFromStep(other: Snapshot, own: char, i: nat)
    requires i < |other.components| && other.components[i].Ok?
    requires IsEscaped(Translate(other.components[i].value, other.delimiter, own), own)
    ensures ConcatFrom(other, own, i) == ConcatPlan(
      [Translate(other.components[i].value, other.delimiter, own)] + ConcatFrom(other, own, i + 1).items,
      ConcatFrom(other, own, i + 1).outcome)
  {
  }

  /** The loop state of `concat` after i components: `done` holds what was appended, and the rest
      of the plan is the plan from component i on. */
  ghost predicate PlannedUpTo(other: Snapshot, own: char, i: nat, done: seq<string>)
    requires i <= |other.components|
  {
    PlanConcat(other, own) == ConcatPlan(done + ConcatFrom(other, own, i).items, ConcatFrom(other, own, i).outcome)
  }

  lemma PlannedAtStart(other: Snapshot, own: char)
    ensures PlannedUpTo(other, own, 0, [])
  {
    assert [] + ConcatFrom(other, own, 0).items == ConcatFrom(other, own, 0).items;
  }

  lemma PlannedNext(other: Snapshot, own: char, i: nat, done: seq<string>)
    requires i < |other.components| && other.components[i].Ok? && PlannedUpTo(other, own, i, done)
    requires IsEscaped(Translate(other.components[i].value, other.delimiter, own), own)
    ensures PlannedUpTo(other, own, i + 1, done + [Translate(other.components[i].value, other.delimiter, own)])
  {
    var t := Translate(other.components[i].value, other.delimiter, own);
    var rest := ConcatFrom(other, own, i + 1);
    ConcatFromStep(other, own, i);
    assert done + ([t] + rest.items) == (done + [t]) + rest.items;
  }

  /** Where the loop stops, the plan has appended exactly `done`, and ends as the plan from
      component i on does. */
  lemma PlannedStop(other: Snapshot, own: char, i: nat, done: seq<string>)
    requires i <= |other.components| && PlannedUpTo(other, own, i, done)
    requires i == |other.components| || other.components[i].Err?
      || !IsEscaped(Translate(other.components[i].value, other.delimiter, own), own)
    ensures PlanConcat(other, own).items == done
    ensures PlanConcat(other, own).outcome == ConcatFrom(other, own, i).outcome
  {
    assert ConcatFrom(other, own, i).items == [];
    assert done + [] == done;
  }

  // ---------------------------------------------------------------------------------------
  // properties of the template methods
  // ---------------------------------------------------------------------------------------

  /** Every `getComponent` call succeeds and no component's literal value holds a backslash. */
  predicate PlainValues(n: Snapshot) {
    && (forall i :: 0 <= i < |n.components| ==> n.components[i].Ok?)
    && (forall i :: 0 <= i < |n.components| ==> Esc !in Unescape(n.components[i].value, n.delimiter))
  }

  /** The literal components: what `getComponent` returns, unescaped under the own delimiter. */
  function Values(n: Snapshot): (r: seq<string>)
    requires forall i :: 0 <= i < |n.components| ==> n.components[i].Ok?
    ensures |r| == |n.components|
    ensures forall i :: 0 <= i < |r| ==> r[i] == Unescape(n.components[i].value, n.delimiter)
  {
    UnescapeAll(Collect(n.components).value, n.delimiter)
  }

  /** The data string reads back: split at the bare '.' and unescaped, it gives the literal
      components, for a non-empty name whose literal components hold no backslash. */
  lemma DataStringRoundTrip(n: Snapshot)
    requires |n.components| >= 1 && PlainValues(n)
    ensures AsDataStringOf(n).Ok?
    ensures UnescapeAll(Split(AsDataStringOf(n).value, DefaultDelimiter), DefaultDelimiter) == Values(n)
  {
    var cs := Collect(n.components).value;
    var us := Values(n);
    var data := DataComponents(cs, n.delimiter);
    assert data == EscapeAll(us, DefaultDelimiter);
    EscapedBackslashFreeIsResplittable(us, DefaultDelimiter);
    SplitJoin(data, DefaultDelimiter);
    forall i | 0 <= i < |us|
      ensures Unescape(data[i], DefaultDelimiter) == us[i]
    {
      BackslashFreeHasNoEscapedDelimiter(us[i], DefaultDelimiter);
      UnescapeEscape(us[i], DefaultDelimiter);
    }
  }

  /** For names whose literal components hold no backslash, `isEqual` holds exactly when the
      delimiters and the literal components agree. */
  lemma IsEqualMeansSameValues(n: Snapshot, m: Snapshot)
    requires |n.components| >= 1 && PlainValues(n)
    requires |m.components| >= 1 && PlainValues(m)
    ensures IsEqualOf(n, m) == Ok(true) <==> n.delimiter == m.delimiter && Values(n) == Values(m)
  {
    DataStringRoundTrip(n);
    DataStringRoundTrip(m);
    var cn := Collect(n.components).value;
    var cm := Collect(m.components).value;
    if Values(n) == Values(m) {
      assert DataComponents(cn, n.delimiter) == EscapeAll(Values(n), DefaultDelimiter);
      assert DataComponents(cm, m.delimiter) == EscapeAll(Values(m), DefaultDelimiter);
    }
  }

  /** Names that agree in delimiter and in what `getComponent` returns hash alike. */
  lemma HashFollowsComponents(n: Snapshot, m: Snapshot)
    requires n.delimiter == m.delimiter
    requires Collect(n.components).Ok? && Collect(n.components) == Collect(m.components)
    ensures HashCodeOf(n).Ok? && HashCodeOf(n) == HashCodeOf(m)
  {
  }

  // ---------------------------------------------------------------------------------------
  // isEqual and getHashCode disagree
  // ---------------------------------------------------------------------------------------

  /** Two names with delimiter '_': the components `a\\\\` and `b`, and the single component
      `a\\\\.b`. Both data strings read `a\\\\.b`, so `isEqual` holds, but `toString` (and so
      the hash code) differs in the separator, and the names differ in their number of components. */
  lemma IsEqualButHashesDiffer()
    ensures var n := Snapshot('_', [Ok("a\\\\"), Ok("b")]);
      var m := Snapshot('_', [Ok("a\\\\.b")]);
      && IsEqualOf(n, m) == Ok(true)
      && HashCodeOf(n).Ok? && HashCodeOf(m).Ok?
      && HashCodeOf(n) != HashCodeOf(m)
  {
    var n := Snapshot('_', [Ok("a\\\\"), Ok("b")]);
    var m := Snapshot('_', [Ok("a\\\\.b")]);
    CounterexampleIsEqual(n, m);
    CounterexampleHashCodes(n, m);
  }

  lemma CounterexampleIsEqual(n: Snapshot, m: Snapshot)
    requires n == Snapshot('_', [Ok("a\\\\"), Ok("b")])
    requires m == Snapshot('_', [Ok("a\\\\.b")])
    ensures IsEqualOf(n, m) == Ok(true)
  {
    CounterexampleDataStrings(n, m);
  }

  lemma CounterexampleHashCodes(n: Snapshot, m: Snapshot)
    requires n == Snapshot('_', [Ok("a\\\\"), Ok("b")])
    requires m == Snapshot('_', [Ok("a\\\\.b")])
    ensures HashCodeOf(n) == Ok(-1430140517) && HashCodeOf(m) == Ok(-1430187606)
  {
    CounterexampleStrings(n, m);
    CounterexampleHashes();
    assert "a\\\\_b" + ['_'] == "a\\\\_b_";
    assert "a\\\\.b" + ['_'] == "a\\\\.b_";
  }

  lemma CollectAllOk(v: seq<Result<string>>, cs: seq<string>)
    requires |v| == |cs| && forall i :: 0 <= i < |v| ==> v[i] == Ok(cs[i])
    ensures Collect(v) == Ok(cs)
  {
    assert Collect(v).Ok?;
    assert Collect(v).value == cs;
  }

  lemma CounterexampleDataStrings(n: Snapshot, m: Snapshot)
    requires n == Snapshot('_', [Ok("a\\\\"), Ok("b")])
    requires m == Snapshot('_', [Ok("a\\\\.b")])
    ensures AsDataStringOf(n) == AsDataStringOf(m) == Ok("a\\\\.b")
  {
    CollectAllOk(n.components, ["a\\\\", "b"]);
    CollectAllOk(m.components, ["a\\\\.b"]);
    CounterexampleDataComponents();
    JoinCons("a\\\\", ["b"], ".");
    assert "a\\\\" + "." + "b" == "a\\\\.b";
  }

  lemma CounterexampleDataComponents()
    ensures DataComponents(["a\\\\", "b"], '_') == ["a\\\\", "b"]
    ensures DataComponents(["a\\\\.b"], '_') == ["a\\\\.b"]
  {
    CounterexampleEscapesShort();
    CounterexampleEscapesLong();
    CounterexampleEscapesPlain();
    DataComponentsPair("a\\\\", "b", '_');
    DataComponentsSingle("a\\\\.b", '_');
  }

  lemma DataComponentsPair(a: string, b: string, own: char)
    requires DataComponent(a, own) == a && DataComponent(b, own) == b
    ensures DataComponents([a, b], own) == [a, b]
  {
  }

  lemma DataComponentsSingle(a: string, own: char)
    requires DataComponent(a, own) == a
    ensures DataComponents([a], own) == [a]
  {
  }

  lemma CounterexampleEscapesPlain()
    ensures DataComponent("b", '_') == "b"
  {
  }

  lemma CounterexampleEscapes()
    ensures DataComponent("a\\\\", '_') == "a\\\\"
    ensures DataComponent("a\\\\.b", '_') == "a\\\\.b"
  {
    CounterexampleEscapesShort();
    CounterexampleEscapesLong();
  }

  lemma CounterexampleEscapesShort()
    ensures DataComponent("a\\\\", '_') == "a\\\\"
  {
    assert Unescape("a\\\\", '_') == "a\\\\";
    assert Escape("a\\\\", '.') == "a\\\\";
  }

  lemma CounterexampleEscapesLong()
    ensures DataComponent("a\\\\.b", '_') == "a\\\\.b"
  {
    assert Unescape("a\\\\.b", '_') == "a\\\\.b";
    assert EscapeAfter(".b", '.', true) == ".b";
    assert EscapeAfter("\\.b", '.', true) == "\\.b";
    assert Escape("a\\\\.b", '.') == "a\\\\.b";
  }

  lemma CounterexampleStrings(n: Snapshot, m: Snapshot)
    requires n == Snapshot('_', [Ok("a\\\\"), Ok("b")])
    requires m == Snapshot('_', [Ok("a\\\\.b")])
    ensures ToStringOf(n) == Ok("a\\\\_b") && ToStringOf(m) == Ok("a\\\\.b")
  {
    CollectAllOk(n.components, ["a\\\\", "b"]);
    CollectAllOk(m.components, ["a\\\\.b"]);
    JoinCons("a\\\\", ["b"], "_");
    assert "a\\\\" + "_" + "b" == "a\\\\_b";
  }

  lemma CounterexamplePrefixHash()
    ensures HashOf("a\\\\") == 96161
  {
    HashSnoc("", 'a');
    assert "" + ['a'] == "a";
    assert HashOf("a") == 97;
    HashSnoc("a", '\\');
    assert "a" + ['\\'] == "a\\";
    assert HashOf("a\\") == 3099;
    HashSnoc("a\\", '\\');
    assert "a\\" + ['\\'] == "a\\\\";
  }

  lemma CounterexampleHashes()
    ensures HashOf("a\\\\_b_") == -1430140517
    ensures HashOf("a\\\\.b_") == -1430187606
  {
    CounterexampleHashUnderscore();
    CounterexampleHashDot();
  }

  lemma CounterexampleHashUnderscore()
    ensures HashOf("a\\\\_b_") == -1430140517
  {
    CounterexampleHashUnderscorePrefix();
    HashSnoc("a\\\\_b", '_');
    assert "a\\\\_b" + ['_'] == "a\\\\_b_";
    assert 31 * 92413764 + ('_' as int) == 2864826779;
    assert ToInt32(2864826779) == -1430140517;
  }

  lemma CounterexampleHashUnderscorePrefix()
    ensures HashOf("a\\\\_b") == 92413764
  {
    CounterexamplePrefixHash();
    HashSnoc("a\\\\", '_');
    assert "a\\\\" + ['_'] == "a\\\\_";
    assert HashOf("a\\\\_") == 2981086;
    HashSnoc("a\\\\_", 'b');
    assert "a\\\\_" + ['b'] == "a\\\\_b";
  }

  lemma CounterexampleHashDot()
    ensures HashOf("a\\\\.b_") == -1430187606
  {
    CounterexampleHashDotPrefix();
    HashSnoc("a\\\\.b", '_');
    assert "a\\\\.b" + ['_'] == "a\\\\.b_";
    assert 31 * 92412245 + ('_' as int) == 2864779690;
    assert ToInt32(2864779690) == -1430187606;
  }

  lemma CounterexampleHashDotPrefix()
    ensures HashOf("a\\\\.b") == 92412245
  {
    CounterexamplePrefixHash();
    HashSnoc("a\\\\", '.');
    assert "a\\\\" + ['.'] == "a\\\\.";
    assert HashOf("a\\\\.") == 2981037;
    HashSnoc("a\\\\.", 'b');
    assert "a\\\\." + ['b'] == "a\\\\.b";
  }

  /** The equality the hash code is consistent with: equal delimiters and equal components, one
      by one, as `getComponent` returns them. */
  function IsEqualComponentwise(n: Snapshot, m: Snapshot): Result<bool> {
    match Collect(n.components)
    case Err(e) => Err(e)
    case Ok(a) =>
      match Collect(m.components)
      case Err(e) => Err(e)
      case Ok(b) => Ok(|a| == |b| && a == b && n.delimiter == m.delimiter)
  }

  /** Componentwise equal names have equal hash codes, and the source's `isEqual` also holds for them. */
  lemma ComponentwiseEqualityIsHashConsistent(n: Snapshot, m: Snapshot)
    requires IsEqualComponentwise(n, m) == Ok(true)
    ensures HashCodeOf(n).Ok? && HashCodeOf(n) == HashCodeOf(m)
    ensures IsEqualOf(n, m) == Ok(true)
  {
  }

  // ---------------------------------------------------------------------------------------
  // concat
  // ---------------------------------------------------------------------------------------

  lemma {:induction false} ConcatFromPlainValues(other: Snapshot, own: char, i: nat)
    requires own != Esc && PlainValues(other) && i <= |other.components|
    ensures ConcatFrom(other, own, i) == ConcatPlan(EscapeAll(Values(other), own)[i..], Pass)
    decreases |other.components| - i
  {
    var es := EscapeAll(Values(other), own);
    if i < |other.components| {
      ConcatFromPlainValues(other, own, i + 1);
      var c := other.components[i].value;
      TranslateKeepsValue(c, other.delimiter, own);
      assert Translate(c, other.delimiter, own) == es[i];
      ConcatFromStep(other, own, i);
      assert es[i..] == [es[i]] + es[i + 1..];
    }
  }

  /** `concat` of a name whose literal components hold no backslash goes through, and appends
      those literal components escaped for the receiving name. */
  lemma ConcatOfPlainValues(other: Snapshot, own: char)
    requires own != Esc && PlainValues(other)
    ensures PlanConcat(other, own) == ConcatPlan(EscapeAll(Values(other), own), Pass)
    ensures UnescapeAll(PlanConcat(other, own).items, own) == Values(other)
  {
    ConcatFromPlainValues(other, own, 0);
    var es := EscapeAll(Values(other), own);
    assert es[0..] == es;
    forall k | 0 <= k < |es|
      ensures Unescape(es[k], own) == Values(other)[k]
    {
      BackslashFreeHasNoEscapedDelimiter(Values(other)[k], own);
      UnescapeEscape(Values(other)[k], own);
    }
  }
}
