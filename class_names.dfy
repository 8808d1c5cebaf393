/**
 * CSS class composition (src/utils/classNames.ts): keep the truthy arguments and join
 * them with single spaces.
 */
module ClassNames {
  import opened Seqs

  /** An argument: a string, or one of the falsy non-string values the helper accepts. */
  datatype ClassArg = Str(s: string) | False | Null | Undefined

  /** JavaScript truthiness of an argument: a non-empty string. */
  predicate Truthy(a: ClassArg)
  {
    a.Str? && a.s != ""
  }

  /** The truthy arguments' strings, in order. */
  function Truthies(args: seq<ClassArg>): (r: seq<string>)
    ensures |r| <= |args|
    ensures forall i :: 0 <= i < |r| ==> r[i] != ""
    ensures r == [] <==> forall i :: 0 <= i < |args| ==> !Truthy(args[i])
  {
    if args == [] then []
    else
      var n := |args| - 1;
      var rest := Truthies(args[..n]);
      if Truthy(args[n]) then rest + [args[n].s] else rest
  }

  /** Every kept string is one of the string arguments. */
  lemma {:induction false} TruthiesFromArgs(args: seq<ClassArg>, i: nat)
    requires i < |Truthies(args)|
    ensures exists j :: 0 <= j < |args| && args[j] == Str(Truthies(args)[i])
  {
    var n := |args| - 1;
    var rest := Truthies(args[..n]);
    if i < |rest| {
      TruthiesFromArgs(args[..n], i);
      var j :| 0 <= j < n && args[..n][j] == Str(rest[i]);
      assert args[j] == Str(Truthies(args)[i]);
    } else {
      assert args[n] == Str(Truthies(args)[i]);
    }
  }

  /** Joins with a single space between consecutive parts. */
  function JoinSpace(parts: seq<string>): string
  {
    if parts == [] then ""
    else if |parts| == 1 then parts[0]
    else JoinSpace(parts[..|parts| - 1]) + " " + parts[|parts| - 1]
  }

  function ClassNames(args: seq<ClassArg>): string
  {
    JoinSpace(Truthies(args))
  }

  /** Splits at every space, as `String.prototype.split(' ')`. */
  function SplitSpace(s: string): (r: seq<string>)
    ensures r != []
  {
    if s == [] then [""]
    else
      var prev := SplitSpace(s[..|s| - 1]);
      var c := s[|s| - 1];
      if c == ' ' then prev + [""]
      else prev[..|prev| - 1] + [prev[|prev| - 1] + [c]]
  }

  predicate NoSpace(s: string)
  {
    forall i :: 0 <= i < |s| ==> s[i] != ' '
  }

  // ---------------------------------------------------------------------------
  // Properties.

  lemma {:induction false} JoinEmpty(parts: seq<string>)
    requires forall i :: 0 <= i < |parts| ==> parts[i] != ""
    ensures JoinSpace(parts) == "" <==> parts == []
  {
    if |parts| > 1 {
      JoinEmpty(parts[..|parts| - 1]);
    }
  }

  /** The result is empty exactly when no argument is truthy. */
  lemma EmptyIffNoTruthy(args: seq<ClassArg>)
    ensures ClassNames(args) == "" <==> forall i :: 0 <= i < |args| ==> !Truthy(args[i])
  {
    JoinEmpty(Truthies(args));
  }

  /** A single truthy argument, among falsy ones, comes back unchanged. */
  lemma SingleTruthy(args: seq<ClassArg>, k: nat)
    requires k < |args| && Truthy(args[k])
    requires forall i :: 0 <= i < |args| && i != k ==> !Truthy(args[i])
    ensures ClassNames(args) == args[k].s
  {
    assert args == args[..k] + [args[k]] + args[k + 1..];
    TruthiesAppend(args[..k] + [args[k]], args[k + 1..]);
    TruthiesAppend(args[..k], [args[k]]);
    assert Truthies(args[k + 1..]) == [] && Truthies(args[..k]) == [];
    assert Truthies([args[k]]) == Truthies([args[k]][..0]) + [args[k].s];
  }

  lemma {:induction false} TruthiesAppend(a: seq<ClassArg>, b: seq<ClassArg>)
    ensures Truthies(a + b) == Truthies(a) + Truthies(b)
    decreases |b|
  {
    if b == [] {
      assert a + b == a;
    } else {
      var n := |b| - 1;
      TruthiesAppend(a, b[..n]);
      DropLast(a, b);
      var last := if Truthy(b[n]) then [b[n].s] else [];
      assert Truthies(a + b) == Truthies(a + b[..n]) + last;
      assert Truthies(b) == Truthies(b[..n]) + last;
    }
  }

  /** A falsy argument anywhere in the list changes nothing. */
  lemma FalsyDropped(a: seq<ClassArg>, f: ClassArg, b: seq<ClassArg>)
    requires !Truthy(f)
    ensures ClassNames(a + [f] + b) == ClassNames(a + b)
  {
    TruthiesAppend(a + [f], b);
    TruthiesAppend(a, [f]);
    TruthiesAppend(a, b);
    assert Truthies([f]) == Truthies([f][..0]);
  }

  lemma SplitStep(s: string, c: char)
    ensures var p := SplitSpace(s);
      SplitSpace(s + [c]) == if c == ' ' then p + [""] else p[..|p| - 1] + [p[|p| - 1] + [c]]
  {
    assert (s + [c])[..|s|] == s;
  }

  lemma {:induction false} SplitAppendWord(s: string, w: string)
    requires NoSpace(w)
    ensures var p := SplitSpace(s);
      SplitSpace(s + w) == p[..|p| - 1] + [p[|p| - 1] + w]
    decreases |w|
  {
    var p := SplitSpace(s);
    if w == [] {
      assert s + w == s;
      assert p[|p| - 1] + w == p[|p| - 1];
      assert p == p[..|p| - 1] + [p[|p| - 1]];
    } else {
      var n := |w| - 1;
      SplitAppendWord(s, w[..n]);
      var q := SplitSpace(s + w[..n]);
      assert s + w == (s + w[..n]) + [w[n]];
      SplitStep(s + w[..n], w[n]);
      assert w[n] != ' ';
      AppendLast(p[|p| - 1], w);
    }
  }

  /**
   * Splitting the result at spaces gives back the truthy arguments, in order, when
   * none of them holds a space.
   */
  lemma {:induction false} SplitJoin(parts: seq<string>)
    requires parts != []
    requires forall i :: 0 <= i < |parts| ==> NoSpace(parts[i])
    ensures SplitSpace(JoinSpace(parts)) == parts
  {
    var n := |parts| - 1;
    if n == 0 {
      SplitAppendWord("", parts[0]);
      assert "" + parts[0] == parts[0];
    } else {
      var front := JoinSpace(parts[..n]);
      SplitJoin(parts[..n]);
      SplitStep(front, ' ');
      SplitAppendWord(front + [' '], parts[n]);
      assert JoinSpace(parts) == (front + [' ']) + parts[n];
      NewLastPart(parts);
    }
  }

  lemma ClassNamesRoundTrip(args: seq<ClassArg>)
    requires exists i :: 0 <= i < |args| && Truthy(args[i])
    requires forall i :: 0 <= i < |args| && args[i].Str? ==> NoSpace(args[i].s)
    ensures SplitSpace(ClassNames(args)) == Truthies(args)
  {
    var r := Truthies(args);
    forall i | 0 <= i < |r|
      ensures NoSpace(r[i])
    {
      TruthiesFromArgs(args, i);
    }
    SplitJoin(r);
  }

  /** The worked example: falsy values and empty strings are dropped. */
  lemma Example()
    ensures ClassNames([Str("btn"), False, Str(""), Null, Str("active"), Undefined]) == "btn active"
  {
    var a := [Str("btn"), False, Str(""), Null, Str("active"), Undefined];
    assert a[..0] == [];
    assert Truthies(a[..1]) == ["btn"] by { assert a[..1][..0] == a[..0]; }
    assert Truthies(a[..2]) == ["btn"] by { assert a[..2][..1] == a[..1]; }
    assert Truthies(a[..3]) == ["btn"] by { assert a[..3][..2] == a[..2]; }
    assert Truthies(a[..4]) == ["btn"] by { assert a[..4][..3] == a[..3]; }
    assert Truthies(a[..5]) == ["btn", "active"] by { assert a[..5][..4] == a[..4]; }
    assert Truthies(a) == ["btn", "active"] by { assert a[..5] == a[..|a| - 1]; }
    assert ["btn", "active"][..1] == ["btn"];
  }
}
