/** Concatenation of nested sequences: pages of blocks, and strings of HTML fragments. */
module Seqs {

  /** Concatenates the groups in order. */
  function Flatten<T>(gs: seq<seq<T>>): seq<T>
  {
    if gs == [] then [] else Flatten(gs[..|gs| - 1]) + gs[|gs| - 1]
  }

  /** Flattening distributes over concatenation of the outer sequence. */
  lemma {:induction false} FlattenAppend<T>(a: seq<seq<T>>, b: seq<seq<T>>)
    ensures Flatten(a + b) == Flatten(a) + Flatten(b)
    decreases |b|
  {
    if b == [] {
      assert a + b == a;
    } else {
      var n := |b| - 1;
      FlattenAppend(a, b[..n]);
      DropLast(a, b);
    }
  }

  /** Appending one group appends its elements. */
  lemma FlattenAppendOne<T>(gs: seq<seq<T>>, g: seq<T>)
    ensures Flatten(gs + [g]) == Flatten(gs) + g
  {
    assert (gs + [g])[..|gs|] == gs;
  }

  /** Adding an element to the last group adds it at the end of the concatenation. */
  lemma FlattenExtendLast<T>(front: seq<seq<T>>, last: seq<T>, x: T)
    ensures Flatten(front + [last + [x]]) == Flatten(front + [last]) + [x]
  {
    FlattenAppendOne(front, last + [x]);
    FlattenAppendOne(front, last);
  }

  /** A single group flattens to itself. */
  lemma FlattenSingleton<T>(g: seq<T>)
    ensures Flatten([g]) == g
  {
    assert [g][..0] == [];
  }

  /** Replacing every element by a one-element group and flattening gives the sequence back. */
  lemma {:induction false} FlattenSingletons<T>(s: seq<T>)
    ensures Flatten(seq(|s|, i requires 0 <= i < |s| => [s[i]])) == s
  {
    var gs := seq(|s|, i requires 0 <= i < |s| => [s[i]]);
    if s != [] {
      var n := |s| - 1;
      FlattenSingletons(s[..n]);
      assert gs[..n] == seq(|s[..n]|, i requires 0 <= i < |s[..n]| => [s[..n][i]]);
      assert s[..n] + [s[n]] == s;
    }
  }

  /** Flattening a sequence of flattened groups is flattening twice. */
  lemma {:induction false} FlattenFlatten<T>(gss: seq<seq<seq<T>>>)
    ensures Flatten(seq(|gss|, k requires 0 <= k < |gss| => Flatten(gss[k]))) == Flatten(Flatten(gss))
  {
    var fs := seq(|gss|, k requires 0 <= k < |gss| => Flatten(gss[k]));
    if gss != [] {
      var n := |gss| - 1;
      FlattenFlatten(gss[..n]);
      assert fs[..n] == seq(|gss[..n]|, k requires 0 <= k < |gss[..n]| => Flatten(gss[..n][k]));
      FlattenAppend(Flatten(gss[..n]), gss[n]);
    }
  }

  /** Every element of the concatenation comes from one of the groups. */
  lemma {:induction false} FlattenMember<T>(gs: seq<seq<T>>, x: T)
    requires x in Flatten(gs)
    ensures exists k :: 0 <= k < |gs| && x in gs[k]
  {
    var n := |gs| - 1;
    if x in gs[n] {
    } else {
      FlattenMember(gs[..n], x);
      var k :| 0 <= k < n && x in gs[..n][k];
      assert x in gs[k];
    }
  }

  /** Dropping the last element of `a + b` drops the last element of `b`. */
  lemma DropLast<T>(a: seq<T>, b: seq<T>)
    requires b != []
    ensures (a + b)[..|a + b| - 1] == a + b[..|b| - 1]
    ensures (a + b)[|a + b| - 1] == b[|b| - 1]
  {
  }

  /** Appending all but the last element of `w`, then that element, appends `w`. */
  lemma AppendLast<T>(x: seq<T>, w: seq<T>)
    requires w != []
    ensures (x + w[..|w| - 1]) + [w[|w| - 1]] == x + w
  {
    assert w == w[..|w| - 1] + [w[|w| - 1]];
  }

  /**
   * Replacing the last group by an empty one and then extending it by the original
   * last group gives the groups back.
   */
  lemma NewLastPart<T>(parts: seq<seq<T>>)
    requires parts != []
    ensures var p := parts[..|parts| - 1] + [[]];
      p[..|p| - 1] + [p[|p| - 1] + parts[|parts| - 1]] == parts
  {
    var xs := parts[..|parts| - 1];
    var p := xs + [[]];
    assert p[..|p| - 1] == xs;
    assert p[|p| - 1] + parts[|parts| - 1] == parts[|parts| - 1];
  }
}
