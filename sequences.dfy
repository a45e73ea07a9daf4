/** Facts about concatenated sequences, stated for any element type so that
    the solver never has to look inside the pieces. */
module Sequences {

  lemma AppendAssoc<T>(a: seq<T>, b: seq<T>, c: seq<T>)
    ensures (a + b) + c == a + (b + c)
  {
  }

  /** The first and last of three concatenated pieces. */
  lemma Bracketed<T>(a: seq<T>, b: seq<T>, c: seq<T>)
    ensures |a + b + c| == |a| + |b| + |c|
    ensures (a + b + c)[..|a|] == a && (a + b + c)[|a| + |b|..] == c
  {
    assert a + b + c == a + (b + c);
  }

  /** Where each of five concatenated pieces sits in the result. */
  lemma FivePieces<T>(p0: seq<T>, p1: seq<T>, p2: seq<T>, p3: seq<T>, p4: seq<T>)
    ensures var r := p0 + p1 + p2 + p3 + p4;
      var e0 := |p0|; var e1 := e0 + |p1|; var e2 := e1 + |p2|; var e3 := e2 + |p3|;
      && |r| == e3 + |p4|
      && r[..e0] == p0 && r[e0..e1] == p1 && r[e1..e2] == p2 && r[e2..e3] == p3 && r[e3..] == p4
  {
    var r := p0 + p1 + p2 + p3 + p4;
    var e0 := |p0|; var e1 := e0 + |p1|; var e2 := e1 + |p2|; var e3 := e2 + |p3|;
    assert r[..e0] == p0;
    assert r[e0..e1] == p1;
    assert r[e1..e2] == p2;
    assert r[e2..e3] == p3;
    assert r[e3..] == p4;
  }

  /** Where each of seven concatenated pieces sits in the result. */
  lemma SevenPieces<T>(p0: seq<T>, p1: seq<T>, p2: seq<T>, p3: seq<T>, p4: seq<T>, p5: seq<T>, p6: seq<T>)
    ensures var r := p0 + p1 + p2 + p3 + p4 + p5 + p6;
      var e0 := |p0|; var e1 := e0 + |p1|; var e2 := e1 + |p2|; var e3 := e2 + |p3|;
      var e4 := e3 + |p4|; var e5 := e4 + |p5|;
      && |r| == e5 + |p6|
      && r[..e0] == p0 && r[e0..e1] == p1 && r[e1..e2] == p2 && r[e2..e3] == p3
      && r[e3..e4] == p4 && r[e4..e5] == p5 && r[e5..] == p6
  {
    var r := p0 + p1 + p2 + p3 + p4 + p5 + p6;
    var e0 := |p0|; var e1 := e0 + |p1|; var e2 := e1 + |p2|; var e3 := e2 + |p3|;
    var e4 := e3 + |p4|; var e5 := e4 + |p5|;
    assert r[..e0] == p0;
    assert r[e0..e1] == p1;
    assert r[e1..e2] == p2;
    assert r[e2..e3] == p3;
    assert r[e3..e4] == p4;
    assert r[e4..e5] == p5;
    assert r[e5..] == p6;
  }

  /** The texts `f` gives the elements of `s`, one after another. */
  function ConcatMap<T>(s: seq<T>, f: T -> string): string
  {
    if s == [] then "" else ConcatMap(s[..|s| - 1], f) + f(s[|s| - 1])
  }

  /** Appending an element appends its text. */
  lemma ConcatMapSnoc<T>(s: seq<T>, x: T, f: T -> string)
    ensures ConcatMap(s + [x], f) == ConcatMap(s, f) + f(x)
  {
    assert (s + [x])[..|s|] == s;
  }

  /** One more element of `s` adds its text at the end. */
  lemma ConcatMapTake<T>(s: seq<T>, i: nat, f: T -> string)
    requires i < |s|
    ensures ConcatMap(s[..i + 1], f) == ConcatMap(s[..i], f) + f(s[i])
  {
    assert s[..i + 1] == s[..i] + [s[i]];
    ConcatMapSnoc(s[..i], s[i], f);
  }

  /** The text of a concatenation is the texts of its parts, concatenated. */
  lemma {:induction false} ConcatMapAppend<T>(a: seq<T>, b: seq<T>, f: T -> string)
    ensures ConcatMap(a + b, f) == ConcatMap(a, f) + ConcatMap(b, f)
    decreases |b|
  {
    if b == [] {
      assert a + b == a;
    } else {
      var b' := b[..|b| - 1];
      var x := b[|b| - 1];
      assert a + b == (a + b') + [x] && b == b' + [x];
      ConcatMapSnoc(a + b', x, f);
      ConcatMapSnoc(b', x, f);
      ConcatMapAppend(a, b', f);
    }
  }
}
