/**
 * The canonical key of a cycle: the least of the arrow-joined spellings of its rotations.
 * Two cycles count as the same exactly when their keys are equal.
 */
module CycleKeys {
  const ARROW := '\U{2192}'

  function Join(names: seq<string>): string {
    if names == [] then ""
    else if |names| == 1 then names[0]
    else names[0] + [ARROW] + Join(names[1..])
  }

  function Rotate<T>(body: seq<T>, i: nat): seq<T>
    requires i <= |body|
  {
    body[i..] + body[..i]
  }

  ghost predicate IsRotation<T(!new)>(a: seq<T>, b: seq<T>) {
    exists i: nat :: i <= |a| && b == Rotate(a, i)
  }

  /** Lexicographic order by character code, the default order of a sort. */
  predicate Leq(a: string, b: string) {
    a == [] || (b != [] && (a[0] < b[0] || (a[0] == b[0] && Leq(a[1..], b[1..]))))
  }

  lemma {:induction false} LeqTotal(a: string, b: string)
    ensures Leq(a, b) || Leq(b, a)
  {
    if a == [] || b == [] {
    } else {
      LeqTotal(a[1..], b[1..]);
    }
  }

  lemma {:induction false} LeqAntisymmetric(a: string, b: string)
    requires Leq(a, b) && Leq(b, a)
    ensures a == b
  {
    if a == [] || b == [] {
    } else {
      LeqAntisymmetric(a[1..], b[1..]);
      assert a == [a[0]] + a[1..] && b == [b[0]] + b[1..];
    }
  }

  lemma {:induction false} LeqTransitive(a: string, b: string, c: string)
    requires Leq(a, b) && Leq(b, c)
    ensures Leq(a, c)
  {
    if a == [] || b == [] || c == [] || !(a[0] == b[0] == c[0]) {
    } else {
      LeqTransitive(a[1..], b[1..], c[1..]);
    }
  }

  predicate LeastIn(m: string, ss: seq<string>) {
    m in ss && forall s :: s in ss ==> Leq(m, s)
  }

  /** The first element after sorting. */
  function Least(ss: seq<string>): (m: string)
    requires ss != []
    ensures LeastIn(m, ss)
  {
    LeqTotal(ss[0], ss[0]);
    if |ss| == 1 then ss[0]
    else
      var rest := Least(ss[1..]);
      LeqTotal(ss[0], rest);
      var m := if Leq(ss[0], rest) then ss[0] else rest;
      assert forall s :: s in ss ==> Leq(m, s) by {
        forall s | s in ss ensures Leq(m, s) {
          if s in ss[1..] {
            LeqTransitive(m, rest, s);
          }
        }
      }
      m
  }

  function Spellings(body: seq<string>): seq<string> {
    seq(|body|, i requires 0 <= i < |body| => Join(Rotate(body, i)))
  }

  function Key(body: seq<string>): string
    requires body != []
  {
    Least(Spellings(body))
  }

  // ---------------------------------------------------------------- rotations

  lemma RotateAt<T>(a: seq<T>, i: nat, k: nat)
    requires i <= |a| && k < |a|
    ensures Rotate(a, i)[k] == a[if i + k < |a| then i + k else i + k - |a|]
  {
  }

  lemma RotateTwiceAt<T>(a: seq<T>, i: nat, j: nat, t: nat, k: nat)
    requires i <= |a| && j <= |a| && t <= |a| && k < |a| && (t == i + j || t == i + j - |a|)
    ensures Rotate(Rotate(a, i), j)[k] == Rotate(a, t)[k]
  {
    RotateAt(Rotate(a, i), j, k);
    RotateAt(a, i, if j + k < |a| then j + k else j + k - |a|);
    RotateAt(a, t, k);
  }

  lemma RotateRotate<T>(a: seq<T>, i: nat, j: nat)
    requires i <= |a| && j <= |a|
    ensures Rotate(Rotate(a, i), j) == if i + j <= |a| then Rotate(a, i + j) else Rotate(a, i + j - |a|)
  {
    var t := if i + j <= |a| then i + j else i + j - |a|;
    var twice, once := Rotate(Rotate(a, i), j), Rotate(a, t);
    forall k | 0 <= k < |a| ensures twice[k] == once[k] {
      RotateTwiceAt(a, i, j, t, k);
    }
  }

  lemma RotationFacts<T(!new)>(a: seq<T>, b: seq<T>)
    requires IsRotation(a, b)
    ensures IsRotation(b, a) && |a| == |b|
  {
    var i: nat :| i <= |a| && b == Rotate(a, i);
    RotateRotate(a, i, |a| - i);
    assert Rotate(a, |a|) == a;
    assert a == Rotate(b, |a| - i);
  }

  lemma RotationsCompose<T(!new)>(a: seq<T>, b: seq<T>, c: seq<T>)
    requires IsRotation(a, b) && IsRotation(b, c)
    ensures IsRotation(a, c)
  {
    var i: nat :| i <= |a| && b == Rotate(a, i);
    var j: nat :| j <= |b| && c == Rotate(b, j);
    RotateRotate(a, i, j);
  }

  /** Every spelling of a rotation is a spelling of the original. */
  lemma SpellingsOfRotation(a: seq<string>, b: seq<string>, s: string)
    requires IsRotation(a, b) && s in Spellings(b)
    ensures s in Spellings(a)
  {
    RotationFacts(a, b);
    var j: nat :| j < |b| && s == Spellings(b)[j];
    var c := Rotate(b, j);
    RotationsCompose(a, b, c);
    var k: nat :| k <= |a| && c == Rotate(a, k);
    assert Rotate(a, |a|) == Rotate(a, 0);
    var k' := if k == |a| then 0 else k;
    assert Spellings(a)[k'] == s;
  }

  /** Rotations of one cycle share their key. */
  lemma RotationsShareTheirKey(a: seq<string>, b: seq<string>)
    requires a != [] && IsRotation(a, b)
    ensures b != [] && Key(a) == Key(b)
  {
    RotationFacts(a, b);
    SpellingsOfRotation(a, b, Key(b));
    SpellingsOfRotation(b, a, Key(a));
    LeqAntisymmetric(Key(a), Key(b));
  }

  // ---------------------------------------------------------------- the key tells cycles apart

  predicate ArrowFree(names: seq<string>) {
    forall n :: n in names ==> ARROW !in n
  }

  lemma FirstArrow(names: seq<string>)
    requires names != [] && ArrowFree(names)
    ensures var j, n := Join(names), |names[0]|;
      && n <= |j| && j[..n] == names[0]
      && (forall k :: 0 <= k < n ==> j[k] != ARROW)
      && (|names| == 1 <==> n == |j|)
      && (|names| > 1 ==> j[n] == ARROW && j[n + 1..] == Join(names[1..]))
  {
    assert names[0] in names;
    if |names| > 1 {
      assert Join(names) == names[0] + ([ARROW] + Join(names[1..]));
    }
  }

  /** Arrow-free names can be read back from their joined spelling. */
  lemma {:induction false} JoinIsInjective(a: seq<string>, b: seq<string>)
    requires a != [] && b != [] && ArrowFree(a) && ArrowFree(b) && Join(a) == Join(b)
    ensures a == b
    decreases |a|
  {
    FirstArrow(a);
    FirstArrow(b);
    assert |a[0]| == |b[0]|;
    if |a| == 1 {
    } else {
      JoinIsInjective(a[1..], b[1..]);
    }
    assert a == [a[0]] + a[1..] && b == [b[0]] + b[1..];
  }

  /** Without arrows in the names, equal keys mean rotations of one another. */
  lemma EqualKeysMeanRotations(a: seq<string>, b: seq<string>)
    requires a != [] && b != [] && ArrowFree(a) && ArrowFree(b) && Key(a) == Key(b)
    ensures IsRotation(a, b)
  {
    var i: nat :| i < |a| && Spellings(a)[i] == Key(a);
    var j: nat :| j < |b| && Spellings(b)[j] == Key(b);
    JoinIsInjective(Rotate(a, i), Rotate(b, j));
    assert IsRotation(a, Rotate(a, i)) && IsRotation(b, Rotate(b, j));
    RotationFacts(b, Rotate(b, j));
    RotationsCompose(a, Rotate(a, i), b);
  }
}
