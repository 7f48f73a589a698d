/** Values shared by every component: the optional column of a stored row and the
    plate normalisation used wherever a plate is looked up. */
module Prelude {

  datatype Option<+T> = None | Some(value: T)

  function Min(a: int, b: int): int { if a <= b then a else b }

  function Max(a: int, b: int): int { if a >= b then a else b }

  function Reversed<T>(s: seq<T>): (r: seq<T>)
    ensures |r| == |s|
    ensures forall i :: 0 <= i < |s| ==> r[i] == s[|s| - 1 - i]
  {
    seq(|s|, i requires 0 <= i < |s| => s[|s| - 1 - i])
  }

  /** An injective finite map is no larger than any set that holds its values. */
  lemma {:induction false} InjectionBound<A, B>(m: map<A, B>, s: set<B>)
    requires forall x, y :: x in m && y in m && m[x] == m[y] ==> x == y
    requires forall x :: x in m ==> m[x] in s
    ensures |m| <= |s|
    decreases |m|
  {
    if |m| > 0 {
      var x :| x in m;
      var rest := m - {x};
      assert rest.Keys == m.Keys - {x};
      InjectionBound(rest, s - {m[x]});
    }
  }

  // ------------------------------------------------------------ integer division

  lemma MulMono(a: int, b: int, c: int)
    requires c >= 0
    ensures a <= b ==> a * c <= b * c
  {
    if a <= b {
      assert (b - a) * c >= 0;
    }
  }

  lemma DivFloor(x: int, d: int)
    requires d > 0
    ensures x / d * d <= x < (x / d + 1) * d
  {
    assert x == x / d * d + x % d;
    assert (x / d + 1) * d == x / d * d + d;
  }

  /** m blocks of size d fit into x exactly when m is at most the quotient. */
  lemma FitsIff(m: int, d: int, x: int)
    requires d > 0
    ensures m * d <= x <==> m <= x / d
  {
    DivFloor(x, d);
    MulMono(m, x / d, d);
    MulMono(x / d + 1, m, d);
  }

  // ---------------------------------------------------------------- plates

  predicate IsPlateChar(c: char) {
    'A' <= c <= 'Z' || '0' <= c <= '9'
  }

  function Upper(c: char): char {
    if 'a' <= c <= 'z' then c - 'a' + 'A' else c
  }

  /** Upper-case, then drop everything outside A-Z and 0-9. */
  function Normalize(plate: string): (r: string)
    ensures forall i :: 0 <= i < |r| ==> IsPlateChar(r[i])
    ensures |r| <= |plate|
  {
    if plate == "" then ""
    else
      var c := Upper(plate[0]);
      if IsPlateChar(c) then [c] + Normalize(plate[1..]) else Normalize(plate[1..])
  }

  /** Plate characters survive normalisation, so looking up an already normalised plate
      finds the same row. */
  lemma {:induction false} NormalizeFixes(plate: string)
    requires forall i :: 0 <= i < |plate| ==> IsPlateChar(plate[i])
    ensures Normalize(plate) == plate
  {
    if plate != "" {
      NormalizeFixes(plate[1..]);
      assert Upper(plate[0]) == plate[0];
      assert plate == [plate[0]] + plate[1..];
    }
  }

  /** Normalising works character by character: a letter gives its capital, a digit itself, anything
      else nothing. */
  lemma NormalizeChar(c: char)
    ensures 'A' <= c <= 'Z' || '0' <= c <= '9' ==> Normalize([c]) == [c]
    ensures 'a' <= c <= 'z' ==> Normalize([c]) == [c - 'a' + 'A']
    ensures !('A' <= c <= 'Z') && !('0' <= c <= '9') && !('a' <= c <= 'z') ==> Normalize([c]) == ""
  {
    assert [c][1..] == "";
  }

  lemma {:induction false} NormalizeJoin(a: string, b: string)
    ensures Normalize(a + b) == Normalize(a) + Normalize(b)
  {
    if a == "" {
      assert a + b == b;
    } else {
      assert (a + b)[1..] == a[1..] + b;
      NormalizeJoin(a[1..], b);
    }
  }

  lemma NormalizeIdempotent(plate: string)
    ensures Normalize(Normalize(plate)) == Normalize(plate)
  {
    NormalizeFixes(Normalize(plate));
  }
}
