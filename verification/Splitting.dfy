/** Finding and splitting at a delimiter that cannot overlap itself. */
module Splitting {
  import opened Wrappers

  predicate OccursAt<T(==)>(d: seq<T>, t: seq<T>, i: nat) {
    i + |d| <= |t| && t[i..i + |d|] == d
  }

  ghost predicate Absent<T>(d: seq<T>, t: seq<T>) {
    forall i: nat :: i <= |t| ==> !OccursAt(d, t, i)
  }

  /** The first element recurs nowhere in the delimiter. */
  predicate NoOverlap<T(==)>(d: seq<T>) {
    d != [] && d[0] !in d[1..]
  }

  /** The first place `d` occurs. */
  function Find<T(==)>(d: seq<T>, t: seq<T>): (r: Option<nat>)
    ensures r.Some? ==> OccursAt(d, t, r.value) && forall i: nat :: i < r.value ==> !OccursAt(d, t, i)
    ensures r.None? <==> Absent(d, t)
  {
    FindFrom(d, t, 0)
  }

  function FindFrom<T(==)>(d: seq<T>, t: seq<T>, start: nat): (r: Option<nat>)
    requires start <= |t|
    ensures r.Some? ==> start <= r.value && OccursAt(d, t, r.value)
    ensures r.Some? ==> forall i: nat :: start <= i < r.value ==> !OccursAt(d, t, i)
    ensures r.None? ==> forall i: nat :: start <= i <= |t| ==> !OccursAt(d, t, i)
    decreases |t| - start
  {
    if OccursAt(d, t, start) then Some(start)
    else if start == |t| then None
    else FindFrom(d, t, start + 1)
  }

  /** An occurrence cannot start in `x` and run into a delimiter behind it. */
  lemma FindAfter<T>(d: seq<T>, x: seq<T>, y: seq<T>)
    requires NoOverlap(d) && Absent(d, x)
    ensures Find(d, x + (d + y)) == Some(|x|)
  {
    var t := x + (d + y);
    assert t[|x|..|x| + |d|] == d;
    assert OccursAt(d, t, |x|);
    forall i: nat | i < |x| ensures !OccursAt(d, t, i) {
      if i + |d| <= |x| {
        assert !OccursAt(d, x, i);
        assert x[i..i + |d|] == t[i..i + |d|];
      } else if i + |d| <= |t| {
        var k := |x| - i;
        assert d[1..][k - 1] == d[k];
        assert t[i..i + |d|][k] == t[|x|] == d[0];
      }
    }
    assert !Absent(d, t);
  }

  lemma CutAt<T>(d: seq<T>, x: seq<T>, y: seq<T>)
    ensures var t := x + (d + y); t[..|x|] == x && t[|x| + |d|..] == y
  {
  }

  /** The pieces between successive occurrences of `d`. */
  function Split<T(==)>(d: seq<T>, t: seq<T>): (pieces: seq<seq<T>>)
    requires d != []
    ensures pieces != []
    decreases |t|
  {
    match Find(d, t)
    case None => [t]
    case Some(i) => [t[..i]] + Split(d, t[i + |d|..])
  }

  function Join<T>(d: seq<T>, pieces: seq<seq<T>>): seq<T>
    requires pieces != []
  {
    if |pieces| == 1 then pieces[0] else pieces[0] + (d + Join(d, pieces[1..]))
  }

  ghost predicate AllAbsent<T>(d: seq<T>, pieces: seq<seq<T>>) {
    forall i :: 0 <= i < |pieces| ==> Absent(d, pieces[i])
  }

  /** Pieces without the delimiter come back from the joined text. */
  lemma {:induction false} SplitJoin<T>(d: seq<T>, pieces: seq<seq<T>>)
    requires NoOverlap(d) && pieces != [] && AllAbsent(d, pieces)
    ensures Split(d, Join(d, pieces)) == pieces
    decreases |pieces|
  {
    assert Absent(d, pieces[0]);
    if |pieces| > 1 {
      var rest := Join(d, pieces[1..]);
      FindAfter(d, pieces[0], rest);
      CutAt(d, pieces[0], rest);
      SplitJoin(d, pieces[1..]);
    }
  }

  lemma AbsentBefore<T>(d: seq<T>, t: seq<T>, i: nat)
    requires d != [] && i <= |t|
    requires forall j: nat :: j < i ==> !OccursAt(d, t, j)
    ensures Absent(d, t[..i])
  {
    forall j: nat | j <= i ensures !OccursAt(d, t[..i], j) {
      if j + |d| <= i {
        assert j < i && !OccursAt(d, t, j);
        assert t[..i][j..j + |d|] == t[j..j + |d|];
      }
    }
  }

  lemma {:induction false} JoinSplit<T>(d: seq<T>, t: seq<T>)
    requires d != []
    ensures Join(d, Split(d, t)) == t
    ensures AllAbsent(d, Split(d, t))
    decreases |t|
  {
    match Find(d, t)
    case None =>
    case Some(i) =>
      var rest := t[i + |d|..];
      JoinSplit(d, rest);
      var pieces := Split(d, t);
      assert pieces[1..] == Split(d, rest);
      assert t == t[..i] + (t[i..i + |d|] + rest);
      AbsentBefore(d, t, i);
      forall k | 0 <= k < |pieces| ensures Absent(d, pieces[k]) {
        if k > 0 {
          assert pieces[k] == Split(d, rest)[k - 1];
        }
      }
  }
}
