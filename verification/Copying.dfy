/** Copying upwards, one element at a time, within one sequence: memcpy and the loops of the
    boot loader.  The two ranges may overlap.
 */
module Copying {
  function ForwardCopy<T>(m: seq<T>, source: nat, destination: nat, n: nat): (r: seq<T>)
    requires source + n <= |m| && destination + n <= |m|
    ensures |r| == |m|
  {
    if n == 0 then m
    else
      var r := ForwardCopy(m, source, destination, n - 1);
      r[destination + n - 1 := r[source + n - 1]]
  }

  /** m' is m with count elements moved intact. */
  ghost predicate IsMove<T>(m: seq<T>, m': seq<T>, source: int, destination: int, count: int) {
    && |m| == |m'| && 0 <= source && source + count <= |m|
    && (forall i :: destination <= i < destination + count && 0 <= i < |m| ==> m'[i] == m[i - destination + source])
    && (forall i :: 0 <= i < |m| && !(destination <= i < destination + count) ==> m'[i] == m[i])
  }

  lemma CopyStep<T>(m: seq<T>, source: nat, destination: nat, n: nat)
    requires source + n < |m| && destination + n < |m|
    ensures ForwardCopy(m, source, destination, 0) == m
    ensures var r := ForwardCopy(m, source, destination, n);
      ForwardCopy(m, source, destination, n + 1) == r[destination + n := r[source + n]]
  {
  }

  /** Moving down, or clear of itself, a range arrives intact. */
  lemma {:induction false} MovesIntact<T>(m: seq<T>, source: nat, destination: nat, n: nat)
    requires source + n <= |m| && destination + n <= |m|
    requires destination <= source || source + n <= destination
    ensures IsMove(m, ForwardCopy(m, source, destination, n), source, destination, n)
  {
    if n > 0 {
      MovesIntact(m, source, destination, n - 1);
    }
  }

  predicate Repeats<T(==)>(r: seq<T>, i: int, period: int) {
    0 <= i < |r| && 0 <= i - period < |r| && r[i] == r[i - period]
  }

  /** Moving up within itself, the copy repeats the elements it started from. */
  lemma {:induction false} MovesPeriodic<T>(m: seq<T>, source: nat, destination: nat, n: nat, period: int)
    requires source + n <= |m| && destination + n <= |m| && source < destination && period == destination - source
    ensures forall i :: 0 <= i < destination ==> ForwardCopy(m, source, destination, n)[i] == m[i]
    ensures forall i :: destination <= i < destination + n ==> Repeats(ForwardCopy(m, source, destination, n), i, period)
  {
    if n > 0 {
      MovesPeriodic(m, source, destination, n - 1, period);
      var f := ForwardCopy(m, source, destination, n - 1);
      var r := ForwardCopy(m, source, destination, n);
      assert r == f[destination + n - 1 := f[source + n - 1]];
      forall i | destination <= i < destination + n ensures Repeats(r, i, period) {
        assert i < destination + n - 1 ==> Repeats(f, i, period);
      }
    }
  }

  lemma NotIntact<T>(m: seq<T>, source: nat, destination: nat, n: nat)
    requires source + n <= |m| && destination + n <= |m|
    requires source < destination < source + n && m[source] != m[destination]
    ensures !IsMove(m, ForwardCopy(m, source, destination, n), source, destination, n)
  {
    hide ForwardCopy;
    MovesPeriodic(m, source, destination, n, destination - source);
    var (r, i) := (ForwardCopy(m, source, destination, n), 2 * destination - source);
    assert Repeats(r, i, destination - source) && Repeats(r, destination, destination - source);
  }

  /** A range of any contents arrives intact if and only if its destination is not strictly
      inside it. */
  lemma MovesIntactIff<T(!new)>(size: nat, source: nat, destination: nat, n: nat, x: T, y: T)
    requires source + n <= size && destination + n <= size && x != y
    ensures (forall m: seq<T> :: |m| == size ==> IsMove(m, ForwardCopy(m, source, destination, n), source, destination, n))
       <==> destination <= source || source + n <= destination
  {
    hide IsMove, ForwardCopy;
    if destination <= source || source + n <= destination {
      forall m: seq<T> | |m| == size ensures IsMove(m, ForwardCopy(m, source, destination, n), source, destination, n) {
        MovesIntact(m, source, destination, n);
      }
    } else {
      var m := seq(size, i => if i == destination then x else y);
      NotIntact(m, source, destination, n);
    }
  }
}
