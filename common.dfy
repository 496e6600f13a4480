/** Small helpers shared by every module: the error-carrying wrappers, the
    time values handed in by the caller, and the row-level operations that a
    SQL statement performs on a table (SELECT ... WHERE, UPDATE ... WHERE). */
module Common {

  datatype Option<+T> = None | Some(value: T)

  datatype Result<+T, +E> = Success(value: T) | Failure(error: E)

  /** Seconds on a fixed time line. */
  type Instant = int

  /** A point in time as the clock reports it: its instant and its calendar
      year and month (1..12). The clock is a parameter of every operation. */
  datatype Moment = Moment(instant: Instant, year: int, month: int)

  /** Go's zero `time.Time`, 0001-01-01 00:00:00 UTC. */
  const ZeroTime: Moment := Moment(-62135596800, 1, 1)

  /** The rows of `s` that satisfy `p`, in table order. */
  function Filter<T(!new)>(s: seq<T>, p: T -> bool): (r: seq<T>)
    ensures |r| <= |s|
    ensures forall x {:trigger x in r} :: x in r <==> x in s && p(x)
  {
    if s == [] then [] else (if p(s[0]) then [s[0]] else []) + Filter(s[1..], p)
  }

  /** Every row, with those satisfying `p` rewritten by `f`. */
  function UpdateWhere<T>(s: seq<T>, p: T -> bool, f: T -> T): (r: seq<T>)
    ensures |r| == |s|
    ensures forall i :: 0 <= i < |s| ==> r[i] == if p(s[i]) then f(s[i]) else s[i]
  {
    seq(|s|, i requires 0 <= i < |s| => if p(s[i]) then f(s[i]) else s[i])
  }

  lemma {:induction false} FilterAppend<T(!new)>(s: seq<T>, t: seq<T>, p: T -> bool)
    ensures Filter(s + t, p) == Filter(s, p) + Filter(t, p)
  {
    if s != [] {
      assert (s + t)[1..] == s[1..] + t;
      FilterAppend(s[1..], t, p);
    } else {
      assert s + t == t;
    }
  }

  lemma {:induction false} FilterNone<T(!new)>(s: seq<T>, p: T -> bool)
    requires forall x :: x in s ==> !p(x)
    ensures Filter(s, p) == []
  {
    if s != [] {
      FilterNone(s[1..], p);
    }
  }

  lemma {:induction false} FilterAll<T(!new)>(s: seq<T>, p: T -> bool)
    requires forall x :: x in s ==> p(x)
    ensures Filter(s, p) == s
  {
    if s != [] {
      FilterAll(s[1..], p);
    }
  }

  /** For a narrower condition `q`, keeping as many rows as `p` keeps means
      that every row kept by `p` also satisfies `q`. This is the fact behind
      every "totalRequired == totalApproved" count comparison. */
  lemma {:induction false} NarrowerFilterSameSize<T(!new)>(s: seq<T>, p: T -> bool, q: T -> bool)
    requires forall x :: q(x) ==> p(x)
    ensures |Filter(s, q)| <= |Filter(s, p)|
    ensures |Filter(s, q)| == |Filter(s, p)| <==> forall x :: x in s && p(x) ==> q(x)
  {
    if s != [] {
      NarrowerFilterSameSize(s[1..], p, q);
      assert forall x :: x in s <==> x == s[0] || x in s[1..];
    }
  }

  /** Appending one row to a table appends it to every selection it meets. */
  lemma FilterSnoc<T(!new)>(s: seq<T>, x: T, p: T -> bool)
    ensures Filter(s + [x], p) == Filter(s, p) + (if p(x) then [x] else [])
  {
    FilterAppend(s, [x], p);
  }

  /** Selecting by a narrower condition from an already selected set of
      rows is selecting by the narrower condition from the whole table. */
  lemma {:induction false} FilterOfFilter<T(!new)>(s: seq<T>, p: T -> bool, q: T -> bool)
    requires forall x :: q(x) ==> p(x)
    ensures Filter(Filter(s, p), q) == Filter(s, q)
  {
    if s != [] {
      FilterOfFilter(s[1..], p, q);
      var rest := Filter(s[1..], p);
      if p(s[0]) {
        assert Filter(s, p) == [s[0]] + rest;
        assert ([s[0]] + rest)[1..] == rest;
      } else {
        assert Filter(s, p) == rest;
      }
    }
  }

  /** The map that a Go loop `m[key(x)] = val(x)` over `rows` leaves
      behind: where several rows share a key, the last one wins. */
  function IndexLast<T(!new), K, V>(rows: seq<T>, key: T -> K, val: T -> V): (m: map<K, V>)
    ensures forall k :: k in m ==> exists x :: x in rows && key(x) == k
    ensures forall x :: x in rows ==> key(x) in m
  {
    if rows == [] then map[]
    else
      var prefix := rows[..|rows| - 1];
      assert forall x :: x in rows <==> x in prefix || x == rows[|rows| - 1];
      IndexLast(prefix, key, val)[key(rows[|rows| - 1]) := val(rows[|rows| - 1])]
  }

  /** One more iteration of the map-building loop. */
  lemma IndexLastSnoc<T(!new), K, V>(rows: seq<T>, x: T, key: T -> K, val: T -> V)
    ensures IndexLast(rows + [x], key, val) == IndexLast(rows, key, val)[key(x) := val(x)]
  {
    assert (rows + [x])[..|rows|] == rows;
  }

  /** A Go map read `m[k]`: the value type's zero value for a missing key. */
  function Lookup<K, V>(m: map<K, V>, k: K, zero: V): (v: V)
    ensures k in m ==> v == m[k]
    ensures k !in m ==> v == zero
  {
    if k in m then m[k] else zero
  }

  /** When every row holding `x`'s key agrees with `x` on the value, the
      map built by the loop holds `x`'s value under that key. */
  lemma {:induction false} IndexLastAgrees<T(!new), K, V>(rows: seq<T>, key: T -> K, val: T -> V, x: T)
    requires x in rows
    requires forall y :: y in rows && key(y) == key(x) ==> val(y) == val(x)
    ensures key(x) in IndexLast(rows, key, val) && IndexLast(rows, key, val)[key(x)] == val(x)
  {
    var last := rows[|rows| - 1];
    var prefix := rows[..|rows| - 1];
    assert rows == prefix + [last];
    if key(last) != key(x) {
      assert x in prefix;
      IndexLastAgrees(prefix, key, val, x);
    }
  }

  /** Rows that no row satisfies are left alone by an update. */
  lemma UpdateNothing<T>(s: seq<T>, p: T -> bool, f: T -> T)
    requires forall x :: x in s ==> !p(x)
    ensures UpdateWhere(s, p, f) == s
  {
  }
}
