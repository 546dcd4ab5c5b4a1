/** Compressed row storage as values: the three parallel arrays of the
    sparse matrix, the storage invariant, the cell each stored form denotes,
    and the effect of the two splicing primitives (insert and remove) and of
    `set` on the arrays.

    Conventions are those of the header: rows are numbered 1..m and columns
    1..n; `rows` has m + 1 pointers with rows[0] == 1 and rows[m] == nnz + 1;
    row r occupies the 0-based positions rows[r-1]-1 .. rows[r]-1 of `cols`
    and `vals`, and `cols` holds 1-based column numbers. */
module Crs {
  import Dense

  /** The row pointers, column numbers and values. An array that the matrix
      has not allocated yet is an empty sequence here; whether it is present
      is tracked by the matrix object. */
  datatype Storage = Storage(rows: seq<nat>, cols: seq<nat>, vals: seq<int>)

  /** Row pointers over `nnz` stored entries: start at 1, end at nnz + 1,
      never decrease. */
  ghost predicate PointersOk(rows: seq<nat>, nnz: nat) {
    && |rows| >= 1
    && rows[0] == 1
    && rows[|rows| - 1] == nnz + 1
    && (forall i :: 0 <= i < |rows| ==> 1 <= rows[i])
    && (forall i, j :: 0 <= i <= j < |rows| ==> rows[i] <= rows[j])
  }

  /** The arrays fit together: as many values as column numbers, and
      consistent row pointers. */
  ghost predicate Shaped(s: Storage) {
    |s.cols| == |s.vals| && PointersOk(s.rows, |s.cols|)
  }

  /** First position of row r's slice. */
  function Lo(s: Storage, r: nat): nat
    requires Shaped(s) && 1 <= r < |s.rows|
  {
    s.rows[r - 1] - 1
  }

  /** One past the last position of row r's slice. */
  function Hi(s: Storage, r: nat): (h: nat)
    requires Shaped(s) && 1 <= r < |s.rows|
    ensures Lo(s, r) <= h <= |s.cols|
  {
    s.rows[r] - 1
  }

  function RowCols(s: Storage, r: nat): seq<nat>
    requires Shaped(s) && 1 <= r < |s.rows|
  {
    s.cols[Lo(s, r)..Hi(s, r)]
  }

  function RowVals(s: Storage, r: nat): seq<int>
    requires Shaped(s) && 1 <= r < |s.rows|
  {
    s.vals[Lo(s, r)..Hi(s, r)]
  }

  ghost predicate Increasing(cs: seq<nat>) {
    forall i, j :: 0 <= i < j < |cs| ==> cs[i] < cs[j]
  }

  /** The storage invariant of an m x n matrix: consistent row pointers,
      each row's column numbers strictly increasing and within 1..n, no
      stored zero, and as many values as column numbers. */
  ghost predicate Valid(s: Storage, m: nat, n: nat) {
    && 1 <= m && 1 <= n
    && |s.rows| == m + 1
    && Shaped(s)
    && (forall r :: 1 <= r <= m ==> Increasing(RowCols(s, r)))
    && (forall k :: 0 <= k < |s.cols| ==> 1 <= s.cols[k] <= n)
    && (forall k :: 0 <= k < |s.vals| ==> s.vals[k] != 0)
  }

  /** The value paired with the first occurrence of column c, or zero. */
  function Find(cs: seq<nat>, vs: seq<int>, c: nat): int
    requires |cs| == |vs|
  {
    if |cs| == 0 then 0 else if cs[0] == c then vs[0] else Find(cs[1..], vs[1..], c)
  }

  /** The value a stored form denotes at row r, column c. */
  ghost function Cell(s: Storage, r: nat, c: nat): int
    requires Shaped(s) && 1 <= r < |s.rows|
  {
    Find(RowCols(s, r), RowVals(s, r), c)
  }

  /** The dense m x n matrix a stored form denotes (0-based indices). */
  ghost function DenseOf(s: Storage, m: nat, n: nat): seq<seq<int>>
    requires Shaped(s) && |s.rows| == m + 1
  {
    seq(m, i requires 0 <= i < m => seq(n, j requires 0 <= j < n => Cell(s, i + 1, j + 1)))
  }

  /** The storage of a freshly constructed matrix with m rows. */
  function Empty(m: nat): Storage {
    Storage(seq(m + 1, _ => 1), [], [])
  }

  // ---------------------------------------------------------------------
  // Splicing primitives on sequences

  function InsertAt<X>(s: seq<X>, i: nat, x: X): (r: seq<X>)
    requires i <= |s|
    ensures |r| == |s| + 1
    ensures forall k :: 0 <= k < |r| ==> r[k] == if k < i then s[k] else if k == i then x else s[k - 1]
  {
    s[..i] + [x] + s[i..]
  }

  function RemoveAt<X>(s: seq<X>, i: nat): (r: seq<X>)
    requires i < |s|
    ensures |r| == |s| - 1
    ensures forall k :: 0 <= k < |r| ==> r[k] == if k < i then s[k] else s[k + 1]
  {
    s[..i] + s[i + 1..]
  }

  /** Every pointer at index `row` or later, plus one. */
  function BumpUp(rows: seq<nat>, row: nat): seq<nat> {
    seq(|rows|, i requires 0 <= i < |rows| => if i >= row then rows[i] + 1 else rows[i])
  }

  /** Every pointer at index `row` or later, minus one. */
  function BumpDown(rows: seq<nat>, row: nat): seq<nat>
    requires forall i :: row <= i < |rows| ==> 1 <= rows[i]
  {
    seq(|rows|, i requires 0 <= i < |rows| => if i >= row then rows[i] - 1 else rows[i])
  }

  /** The insert primitive: splice (col, val) in at position `index` and
      shift the pointers after row `row` up by one. */
  function Insert(s: Storage, index: nat, row: nat, col: nat, val: int): Storage
    requires index <= |s.cols| && index <= |s.vals|
  {
    Storage(BumpUp(s.rows, row), InsertAt(s.cols, index, col), InsertAt(s.vals, index, val))
  }

  /** The remove primitive: cut the pair at position `index` and shift the
      pointers after row `row` down by one. */
  function Remove(s: Storage, index: nat, row: nat): Storage
    requires index < |s.cols| && index < |s.vals|
    requires forall i :: row <= i < |s.rows| ==> 1 <= s.rows[i]
  {
    Storage(BumpDown(s.rows, row), RemoveAt(s.cols, index), RemoveAt(s.vals, index))
  }

  /** Length of the leading run of column numbers below c. */
  function LeadBelow(cs: seq<nat>, c: nat): (k: nat)
    ensures k <= |cs|
    ensures forall i :: 0 <= i < k ==> cs[i] < c
    ensures k < |cs| ==> c <= cs[k]
  {
    if |cs| == 0 || c <= cs[0] then 0 else 1 + LeadBelow(cs[1..], c)
  }

  /** Where `set` stops scanning row r for column c: the first position of
      the slice whose column is at least c, or the end of the slice. */
  function Position(s: Storage, r: nat, c: nat): (pos: nat)
    requires Shaped(s) && 1 <= r < |s.rows|
    ensures Lo(s, r) <= pos <= Hi(s, r)
  {
    Lo(s, r) + LeadBelow(RowCols(s, r), c)
  }

  /** The storage after `set(v, r, c)`: overwrite or remove a stored pair
      for column c, or insert one, or leave the arrays alone. */
  function SetEntry(s: Storage, r: nat, c: nat, v: int): Storage
    requires Shaped(s) && 1 <= r < |s.rows|
  {
    var pos := Position(s, r, c);
    if pos < Hi(s, r) && s.cols[pos] == c then
      if v == 0 then Remove(s, pos, r) else Storage(s.rows, s.cols, s.vals[pos := v])
    else if v == 0 then s
    else Insert(s, pos, r, c, v)
  }

  /** Entry c of x, counting from 1; a column outside x weighs nothing
      (a valid matrix never stores one when it has as many columns as x
      has entries). */
  ghost function Weight(x: seq<int>, c: nat): int {
    if 1 <= c <= |x| then x[c - 1] else 0
  }

  /** The sum over row r's stored pairs of val * x[col - 1]. */
  ghost function RowProduct(cs: seq<nat>, vs: seq<int>, x: seq<int>): int
    requires |cs| == |vs|
    decreases |cs|
  {
    if |cs| == 0 then 0
    else RowProduct(cs[..|cs| - 1], vs[..|vs| - 1], x) + vs[|vs| - 1] * Weight(x, cs[|cs| - 1])
  }

  // ---------------------------------------------------------------------
  // Lookup within one row

  /** A column that does not occur reads as zero. */
  lemma {:induction false} FindAbsent(cs: seq<nat>, vs: seq<int>, c: nat)
    requires |cs| == |vs| && c !in cs
    ensures Find(cs, vs, c) == 0
  {
    if |cs| > 0 {
      assert c !in cs[1..];
      FindAbsent(cs[1..], vs[1..], c);
    }
  }

  /** In a strictly increasing row, the column at index k reads as the value
      at index k. */
  lemma {:induction false} FindAt(cs: seq<nat>, vs: seq<int>, k: nat)
    requires |cs| == |vs| && Increasing(cs) && k < |cs|
    ensures Find(cs, vs, cs[k]) == vs[k]
  {
    if k > 0 {
      assert cs[0] < cs[k];
      assert cs[1..][k - 1] == cs[k];
      FindAt(cs[1..], vs[1..], k - 1);
    }
  }

  /** Splicing (c, v) in at index k, after a prefix of smaller columns:
      column c now reads v and every other column reads as before. */
  lemma {:induction false} FindInsert(cs: seq<nat>, vs: seq<int>, k: nat, c: nat, v: int, x: nat)
    requires |cs| == |vs| && k <= |cs|
    requires forall i :: 0 <= i < k ==> cs[i] < c
    ensures Find(InsertAt(cs, k, c), InsertAt(vs, k, v), x) == if x == c then v else Find(cs, vs, x)
  {
    var cs', vs' := InsertAt(cs, k, c), InsertAt(vs, k, v);
    if k == 0 {
      assert cs'[1..] == cs && vs'[1..] == vs;
    } else {
      assert cs'[0] == cs[0] && vs'[0] == vs[0];
      assert cs'[1..] == InsertAt(cs[1..], k - 1, c);
      assert vs'[1..] == InsertAt(vs[1..], k - 1, v);
      if cs[0] != x {
        FindInsert(cs[1..], vs[1..], k - 1, c, v, x);
      }
    }
  }

  /** Cutting index k out of a strictly increasing row: its column now reads
      zero and every other column reads as before. */
  lemma {:induction false} FindRemove(cs: seq<nat>, vs: seq<int>, k: nat, x: nat)
    requires |cs| == |vs| && Increasing(cs) && k < |cs|
    ensures Find(RemoveAt(cs, k), RemoveAt(vs, k), x) == if x == cs[k] then 0 else Find(cs, vs, x)
  {
    var cs', vs' := RemoveAt(cs, k), RemoveAt(vs, k);
    if k == 0 {
      assert cs' == cs[1..] && vs' == vs[1..];
      if x == cs[0] {
        assert forall i :: 0 <= i < |cs'| ==> cs'[i] != x by {
          forall i | 0 <= i < |cs'| ensures cs'[i] != x {
            assert cs'[i] == cs[i + 1];
          }
        }
        FindAbsent(cs', vs', x);
      }
    } else {
      assert cs'[0] == cs[0] && vs'[0] == vs[0];
      assert cs'[1..] == RemoveAt(cs[1..], k - 1);
      assert vs'[1..] == RemoveAt(vs[1..], k - 1);
      if cs[0] != x {
        assert cs[1..][k - 1] == cs[k];
        FindRemove(cs[1..], vs[1..], k - 1, x);
      } else {
        assert cs[0] < cs[k];
      }
    }
  }

  /** Overwriting the value at index k of a strictly increasing row. */
  lemma {:induction false} FindUpdate(cs: seq<nat>, vs: seq<int>, k: nat, v: int, x: nat)
    requires |cs| == |vs| && Increasing(cs) && k < |cs|
    ensures Find(cs, vs[k := v], x) == if x == cs[k] then v else Find(cs, vs, x)
  {
    if k > 0 {
      assert vs[k := v][1..] == vs[1..][k - 1 := v];
      if cs[0] != x {
        assert cs[1..][k - 1] == cs[k];
        FindUpdate(cs[1..], vs[1..], k - 1, v, x);
      } else {
        assert cs[0] < cs[k];
      }
    }
  }

  /** Appending a pair whose column is new adds exactly that cell. */
  lemma {:induction false} FindSnoc(cs: seq<nat>, vs: seq<int>, c: nat, v: int, x: nat)
    requires |cs| == |vs| && c !in cs
    ensures Find(cs + [c], vs + [v], x) == Find(cs, vs, x) + (if x == c then v else 0)
  {
    if |cs| == 0 {
      if x != c {
        assert (cs + [c])[1..] == [];
      }
    } else {
      assert (cs + [c])[1..] == cs[1..] + [c];
      assert (vs + [v])[1..] == vs[1..] + [v];
      if cs[0] == x {
        assert x != c;
      } else {
        FindSnoc(cs[1..], vs[1..], c, v, x);
      }
    }
  }

  /** Two strictly increasing rows without stored zeros that read the same
      at every column are the same row. */
  lemma {:induction false} FindDetermines(cs1: seq<nat>, vs1: seq<int>, cs2: seq<nat>, vs2: seq<int>)
    requires |cs1| == |vs1| && |cs2| == |vs2| && Increasing(cs1) && Increasing(cs2)
    requires forall k :: 0 <= k < |vs1| ==> vs1[k] != 0
    requires forall k :: 0 <= k < |vs2| ==> vs2[k] != 0
    requires forall c :: Find(cs1, vs1, c) == Find(cs2, vs2, c)
    ensures cs1 == cs2 && vs1 == vs2
    decreases |cs1| + |cs2|
  {
    if |cs1| == 0 && |cs2| == 0 {
    } else if |cs1| == 0 {
      assert Find(cs2, vs2, cs2[0]) == vs2[0];
    } else if |cs2| == 0 {
      assert Find(cs1, vs1, cs1[0]) == vs1[0];
    } else {
      var h1, h2 := cs1[0], cs2[0];
      assert Find(cs1, vs1, h1) == vs1[0];
      if h1 !in cs2 {
        FindAbsent(cs2, vs2, h1);
        assert false;
      }
      assert Find(cs2, vs2, h2) == vs2[0];
      if h2 !in cs1 {
        FindAbsent(cs1, vs1, h2);
        assert false;
      }
      assert h1 <= h2 by {
        var k :| 0 <= k < |cs1| && cs1[k] == h2;
      }
      assert h2 <= h1 by {
        var k :| 0 <= k < |cs2| && cs2[k] == h1;
      }
      forall c ensures Find(cs1[1..], vs1[1..], c) == Find(cs2[1..], vs2[1..], c) {
        if c == h1 {
          assert c !in cs1[1..] by {
            forall i | 0 <= i < |cs1| - 1 ensures cs1[1..][i] != c {
              assert cs1[1..][i] == cs1[i + 1];
            }
          }
          assert c !in cs2[1..] by {
            forall i | 0 <= i < |cs2| - 1 ensures cs2[1..][i] != c {
              assert cs2[1..][i] == cs2[i + 1];
            }
          }
          FindAbsent(cs1[1..], vs1[1..], c);
          FindAbsent(cs2[1..], vs2[1..], c);
        } else {
          assert Find(cs1, vs1, c) == Find(cs1[1..], vs1[1..], c);
          assert Find(cs2, vs2, c) == Find(cs2[1..], vs2[1..], c);
        }
      }
      FindDetermines(cs1[1..], vs1[1..], cs2[1..], vs2[1..]);
      assert cs1 == [h1] + cs1[1..] && cs2 == [h2] + cs2[1..];
      assert vs1 == [vs1[0]] + vs1[1..] && vs2 == [vs2[0]] + vs2[1..];
    }
  }

  // ---------------------------------------------------------------------
  // Slices of spliced sequences

  lemma InsertAtBefore<X>(s: seq<X>, i: nat, x: X, lo: nat, hi: nat)
    requires lo <= hi <= i <= |s|
    ensures InsertAt(s, i, x)[lo..hi] == s[lo..hi]
  {
    var t := InsertAt(s, i, x);
    forall k | 0 <= k < hi - lo ensures t[lo..hi][k] == s[lo..hi][k] {
      assert t[lo..hi][k] == t[lo + k];
    }
  }

  lemma InsertAtAfter<X>(s: seq<X>, i: nat, x: X, lo: nat, hi: nat)
    requires i <= lo <= hi <= |s|
    ensures InsertAt(s, i, x)[lo + 1..hi + 1] == s[lo..hi]
  {
    var t := InsertAt(s, i, x);
    forall k | 0 <= k < hi - lo ensures t[lo + 1..hi + 1][k] == s[lo..hi][k] {
      assert t[lo + 1..hi + 1][k] == t[lo + 1 + k];
    }
  }

  lemma InsertAtWithin<X>(s: seq<X>, i: nat, x: X, lo: nat, hi: nat)
    requires lo <= i <= hi <= |s|
    ensures InsertAt(s, i, x)[lo..hi + 1] == InsertAt(s[lo..hi], i - lo, x)
  {
    var t := InsertAt(s, i, x);
    var u, w := t[lo..hi + 1], InsertAt(s[lo..hi], i - lo, x);
    forall k | 0 <= k < |w| ensures u[k] == w[k] {
      assert u[k] == t[lo + k];
    }
  }

  lemma RemoveAtBefore<X>(s: seq<X>, i: nat, lo: nat, hi: nat)
    requires lo <= hi <= i < |s|
    ensures RemoveAt(s, i)[lo..hi] == s[lo..hi]
  {
    var t := RemoveAt(s, i);
    forall k | 0 <= k < hi - lo ensures t[lo..hi][k] == s[lo..hi][k] {
      assert t[lo..hi][k] == t[lo + k];
    }
  }

  lemma RemoveAtAfter<X>(s: seq<X>, i: nat, lo: nat, hi: nat)
    requires i < lo <= hi <= |s|
    ensures RemoveAt(s, i)[lo - 1..hi - 1] == s[lo..hi]
  {
    var t := RemoveAt(s, i);
    forall k | 0 <= k < hi - lo ensures t[lo - 1..hi - 1][k] == s[lo..hi][k] {
      assert t[lo - 1..hi - 1][k] == t[lo - 1 + k];
    }
  }

  lemma RemoveAtWithin<X>(s: seq<X>, i: nat, lo: nat, hi: nat)
    requires lo <= i < hi <= |s|
    ensures RemoveAt(s, i)[lo..hi - 1] == RemoveAt(s[lo..hi], i - lo)
  {
    var t := RemoveAt(s, i);
    var u, w := t[lo..hi - 1], RemoveAt(s[lo..hi], i - lo);
    forall k | 0 <= k < |w| ensures u[k] == w[k] {
      assert u[k] == t[lo + k];
    }
  }

  lemma UpdateOutside<X>(s: seq<X>, i: nat, x: X, lo: nat, hi: nat)
    requires lo <= hi <= |s| && i < |s| && (i < lo || hi <= i)
    ensures s[i := x][lo..hi] == s[lo..hi]
  {
    forall k | 0 <= k < hi - lo ensures s[i := x][lo..hi][k] == s[lo..hi][k] {
      assert s[i := x][lo..hi][k] == s[i := x][lo + k];
    }
  }

  lemma UpdateWithin<X>(s: seq<X>, i: nat, x: X, lo: nat, hi: nat)
    requires lo <= i < hi <= |s|
    ensures s[i := x][lo..hi] == s[lo..hi][i - lo := x]
  {
    var u, w := s[i := x][lo..hi], s[lo..hi][i - lo := x];
    forall k | 0 <= k < |w| ensures u[k] == w[k] {
      assert u[k] == s[i := x][lo + k];
    }
  }

  // ---------------------------------------------------------------------
  // How the primitives act on the row slices

  /** Inserting at a position of row r's slice keeps the arrays consistent
      and moves the slice bounds of the other rows only past row r. */
  lemma InsertShaped(s: Storage, r: nat, pos: nat, c: nat, v: int)
    requires Shaped(s) && 1 <= r < |s.rows| && Lo(s, r) <= pos <= Hi(s, r)
    ensures var t := Insert(s, pos, r, c, v);
      && Shaped(t) && |t.rows| == |s.rows| && |t.cols| == |s.cols| + 1
      && (forall q :: 1 <= q < r ==> Lo(t, q) == Lo(s, q) && Hi(t, q) == Hi(s, q) <= pos)
      && Lo(t, r) == Lo(s, r) && Hi(t, r) == Hi(s, r) + 1
      && (forall q :: r < q < |s.rows| ==> Lo(t, q) == Lo(s, q) + 1 && Hi(t, q) == Hi(s, q) + 1 && pos <= Lo(s, q))
  {
    var t := Insert(s, pos, r, c, v);
    assert t.rows[0] == 1;
    assert t.rows[|s.rows| - 1] == |t.cols| + 1;
    forall q | 1 <= q < r ensures Hi(s, q) <= pos {
      assert s.rows[q] <= s.rows[r - 1];
    }
    forall q | r < q < |s.rows| ensures pos <= Lo(s, q) {
      assert s.rows[r] <= s.rows[q - 1];
    }
  }

  /** Inserting at a position of row r's slice puts the new pair into row
      r's slice at the same offset and leaves every other row's slice as it
      was. */
  lemma InsertRows(s: Storage, r: nat, pos: nat, c: nat, v: int)
    requires Shaped(s) && 1 <= r < |s.rows| && Lo(s, r) <= pos <= Hi(s, r)
    ensures var t := Insert(s, pos, r, c, v);
      && Shaped(t) && |t.rows| == |s.rows| && |t.cols| == |s.cols| + 1
      && Lo(t, r) == Lo(s, r)
      && RowCols(t, r) == InsertAt(RowCols(s, r), pos - Lo(s, r), c)
      && RowVals(t, r) == InsertAt(RowVals(s, r), pos - Lo(s, r), v)
      && forall q :: 1 <= q < |s.rows| && q != r ==>
           RowCols(t, q) == RowCols(s, q) && RowVals(t, q) == RowVals(s, q)
  {
    var t := Insert(s, pos, r, c, v);
    InsertSame(s, r, pos, c, v);
    forall q | 1 <= q < |s.rows| && q != r
      ensures RowCols(t, q) == RowCols(s, q) && RowVals(t, q) == RowVals(s, q)
    {
      InsertOther(s, r, pos, c, v, q);
    }
  }

  /** Inserting at a position of row r's slice puts the new pair into row
      r's slice at the same offset. */
  lemma InsertSame(s: Storage, r: nat, pos: nat, c: nat, v: int)
    requires Shaped(s) && 1 <= r < |s.rows| && Lo(s, r) <= pos <= Hi(s, r)
    ensures var t := Insert(s, pos, r, c, v);
      && Shaped(t) && |t.rows| == |s.rows| && |t.cols| == |s.cols| + 1
      && Lo(t, r) == Lo(s, r)
      && RowCols(t, r) == InsertAt(RowCols(s, r), pos - Lo(s, r), c)
      && RowVals(t, r) == InsertAt(RowVals(s, r), pos - Lo(s, r), v)
  {
    InsertShaped(s, r, pos, c, v);
    InsertAtWithin(s.cols, pos, c, Lo(s, r), Hi(s, r));
    InsertAtWithin(s.vals, pos, v, Lo(s, r), Hi(s, r));
  }

  /** Inserting into row r's slice leaves row q's slice, q != r, as it was. */
  lemma InsertOther(s: Storage, r: nat, pos: nat, c: nat, v: int, q: nat)
    requires Shaped(s) && 1 <= r < |s.rows| && Lo(s, r) <= pos <= Hi(s, r)
    requires 1 <= q < |s.rows| && q != r
    ensures var t := Insert(s, pos, r, c, v);
      Shaped(t) && |t.rows| == |s.rows| && RowCols(t, q) == RowCols(s, q) && RowVals(t, q) == RowVals(s, q)
  {
    InsertShaped(s, r, pos, c, v);
    if q < r {
      InsertAtBefore(s.cols, pos, c, Lo(s, q), Hi(s, q));
      InsertAtBefore(s.vals, pos, v, Lo(s, q), Hi(s, q));
    } else {
      InsertAtAfter(s.cols, pos, c, Lo(s, q), Hi(s, q));
      InsertAtAfter(s.vals, pos, v, Lo(s, q), Hi(s, q));
    }
  }

  /** Removing a position of row r's slice keeps the arrays consistent
      and moves the slice bounds of the other rows only past row r. */
  lemma RemoveShaped(s: Storage, r: nat, pos: nat)
    requires Shaped(s) && 1 <= r < |s.rows| && Lo(s, r) <= pos < Hi(s, r)
    ensures var t := Remove(s, pos, r);
      && Shaped(t) && |t.rows| == |s.rows| && |t.cols| + 1 == |s.cols|
      && (forall q :: 1 <= q < r ==> Lo(t, q) == Lo(s, q) && Hi(t, q) == Hi(s, q) <= pos)
      && Lo(t, r) == Lo(s, r) && Hi(t, r) + 1 == Hi(s, r)
      && (forall q :: r < q < |s.rows| ==> Lo(t, q) + 1 == Lo(s, q) && Hi(t, q) + 1 == Hi(s, q) && pos < Lo(s, q))
  {
    var t := Remove(s, pos, r);
    var last := |s.rows| - 1;
    assert t.rows[0] == 1;
    assert t.rows[last] == |t.cols| + 1;
    forall i | 0 <= i < |t.rows| ensures 1 <= t.rows[i] {
      if i >= r {
        assert s.rows[r] <= s.rows[i];
      }
    }
    forall i, j | 0 <= i <= j < |t.rows| ensures t.rows[i] <= t.rows[j] {
      if i < r <= j {
        assert s.rows[i] <= s.rows[r - 1] && s.rows[r] <= s.rows[j];
      }
    }
    forall q | 1 <= q < r ensures Hi(s, q) <= pos {
      assert s.rows[q] <= s.rows[r - 1];
    }
    forall q | r < q < |s.rows| ensures pos < Lo(s, q) {
      assert s.rows[r] <= s.rows[q - 1];
    }
  }

  /** Removing a position of row r's slice cuts it out of row r's slice
      and leaves every other row's slice as it was. */
  lemma RemoveRows(s: Storage, r: nat, pos: nat)
    requires Shaped(s) && 1 <= r < |s.rows| && Lo(s, r) <= pos < Hi(s, r)
    ensures var t := Remove(s, pos, r);
      && Shaped(t) && |t.rows| == |s.rows| && |t.cols| + 1 == |s.cols|
      && Lo(t, r) == Lo(s, r)
      && RowCols(t, r) == RemoveAt(RowCols(s, r), pos - Lo(s, r))
      && RowVals(t, r) == RemoveAt(RowVals(s, r), pos - Lo(s, r))
      && forall q :: 1 <= q < |s.rows| && q != r ==>
           RowCols(t, q) == RowCols(s, q) && RowVals(t, q) == RowVals(s, q)
  {
    var t := Remove(s, pos, r);
    RemoveSame(s, r, pos);
    forall q | 1 <= q < |s.rows| && q != r
      ensures RowCols(t, q) == RowCols(s, q) && RowVals(t, q) == RowVals(s, q)
    {
      RemoveOther(s, r, pos, q);
    }
  }

  /** Removing a position of row r's slice cuts it out of row r's slice. */
  lemma RemoveSame(s: Storage, r: nat, pos: nat)
    requires Shaped(s) && 1 <= r < |s.rows| && Lo(s, r) <= pos < Hi(s, r)
    ensures var t := Remove(s, pos, r);
      && Shaped(t) && |t.rows| == |s.rows| && |t.cols| + 1 == |s.cols|
      && Lo(t, r) == Lo(s, r)
      && RowCols(t, r) == RemoveAt(RowCols(s, r), pos - Lo(s, r))
      && RowVals(t, r) == RemoveAt(RowVals(s, r), pos - Lo(s, r))
  {
    RemoveShaped(s, r, pos);
    RemoveAtWithin(s.cols, pos, Lo(s, r), Hi(s, r));
    RemoveAtWithin(s.vals, pos, Lo(s, r), Hi(s, r));
  }

  /** Removing from row r's slice leaves row q's slice, q != r, as it was. */
  lemma RemoveOther(s: Storage, r: nat, pos: nat, q: nat)
    requires Shaped(s) && 1 <= r < |s.rows| && Lo(s, r) <= pos < Hi(s, r)
    requires 1 <= q < |s.rows| && q != r
    ensures var t := Remove(s, pos, r);
      Shaped(t) && |t.rows| == |s.rows| && RowCols(t, q) == RowCols(s, q) && RowVals(t, q) == RowVals(s, q)
  {
    RemoveShaped(s, r, pos);
    if q < r {
      RemoveAtBefore(s.cols, pos, Lo(s, q), Hi(s, q));
      RemoveAtBefore(s.vals, pos, Lo(s, q), Hi(s, q));
    } else {
      RemoveAtAfter(s.cols, pos, Lo(s, q), Hi(s, q));
      RemoveAtAfter(s.vals, pos, Lo(s, q), Hi(s, q));
    }
  }

  /** Overwriting a value of row r's slice changes only that row's values. */
  lemma UpdateRows(s: Storage, r: nat, pos: nat, v: int)
    requires Shaped(s) && 1 <= r < |s.rows| && Lo(s, r) <= pos < Hi(s, r)
    ensures var t := Storage(s.rows, s.cols, s.vals[pos := v]);
      && Shaped(t)
      && RowVals(t, r) == RowVals(s, r)[pos - Lo(s, r) := v]
      && (forall q :: 1 <= q < |s.rows| ==> RowCols(t, q) == RowCols(s, q))
      && (forall q :: 1 <= q < |s.rows| && q != r ==> RowVals(t, q) == RowVals(s, q))
  {
    var t := Storage(s.rows, s.cols, s.vals[pos := v]);
    UpdateWithin(s.vals, pos, v, Lo(s, r), Hi(s, r));
    forall q | 1 <= q < |s.rows| && q != r ensures RowVals(t, q) == RowVals(s, q) {
      if q < r {
        assert s.rows[q] <= s.rows[r - 1];
      } else {
        assert s.rows[r] <= s.rows[q - 1];
      }
      UpdateOutside(s.vals, pos, v, Lo(s, q), Hi(s, q));
    }
  }

  // ---------------------------------------------------------------------
  // Sortedness of spliced rows

  lemma IncreasingInsert(cs: seq<nat>, k: nat, c: nat)
    requires Increasing(cs) && k <= |cs|
    requires forall i :: 0 <= i < k ==> cs[i] < c
    requires forall i :: k <= i < |cs| ==> c < cs[i]
    ensures Increasing(InsertAt(cs, k, c))
  {
    var t := InsertAt(cs, k, c);
    forall i, j | 0 <= i < j < |t| ensures t[i] < t[j] {
    }
  }

  lemma IncreasingRemove(cs: seq<nat>, k: nat)
    requires Increasing(cs) && k < |cs|
    ensures Increasing(RemoveAt(cs, k))
  {
    var t := RemoveAt(cs, k);
    forall i, j | 0 <= i < j < |t| ensures t[i] < t[j] {
    }
  }

  // ---------------------------------------------------------------------
  // The primitives preserve the invariant and change exactly one cell

  /** Inserting (c, v) at the point of row r where the columns below c end
      keeps the invariant; cell (r, c) becomes v and no other cell changes. */
  lemma InsertCorrect(s: Storage, m: nat, n: nat, r: nat, pos: nat, c: nat, v: int)
    requires Valid(s, m, n) && 1 <= r <= m && 1 <= c <= n && v != 0
    requires Lo(s, r) <= pos <= Hi(s, r)
    requires forall k :: Lo(s, r) <= k < pos ==> s.cols[k] < c
    requires forall k :: pos <= k < Hi(s, r) ==> c < s.cols[k]
    ensures Valid(Insert(s, pos, r, c, v), m, n)
    ensures forall q, x :: 1 <= q <= m ==>
      Cell(Insert(s, pos, r, c, v), q, x) == if q == r && x == c then v else Cell(s, q, x)
  {
    var t := Insert(s, pos, r, c, v);
    InsertRows(s, r, pos, c, v);
    var cs, vs, k := RowCols(s, r), RowVals(s, r), pos - Lo(s, r);
    IncreasingInsert(cs, k, c);
    assert Valid(t, m, n);
    forall q, x | 1 <= q <= m
      ensures Cell(t, q, x) == if q == r && x == c then v else Cell(s, q, x)
    {
      if q == r {
        FindInsert(cs, vs, k, c, v, x);
      }
    }
  }

  /** Removing the pair at a position of row r's slice keeps the invariant;
      that pair's cell becomes zero and no other cell changes. */
  lemma RemoveCorrect(s: Storage, m: nat, n: nat, r: nat, pos: nat)
    requires Valid(s, m, n) && 1 <= r <= m
    requires Lo(s, r) <= pos < Hi(s, r)
    ensures Valid(Remove(s, pos, r), m, n)
    ensures forall q, x :: 1 <= q <= m ==>
      Cell(Remove(s, pos, r), q, x) == if q == r && x == s.cols[pos] then 0 else Cell(s, q, x)
  {
    var t := Remove(s, pos, r);
    RemoveRows(s, r, pos);
    var cs, vs, k := RowCols(s, r), RowVals(s, r), pos - Lo(s, r);
    IncreasingRemove(cs, k);
    assert Valid(t, m, n);
    assert cs[k] == s.cols[pos];
    forall q, x | 1 <= q <= m
      ensures Cell(t, q, x) == if q == r && x == s.cols[pos] then 0 else Cell(s, q, x)
    {
      if q == r {
        FindRemove(cs, vs, k, x);
      }
    }
  }

  /** Overwriting the value at a position of row r's slice with a non-zero
      keeps the invariant; that pair's cell becomes v and no other cell
      changes. */
  lemma UpdateCorrect(s: Storage, m: nat, n: nat, r: nat, pos: nat, v: int)
    requires Valid(s, m, n) && 1 <= r <= m && v != 0
    requires Lo(s, r) <= pos < Hi(s, r)
    ensures Valid(Storage(s.rows, s.cols, s.vals[pos := v]), m, n)
    ensures forall q, x :: 1 <= q <= m ==>
      Cell(Storage(s.rows, s.cols, s.vals[pos := v]), q, x) == if q == r && x == s.cols[pos] then v else Cell(s, q, x)
  {
    var t := Storage(s.rows, s.cols, s.vals[pos := v]);
    UpdateRows(s, r, pos, v);
    var cs, vs, k := RowCols(s, r), RowVals(s, r), pos - Lo(s, r);
    assert Valid(t, m, n);
    assert cs[k] == s.cols[pos];
    forall q, x | 1 <= q <= m
      ensures Cell(t, q, x) == if q == r && x == s.cols[pos] then v else Cell(s, q, x)
    {
      if q == r {
        FindUpdate(cs, vs, k, v, x);
      }
    }
  }

  // ---------------------------------------------------------------------
  // set

  /** The scan of `set` stops on a stored pair for column c exactly when
      cell (r, c) is non-zero; otherwise every column from the stopping
      point to the end of the slice is greater than c. */
  lemma PositionMatch(s: Storage, m: nat, n: nat, r: nat, c: nat)
    requires Valid(s, m, n) && 1 <= r <= m
    ensures var pos := Position(s, r, c);
      && (forall k :: Lo(s, r) <= k < pos ==> s.cols[k] < c)
      && ((pos < Hi(s, r) && s.cols[pos] == c) <==> Cell(s, r, c) != 0)
      && (pos < Hi(s, r) && s.cols[pos] == c ==> Cell(s, r, c) == s.vals[pos])
      && (!(pos < Hi(s, r) && s.cols[pos] == c) ==> forall k :: pos <= k < Hi(s, r) ==> c < s.cols[k])
  {
    var cs, vs, lo := RowCols(s, r), RowVals(s, r), Lo(s, r);
    var k := LeadBelow(cs, c);
    var pos := Position(s, r, c);
    assert pos == lo + k;
    forall i | lo <= i < pos ensures s.cols[i] < c {
      assert cs[i - lo] == s.cols[i];
    }
    if pos < Hi(s, r) && s.cols[pos] == c {
      assert cs[k] == c;
      FindAt(cs, vs, k);
      assert vs[k] == s.vals[pos];
    } else {
      forall i | pos <= i < Hi(s, r) ensures c < s.cols[i] {
        assert cs[i - lo] == s.cols[i] && cs[k] == s.cols[pos];
        assert c <= cs[k] && cs[k] != c;
        assert cs[k] <= cs[i - lo];
      }
      assert c !in cs by {
        forall i | 0 <= i < |cs| ensures cs[i] != c {
          assert cs[i] == s.cols[lo + i];
        }
      }
      FindAbsent(cs, vs, c);
    }
  }

  /** `set(v, r, c)` keeps the storage invariant; afterwards cell (r, c)
      reads v and every other cell reads as before. */
  lemma SetEntryCorrect(s: Storage, m: nat, n: nat, r: nat, c: nat, v: int)
    requires Valid(s, m, n) && 1 <= r <= m && 1 <= c <= n
    ensures Valid(SetEntry(s, r, c, v), m, n)
    ensures forall q, x :: 1 <= q <= m ==>
      Cell(SetEntry(s, r, c, v), q, x) == if q == r && x == c then v else Cell(s, q, x)
  {
    var pos := Position(s, r, c);
    PositionMatch(s, m, n, r, c);
    if pos < Hi(s, r) && s.cols[pos] == c {
      if v == 0 {
        RemoveCorrect(s, m, n, r, pos);
      } else {
        UpdateCorrect(s, m, n, r, pos, v);
      }
    } else if v != 0 {
      InsertCorrect(s, m, n, r, pos, c, v);
    }
  }

  /** Entry-count accounting of `set(v, r, c)`: one pair more when a
      non-zero goes into an empty cell, one pair less when a zero goes over
      a stored value, the same count otherwise; the row pointers up to and
      including row r's start stay, and those after it move by the change
      in count. */
  lemma SetEntryCount(s: Storage, m: nat, n: nat, r: nat, c: nat, v: int)
    requires Valid(s, m, n) && 1 <= r <= m && 1 <= c <= n
    ensures var t := SetEntry(s, r, c, v);
      && |t.cols| == |t.vals|
      && |t.cols| == |s.cols| + (if Cell(s, r, c) == 0 && v != 0 then 1
                                 else if Cell(s, r, c) != 0 && v == 0 then -1
                                 else 0)
      && |t.rows| == |s.rows|
      && (forall i :: 0 <= i < r ==> t.rows[i] == s.rows[i])
      && (forall i :: r <= i <= m ==> t.rows[i] == s.rows[i] + (|t.cols| - |s.cols|))
  {
    PositionMatch(s, m, n, r, c);
  }

  /** Writing a non-zero into an empty cell and then zero into it again
      gives back exactly the storage one started with. */
  lemma SetThenClear(s: Storage, m: nat, n: nat, r: nat, c: nat, v: int)
    requires Valid(s, m, n) && 1 <= r <= m && 1 <= c <= n
    requires Cell(s, r, c) == 0 && v != 0
    ensures SetEntry(SetEntry(s, r, c, v), r, c, 0) == s
  {
    var pos := Position(s, r, c);
    PositionMatch(s, m, n, r, c);
    var t := Insert(s, pos, r, c, v);
    assert SetEntry(s, r, c, v) == t;
    PositionAfterInsert(s, r, pos, c, v);
    RemoveInsert(s, pos, r, c, v);
  }

  /** Writing zero over a stored value and then writing that value back
      gives back exactly the storage one started with. */
  lemma ClearThenRestore(s: Storage, m: nat, n: nat, r: nat, c: nat)
    requires Valid(s, m, n) && 1 <= r <= m && 1 <= c <= n
    requires Cell(s, r, c) != 0
    ensures SetEntry(SetEntry(s, r, c, 0), r, c, Cell(s, r, c)) == s
  {
    var pos := Position(s, r, c);
    PositionMatch(s, m, n, r, c);
    var t := Remove(s, pos, r);
    assert SetEntry(s, r, c, 0) == t;
    PositionAfterRemove(s, m, n, r, pos);
    RemoveCorrect(s, m, n, r, pos);
    PositionMatch(t, m, n, r, c);
    InsertRemove(s, pos, r);
  }

  /** After inserting column c where the columns below c end, the scan for
      c stops on the new pair. */
  lemma PositionAfterInsert(s: Storage, r: nat, pos: nat, c: nat, v: int)
    requires Shaped(s) && 1 <= r < |s.rows| && Lo(s, r) <= pos <= Hi(s, r)
    requires forall k :: Lo(s, r) <= k < pos ==> s.cols[k] < c
    ensures Shaped(Insert(s, pos, r, c, v)) && r < |Insert(s, pos, r, c, v).rows|
    ensures Position(Insert(s, pos, r, c, v), r, c) == pos
    ensures pos < Hi(Insert(s, pos, r, c, v), r) && Insert(s, pos, r, c, v).cols[pos] == c
  {
    var t := Insert(s, pos, r, c, v);
    InsertRows(s, r, pos, c, v);
    InsertShaped(s, r, pos, c, v);
    var cs, k := RowCols(s, r), pos - Lo(s, r);
    forall i | 0 <= i < k ensures cs[i] < c {
      assert cs[i] == s.cols[Lo(s, r) + i];
    }
    LeadBelowInsert(cs, k, c);
  }

  /** After removing the pair of column c, the scan for c stops at the
      same position. */
  lemma PositionAfterRemove(s: Storage, m: nat, n: nat, r: nat, pos: nat)
    requires Valid(s, m, n) && 1 <= r <= m && Lo(s, r) <= pos < Hi(s, r)
    requires Position(s, r, s.cols[pos]) == pos
    ensures Shaped(Remove(s, pos, r)) && r < |Remove(s, pos, r).rows|
    ensures Position(Remove(s, pos, r), r, s.cols[pos]) == pos
  {
    RemoveSame(s, r, pos);
    var cs, k := RowCols(s, r), pos - Lo(s, r);
    assert cs[k] == s.cols[pos];
    LeadBelowRemove(cs, k);
  }

  /** The remove primitive undoes the insert primitive at the same place. */
  lemma RemoveInsert(s: Storage, index: nat, row: nat, col: nat, val: int)
    requires index <= |s.cols| && index <= |s.vals|
    ensures Remove(Insert(s, index, row, col, val), index, row) == s
  {
    var t := Insert(s, index, row, col, val);
    assert RemoveAt(t.cols, index) == s.cols;
    assert RemoveAt(t.vals, index) == s.vals;
    assert BumpDown(t.rows, row) == s.rows;
  }

  /** The insert primitive undoes the remove primitive when given the pair
      that was removed. */
  lemma InsertRemove(s: Storage, index: nat, row: nat)
    requires index < |s.cols| && index < |s.vals|
    requires forall i :: row <= i < |s.rows| ==> 1 <= s.rows[i]
    ensures Insert(Remove(s, index, row), index, row, s.cols[index], s.vals[index]) == s
  {
    var t := Remove(s, index, row);
    assert InsertAt(t.cols, index, s.cols[index]) == s.cols;
    assert InsertAt(t.vals, index, s.vals[index]) == s.vals;
    assert BumpUp(t.rows, row) == s.rows;
  }

  lemma {:induction false} LeadBelowInsert(cs: seq<nat>, k: nat, c: nat)
    requires k <= |cs| && forall i :: 0 <= i < k ==> cs[i] < c
    ensures LeadBelow(InsertAt(cs, k, c), c) == k
  {
    if k > 0 {
      assert InsertAt(cs, k, c)[1..] == InsertAt(cs[1..], k - 1, c);
      LeadBelowInsert(cs[1..], k - 1, c);
    }
  }

  lemma {:induction false} LeadBelowRemove(cs: seq<nat>, k: nat)
    requires Increasing(cs) && k < |cs| && LeadBelow(cs, cs[k]) == k
    ensures LeadBelow(RemoveAt(cs, k), cs[k]) == k
  {
    if k > 0 {
      assert RemoveAt(cs, k)[1..] == RemoveAt(cs[1..], k - 1);
      assert cs[1..][k - 1] == cs[k];
      LeadBelowRemove(cs[1..], k - 1);
    } else if |RemoveAt(cs, 0)| > 0 {
      assert RemoveAt(cs, 0)[0] == cs[1];
    }
  }

  // ---------------------------------------------------------------------
  // Construction, the dense view and canonical storage

  /** A freshly constructed m x n matrix satisfies the invariant and reads
      zero everywhere. */
  lemma EmptyValid(m: nat, n: nat)
    requires 1 <= m && 1 <= n
    ensures Valid(Empty(m), m, n)
    ensures forall r, c :: 1 <= r <= m ==> Cell(Empty(m), r, c) == 0
  {
    var e := Empty(m);
    forall r, c | 1 <= r <= m ensures Cell(e, r, c) == 0 {
      assert RowCols(e, r) == [];
    }
  }

  /** A valid storage holds some pair exactly when the matrix it denotes
      has a non-zero cell (no stored value is zero). */
  lemma StoredIffNonZero(s: Storage, m: nat, n: nat)
    requires Valid(s, m, n)
    ensures |s.cols| > 0 <==> Dense.HasNonZero(DenseOf(s, m, n))
  {
    var d := DenseOf(s, m, n);
    if |s.cols| > 0 {
      var r := RowContaining(s.rows, |s.cols|, 0);
      var c := s.cols[0];
      assert Lo(s, r) == 0 && RowCols(s, r)[0] == c && RowVals(s, r)[0] == s.vals[0];
      FindAt(RowCols(s, r), RowVals(s, r), 0);
      assert 1 <= c <= n && Cell(s, r, c) == s.vals[0];
      DenseOfAt(s, m, n, r, c);
      assert d[r - 1][c - 1] != 0;
    } else {
      forall i, j | 0 <= i < |d| && 0 <= j < |d[i]| ensures d[i][j] == 0 {
        assert RowCols(s, i + 1) == [];
      }
    }
  }

  /** Two m x n dense matrices agree when every cell does. */
  lemma DenseOfCells(s: Storage, m: nat, n: nat, d: seq<seq<int>>)
    requires Shaped(s) && |s.rows| == m + 1
    requires |d| == m && forall i :: 0 <= i < m ==> |d[i]| == n
    requires forall i, j :: 1 <= i <= m && 1 <= j <= n ==> Cell(s, i, j) == d[i - 1][j - 1]
    ensures DenseOf(s, m, n) == d
  {
    var e := DenseOf(s, m, n);
    forall i | 0 <= i < m ensures e[i] == d[i] {
      forall j | 0 <= j < n ensures e[i][j] == d[i][j] {
        var r, c := i + 1, j + 1;
        assert Cell(s, r, c) == d[r - 1][c - 1];
      }
    }
  }

  /** The dense row that a row's stored pairs denote. */
  ghost function DenseRow(cs: seq<nat>, vs: seq<int>, n: nat): (row: seq<int>)
    requires |cs| == |vs|
    ensures |row| == n
  {
    seq(n, j requires 0 <= j < n => Find(cs, vs, j + 1))
  }

  /** Summing val * x[col - 1] over a row's stored pairs is the dot product
      of the dense row with x. */
  lemma {:induction false} RowProductIsDot(cs: seq<nat>, vs: seq<int>, x: seq<int>)
    requires |cs| == |vs| && Increasing(cs)
    requires forall k :: 0 <= k < |cs| ==> 1 <= cs[k] <= |x|
    ensures RowProduct(cs, vs, x) == Dense.Dot(DenseRow(cs, vs, |x|), x)
    decreases |cs|
  {
    var n := |x|;
    if |cs| == 0 {
      var zero := DenseRow(cs, vs, n);
      Dense.DotUnit(zero, x, n, 0);
    } else {
      var p := |cs| - 1;
      var cs', vs', c, v := cs[..p], vs[..p], cs[p], vs[p];
      assert cs == cs' + [c] && vs == vs' + [v];
      assert Increasing(cs');
      assert c !in cs' by {
        forall i | 0 <= i < p ensures cs'[i] != c {
          assert cs[i] < cs[p];
        }
      }
      RowProductIsDot(cs', vs', x);
      DotSnoc(cs', vs', c, v, x);
    }
  }

  /** Appending a pair whose column c is new adds v * x[c - 1] to the dot
      product of the dense row with x. */
  lemma DotSnoc(cs: seq<nat>, vs: seq<int>, c: nat, v: int, x: seq<int>)
    requires |cs| == |vs| && c !in cs && 1 <= c <= |x|
    ensures Dense.Dot(DenseRow(cs + [c], vs + [v], |x|), x) == Dense.Dot(DenseRow(cs, vs, |x|), x) + v * x[c - 1]
  {
    var n := |x|;
    var u2 := seq(n, j requires 0 <= j < n => if j == c - 1 then v else 0);
    DenseRowSnoc(cs, vs, c, v, n);
    Dense.DotAdd(DenseRow(cs + [c], vs + [v], n), DenseRow(cs, vs, n), u2, x);
    Dense.DotUnit(u2, x, c - 1, v);
  }

  /** Appending a pair whose column c is new adds v at column c of the
      dense row and nothing elsewhere. */
  lemma DenseRowSnoc(cs: seq<nat>, vs: seq<int>, c: nat, v: int, n: nat)
    requires |cs| == |vs| && c !in cs
    ensures forall j :: 0 <= j < n ==>
      DenseRow(cs + [c], vs + [v], n)[j] == DenseRow(cs, vs, n)[j] + (if j == c - 1 then v else 0)
  {
    forall j | 0 <= j < n
      ensures DenseRow(cs + [c], vs + [v], n)[j] == DenseRow(cs, vs, n)[j] + (if j == c - 1 then v else 0)
    {
      FindSnoc(cs, vs, c, v, j + 1);
    }
  }

  /** Each row of the dense form is the dense row of that row's pairs. */
  lemma DenseOfRow(s: Storage, m: nat, n: nat, r: nat)
    requires Shaped(s) && |s.rows| == m + 1 && 1 <= r <= m
    ensures DenseOf(s, m, n)[r - 1] == DenseRow(RowCols(s, r), RowVals(s, r), n)
  {
  }

  /** The position of a stored entry lies in exactly one row's slice. */
  lemma RowContaining(rows: seq<nat>, nnz: nat, k: nat) returns (r: nat)
    requires PointersOk(rows, nnz) && k < nnz
    ensures 1 <= r < |rows| && rows[r - 1] - 1 <= k < rows[r] - 1
  {
    r := RowFrom(rows, nnz, k, |rows| - 1);
  }

  lemma {:induction false} RowFrom(rows: seq<nat>, nnz: nat, k: nat, h: nat) returns (r: nat)
    requires PointersOk(rows, nnz) && 1 <= h < |rows| && k < rows[h] - 1
    ensures 1 <= r <= h && rows[r - 1] - 1 <= k < rows[r] - 1
    decreases h
  {
    if rows[h - 1] - 1 <= k {
      r := h;
    } else {
      r := RowFrom(rows, nnz, k, h - 1);
    }
  }

  /** The stored form is canonical: two valid m x n storages that denote
      the same matrix are identical array for array. */
  lemma Canonical(s1: Storage, s2: Storage, m: nat, n: nat)
    requires Valid(s1, m, n) && Valid(s2, m, n)
    requires DenseOf(s1, m, n) == DenseOf(s2, m, n)
    ensures s1 == s2
  {
    forall r | 1 <= r <= m
      ensures RowCols(s1, r) == RowCols(s2, r) && RowVals(s1, r) == RowVals(s2, r)
    {
      SameRow(s1, s2, m, n, r);
    }
    SamePointers(s1, s2, m, n, m);
    assert s1.rows == s2.rows;
    forall k | 0 <= k < |s1.cols| ensures s1.cols[k] == s2.cols[k] && s1.vals[k] == s2.vals[k] {
      var r := RowContaining(s1.rows, |s1.cols|, k);
      var lo := Lo(s1, r);
      assert RowCols(s1, r)[k - lo] == s1.cols[k] && RowCols(s2, r)[k - lo] == s2.cols[k];
      assert RowVals(s1, r)[k - lo] == s1.vals[k] && RowVals(s2, r)[k - lo] == s2.vals[k];
    }
  }

  /** Storages denoting the same matrix store the same pairs in each row. */
  lemma SameRow(s1: Storage, s2: Storage, m: nat, n: nat, r: nat)
    requires Valid(s1, m, n) && Valid(s2, m, n) && 1 <= r <= m
    requires DenseOf(s1, m, n) == DenseOf(s2, m, n)
    ensures RowCols(s1, r) == RowCols(s2, r) && RowVals(s1, r) == RowVals(s2, r)
  {
    var cs1, vs1, cs2, vs2 := RowCols(s1, r), RowVals(s1, r), RowCols(s2, r), RowVals(s2, r);
    forall c: nat ensures Find(cs1, vs1, c) == Find(cs2, vs2, c) {
      if 1 <= c <= n {
        assert DenseOf(s1, m, n)[r - 1][c - 1] == Cell(s1, r, c);
        assert DenseOf(s2, m, n)[r - 1][c - 1] == Cell(s2, r, c);
      } else {
        assert c !in cs1 by {
          forall i | 0 <= i < |cs1| ensures cs1[i] != c {
            assert cs1[i] == s1.cols[Lo(s1, r) + i];
          }
        }
        assert c !in cs2 by {
          forall i | 0 <= i < |cs2| ensures cs2[i] != c {
            assert cs2[i] == s2.cols[Lo(s2, r) + i];
          }
        }
        FindAbsent(cs1, vs1, c);
        FindAbsent(cs2, vs2, c);
      }
    }
    forall k | 0 <= k < |vs1| ensures vs1[k] != 0 {
      assert vs1[k] == s1.vals[Lo(s1, r) + k];
    }
    forall k | 0 <= k < |vs2| ensures vs2[k] != 0 {
      assert vs2[k] == s2.vals[Lo(s2, r) + k];
    }
    FindDetermines(cs1, vs1, cs2, vs2);
  }

  /** Equal row lengths give equal row pointers, from the first up. */
  lemma {:induction false} SamePointers(s1: Storage, s2: Storage, m: nat, n: nat, h: nat)
    requires Valid(s1, m, n) && Valid(s2, m, n) && h <= m
    requires forall r :: 1 <= r <= m ==> |RowCols(s1, r)| == |RowCols(s2, r)|
    ensures forall i :: 0 <= i <= h ==> s1.rows[i] == s2.rows[i]
    decreases h
  {
    if h > 0 {
      SamePointers(s1, s2, m, n, h - 1);
      assert |RowCols(s1, h)| == |RowCols(s2, h)|;
    }
  }
  // ---------------------------------------------------------------------
  // Worked storage examples (the header's 1-based convention)

  /** The 3 x 4 storage of [10 0 0 2; 0 0 0 0; 3 1 0 4]: the empty second
      row is two equal consecutive pointers. */
  const WithEmptyRow := Storage([1, 3, 3, 6], [1, 4, 1, 2, 4], [10, 2, 3, 1, 4])

  /** The same matrix with 5 at (2, 2). */
  const WithFilledRow := Storage([1, 3, 4, 7], [1, 4, 2, 1, 2, 4], [10, 2, 5, 3, 1, 4])

  /** The five writes that build it from a fresh matrix, in the order
      the storage example performs them; each pair goes to the end of its
      row's slice. */
  const EmptyRow1 := Storage([1, 2, 2, 2], [1], [10])
  const EmptyRow2 := Storage([1, 3, 3, 3], [1, 4], [10, 2])
  const EmptyRow3 := Storage([1, 3, 3, 4], [1, 4, 1], [10, 2, 3])
  const EmptyRow4 := Storage([1, 3, 3, 5], [1, 4, 1, 2], [10, 2, 3, 1])

  lemma EmptyRowWrite1()
    ensures Shaped(Standard0) && SetEntry(Standard0, 1, 1, 10) == EmptyRow1
  {
    var s := Standard0;
    assert Shaped(s) && Hi(s, 1) == 0 by {
      assert s.rows[0] == 1 && s.rows[1] == 1 && s.rows[2] == 1 && s.rows[3] == 1;
    }
    assert BumpUp(s.rows, 1) == EmptyRow1.rows;
    assert InsertAt(s.cols, 0, 1) == EmptyRow1.cols;
    assert InsertAt(s.vals, 0, 10) == EmptyRow1.vals;
    AppendWrite(s, 1, 1, 10, EmptyRow1);
  }

  lemma EmptyRowWrite2()
    ensures Shaped(EmptyRow1) && SetEntry(EmptyRow1, 1, 4, 2) == EmptyRow2
  {
    var s := EmptyRow1;
    assert Shaped(s) && Hi(s, 1) == 1 by {
      assert s.rows[0] == 1 && s.rows[1] == 2 && s.rows[2] == 2 && s.rows[3] == 2;
    }
    assert BumpUp(s.rows, 1) == EmptyRow2.rows;
    assert InsertAt(s.cols, 1, 4) == EmptyRow2.cols;
    assert InsertAt(s.vals, 1, 2) == EmptyRow2.vals;
    AppendWrite(s, 1, 4, 2, EmptyRow2);
  }

  lemma EmptyRowWrite3()
    ensures Shaped(EmptyRow2) && SetEntry(EmptyRow2, 3, 1, 3) == EmptyRow3
  {
    var s := EmptyRow2;
    assert Shaped(s) && Hi(s, 3) == 2 by {
      assert s.rows[0] == 1 && s.rows[1] == 3 && s.rows[2] == 3 && s.rows[3] == 3;
    }
    assert BumpUp(s.rows, 3) == EmptyRow3.rows;
    assert InsertAt(s.cols, 2, 1) == EmptyRow3.cols;
    assert InsertAt(s.vals, 2, 3) == EmptyRow3.vals;
    AppendWrite(s, 3, 1, 3, EmptyRow3);
  }

  lemma EmptyRowWrite4()
    ensures Shaped(EmptyRow3) && SetEntry(EmptyRow3, 3, 2, 1) == EmptyRow4
  {
    var s := EmptyRow3;
    assert Shaped(s) && Hi(s, 3) == 3 by {
      assert s.rows[0] == 1 && s.rows[1] == 3 && s.rows[2] == 3 && s.rows[3] == 4;
    }
    assert BumpUp(s.rows, 3) == EmptyRow4.rows;
    assert InsertAt(s.cols, 3, 2) == EmptyRow4.cols;
    assert InsertAt(s.vals, 3, 1) == EmptyRow4.vals;
    AppendWrite(s, 3, 2, 1, EmptyRow4);
  }

  lemma EmptyRowWrite5()
    ensures Shaped(EmptyRow4) && SetEntry(EmptyRow4, 3, 4, 4) == WithEmptyRow
  {
    var s := EmptyRow4;
    assert Shaped(s) && Hi(s, 3) == 4 by {
      assert s.rows[0] == 1 && s.rows[1] == 3 && s.rows[2] == 3 && s.rows[3] == 5;
    }
    assert BumpUp(s.rows, 3) == WithEmptyRow.rows;
    assert InsertAt(s.cols, 4, 4) == WithEmptyRow.cols;
    assert InsertAt(s.vals, 4, 4) == WithEmptyRow.vals;
    AppendWrite(s, 3, 4, 4, WithEmptyRow);
  }

  /** A non-zero written into the empty row lands between the first and
      the third row's pairs, and the pointers from the second on move up. */
  lemma FillEmptyRow()
    ensures Shaped(WithEmptyRow) && SetEntry(WithEmptyRow, 2, 2, 5) == WithFilledRow
  {
    var s := WithEmptyRow;
    assert Shaped(s) && Lo(s, 2) == 2 && Hi(s, 2) == 2 by {
      assert s.rows[0] == 1 && s.rows[1] == 3 && s.rows[2] == 3 && s.rows[3] == 6;
    }
    assert BumpUp(s.rows, 2) == WithFilledRow.rows;
    assert InsertAt(s.cols, 2, 2) == WithFilledRow.cols;
    assert InsertAt(s.vals, 2, 5) == WithFilledRow.vals;
    AppendWrite(s, 2, 2, 5, WithFilledRow);
  }

  /** Writing zero there again restores the earlier storage exactly. */
  lemma ClearFilledRow()
    ensures Shaped(WithFilledRow) && SetEntry(WithFilledRow, 2, 2, 0) == WithEmptyRow
  {
    FilledRowPosition();
    RemoveFilledRow();
  }

  /** The scan of `set` for column 2 of row 2 stops on the stored pair. */
  lemma FilledRowPosition()
    ensures Shaped(WithFilledRow) && Position(WithFilledRow, 2, 2) == 2
    ensures WithFilledRow.cols[2] == 2 && 2 < Hi(WithFilledRow, 2)
  {
    var s := WithFilledRow;
    assert s.rows[0] == 1 && s.rows[1] == 3 && s.rows[2] == 4 && s.rows[3] == 7;
    assert Shaped(s);
    assert s.cols[2] == 2;
    assert Lo(s, 2) == 2 && Hi(s, 2) == 3;
    assert RowCols(s, 2) == [2] by {
      assert s.cols[2..3] == [2];
    }
    assert LeadBelow([2], 2) == 0;
  }

  lemma RemoveFilledRow()
    ensures Remove(WithFilledRow, 2, 2) == WithEmptyRow
  {
    var s := WithFilledRow;
    assert BumpDown(s.rows, 2) == [1, 3, 3, 6];
    assert RemoveAt(s.cols, 2) == [1, 4, 1, 2, 4];
    assert RemoveAt(s.vals, 2) == [10, 2, 3, 1, 4];
  }

  /** A write past every column stored in row r, as `set` performs it:
      the pair is spliced in at the end of row r's slice. */
  lemma AppendStep(s: Storage, r: nat, c: nat, v: int)
    requires Shaped(s) && 1 <= r < |s.rows| && v != 0
    requires forall k :: Lo(s, r) <= k < Hi(s, r) ==> s.cols[k] < c
    ensures SetEntry(s, r, c, v) == Insert(s, Hi(s, r), r, c, v)
  {
    var cs := RowCols(s, r);
    forall i | 0 <= i < |cs| ensures cs[i] < c {
      assert cs[i] == s.cols[Lo(s, r) + i];
    }
    LeadBelowAt(cs, c, |cs|);
  }

  /** The seven writes that build the 3 x 4 example
      [1 0 4 5; 2 -1 0 0; 0 0 3 2] in row-major order, from a fresh
      matrix; each pair goes to the end of its row's slice. */
  const Standard0 := Storage([1, 1, 1, 1], [], [])
  const Standard1 := Storage([1, 2, 2, 2], [1], [1])
  const Standard2 := Storage([1, 3, 3, 3], [1, 3], [1, 4])
  const Standard3 := Storage([1, 4, 4, 4], [1, 3, 4], [1, 4, 5])
  const Standard4 := Storage([1, 4, 5, 5], [1, 3, 4, 1], [1, 4, 5, 2])
  const Standard5 := Storage([1, 4, 6, 6], [1, 3, 4, 1, 2], [1, 4, 5, 2, -1])
  const Standard6 := Storage([1, 4, 6, 7], [1, 3, 4, 1, 2, 3], [1, 4, 5, 2, -1, 3])
  const Standard := Storage([1, 4, 6, 8], [1, 3, 4, 1, 2, 3, 4], [1, 4, 5, 2, -1, 3, 2])

  /** A write past every column stored in row r, with its outcome given
      array by array. */
  lemma AppendWrite(s: Storage, r: nat, c: nat, v: int, t: Storage)
    requires Shaped(s) && 1 <= r < |s.rows| && v != 0
    requires forall k :: Lo(s, r) <= k < Hi(s, r) ==> s.cols[k] < c
    requires BumpUp(s.rows, r) == t.rows
    requires InsertAt(s.cols, Hi(s, r), c) == t.cols && InsertAt(s.vals, Hi(s, r), v) == t.vals
    ensures SetEntry(s, r, c, v) == t
  {
    AppendStep(s, r, c, v);
  }

  lemma StandardWrite1()
    ensures Shaped(Standard0) && SetEntry(Standard0, 1, 1, 1) == Standard1
  {
    var s := Standard0;
    assert Shaped(s) && Hi(s, 1) == 0 by {
      assert s.rows[0] == 1 && s.rows[1] == 1 && s.rows[2] == 1 && s.rows[3] == 1;
    }
    assert BumpUp(s.rows, 1) == Standard1.rows;
    assert InsertAt(s.cols, 0, 1) == Standard1.cols;
    assert InsertAt(s.vals, 0, 1) == Standard1.vals;
    AppendWrite(s, 1, 1, 1, Standard1);
  }

  lemma StandardWrite2()
    ensures Shaped(Standard1) && SetEntry(Standard1, 1, 3, 4) == Standard2
  {
    var s := Standard1;
    assert Shaped(s) && Hi(s, 1) == 1 by {
      assert s.rows[0] == 1 && s.rows[1] == 2 && s.rows[2] == 2 && s.rows[3] == 2;
    }
    assert BumpUp(s.rows, 1) == Standard2.rows;
    assert InsertAt(s.cols, 1, 3) == Standard2.cols;
    assert InsertAt(s.vals, 1, 4) == Standard2.vals;
    AppendWrite(s, 1, 3, 4, Standard2);
  }

  lemma StandardWrite3()
    ensures Shaped(Standard2) && SetEntry(Standard2, 1, 4, 5) == Standard3
  {
    var s := Standard2;
    assert Shaped(s) && Hi(s, 1) == 2 by {
      assert s.rows[0] == 1 && s.rows[1] == 3 && s.rows[2] == 3 && s.rows[3] == 3;
    }
    assert BumpUp(s.rows, 1) == Standard3.rows;
    assert InsertAt(s.cols, 2, 4) == Standard3.cols;
    assert InsertAt(s.vals, 2, 5) == Standard3.vals;
    AppendWrite(s, 1, 4, 5, Standard3);
  }

  lemma StandardWrite4()
    ensures Shaped(Standard3) && SetEntry(Standard3, 2, 1, 2) == Standard4
  {
    var s := Standard3;
    assert Shaped(s) && Hi(s, 2) == 3 by {
      assert s.rows[0] == 1 && s.rows[1] == 4 && s.rows[2] == 4 && s.rows[3] == 4;
    }
    assert BumpUp(s.rows, 2) == Standard4.rows;
    assert InsertAt(s.cols, 3, 1) == Standard4.cols;
    assert InsertAt(s.vals, 3, 2) == Standard4.vals;
    AppendWrite(s, 2, 1, 2, Standard4);
  }

  lemma StandardWrite5()
    ensures Shaped(Standard4) && SetEntry(Standard4, 2, 2, -1) == Standard5
  {
    var s := Standard4;
    assert Shaped(s) && Hi(s, 2) == 4 by {
      assert s.rows[0] == 1 && s.rows[1] == 4 && s.rows[2] == 5 && s.rows[3] == 5;
    }
    assert BumpUp(s.rows, 2) == Standard5.rows;
    assert InsertAt(s.cols, 4, 2) == Standard5.cols;
    assert InsertAt(s.vals, 4, -1) == Standard5.vals;
    AppendWrite(s, 2, 2, -1, Standard5);
  }

  lemma StandardWrite6()
    ensures Shaped(Standard5) && SetEntry(Standard5, 3, 3, 3) == Standard6
  {
    var s := Standard5;
    assert Shaped(s) && Hi(s, 3) == 5 by {
      assert s.rows[0] == 1 && s.rows[1] == 4 && s.rows[2] == 6 && s.rows[3] == 6;
    }
    assert BumpUp(s.rows, 3) == Standard6.rows;
    assert InsertAt(s.cols, 5, 3) == Standard6.cols;
    assert InsertAt(s.vals, 5, 3) == Standard6.vals;
    AppendWrite(s, 3, 3, 3, Standard6);
  }

  lemma StandardWrite7()
    ensures Shaped(Standard6) && SetEntry(Standard6, 3, 4, 2) == Standard
  {
    var s := Standard6;
    assert Shaped(s) && Hi(s, 3) == 6 by {
      assert s.rows[0] == 1 && s.rows[1] == 4 && s.rows[2] == 6 && s.rows[3] == 7;
    }
    assert BumpUp(s.rows, 3) == Standard.rows;
    assert InsertAt(s.cols, 6, 4) == Standard.cols;
    assert InsertAt(s.vals, 6, 2) == Standard.vals;
    AppendWrite(s, 3, 4, 2, Standard);
  }

  /** A fresh 3-row matrix starts from pointers [1, 1, 1, 1] and no pairs. */
  lemma StandardStart()
    ensures Empty(3) == Standard0
  {
    assert Empty(3).rows == [1, 1, 1, 1];
  }

  /** The slices of the 3 x 4 example's rows. */
  lemma StandardSlices()
    ensures Shaped(Standard)
    ensures RowCols(Standard, 1) == [1, 3, 4] && RowVals(Standard, 1) == [1, 4, 5]
    ensures RowCols(Standard, 2) == [1, 2] && RowVals(Standard, 2) == [2, -1]
    ensures RowCols(Standard, 3) == [3, 4] && RowVals(Standard, 3) == [3, 2]
  {
    var s := Standard;
    assert s.rows[0] == 1 && s.rows[1] == 4 && s.rows[2] == 6 && s.rows[3] == 8;
    assert Shaped(s);
  }

  lemma StandardValid()
    ensures Valid(Standard, 3, 4)
  {
    StandardSlices();
    assert Increasing([1, 3, 4]) && Increasing([1, 2]) && Increasing([3, 4]);
  }

  /** The cells of the 3 x 4 example. */
  lemma StandardCells()
    ensures Valid(Standard, 3, 4)
    ensures DenseOf(Standard, 3, 4) == [[1, 0, 4, 5], [2, -1, 0, 0], [0, 0, 3, 2]]
  {
    var s := Standard;
    StandardSlices();
    StandardValid();
    var d := [[1, 0, 4, 5], [2, -1, 0, 0], [0, 0, 3, 2]];
    forall i, j | 1 <= i <= 3 && 1 <= j <= 4 ensures Cell(s, i, j) == d[i - 1][j - 1] {
      if i == 1 {
        StandardRow1();
      } else if i == 2 {
        StandardRow2();
      } else {
        StandardRow3();
      }
    }
    DenseOfCells(s, 3, 4, d);
  }

  lemma StandardRow1()
    ensures Find([1, 3, 4], [1, 4, 5], 1) == 1 && Find([1, 3, 4], [1, 4, 5], 2) == 0
    ensures Find([1, 3, 4], [1, 4, 5], 3) == 4 && Find([1, 3, 4], [1, 4, 5], 4) == 5
  {
    assert [1, 3, 4][1..] == [3, 4] && [1, 4, 5][1..] == [4, 5];
    assert [3, 4][1..] == [4] && [4, 5][1..] == [5];
    assert [4][1..] == [] && [5][1..] == [];
  }

  lemma StandardRow2()
    ensures Find([1, 2], [2, -1], 1) == 2 && Find([1, 2], [2, -1], 2) == -1
    ensures Find([1, 2], [2, -1], 3) == 0 && Find([1, 2], [2, -1], 4) == 0
  {
    assert [1, 2][1..] == [2] && [2, -1][1..] == [-1];
    assert [2][1..] == [] && [-1][1..] == [];
  }

  lemma StandardRow3()
    ensures Find([3, 4], [3, 2], 1) == 0 && Find([3, 4], [3, 2], 2) == 0
    ensures Find([3, 4], [3, 2], 3) == 3 && Find([3, 4], [3, 2], 4) == 2
  {
    assert [3, 4][1..] == [4] && [3, 2][1..] == [2];
    assert [4][1..] == [] && [2][1..] == [];
  }

  /** The three writes that put 7, 5 and 3 on the anti-diagonal of a
      fresh 3 x 3 matrix, one pair per row. */
  const AntiDiagonal1 := Storage([1, 2, 2, 2], [3], [7])
  const AntiDiagonal2 := Storage([1, 2, 3, 3], [3, 2], [7, 5])
  const AntiDiagonal := Storage([1, 2, 3, 4], [3, 2, 1], [7, 5, 3])

  lemma AntiDiagonalWrite1()
    ensures Shaped(Standard0) && SetEntry(Standard0, 1, 3, 7) == AntiDiagonal1
  {
    var s := Standard0;
    assert Shaped(s) && Hi(s, 1) == 0 by {
      assert s.rows[0] == 1 && s.rows[1] == 1 && s.rows[2] == 1 && s.rows[3] == 1;
    }
    assert BumpUp(s.rows, 1) == AntiDiagonal1.rows;
    assert InsertAt(s.cols, 0, 3) == AntiDiagonal1.cols;
    assert InsertAt(s.vals, 0, 7) == AntiDiagonal1.vals;
    AppendWrite(s, 1, 3, 7, AntiDiagonal1);
  }

  lemma AntiDiagonalWrite2()
    ensures Shaped(AntiDiagonal1) && SetEntry(AntiDiagonal1, 2, 2, 5) == AntiDiagonal2
  {
    var s := AntiDiagonal1;
    assert Shaped(s) && Hi(s, 2) == 1 by {
      assert s.rows[0] == 1 && s.rows[1] == 2 && s.rows[2] == 2 && s.rows[3] == 2;
    }
    assert BumpUp(s.rows, 2) == AntiDiagonal2.rows;
    assert InsertAt(s.cols, 1, 2) == AntiDiagonal2.cols;
    assert InsertAt(s.vals, 1, 5) == AntiDiagonal2.vals;
    AppendWrite(s, 2, 2, 5, AntiDiagonal2);
  }

  lemma AntiDiagonalWrite3()
    ensures Shaped(AntiDiagonal2) && SetEntry(AntiDiagonal2, 3, 1, 3) == AntiDiagonal
  {
    var s := AntiDiagonal2;
    assert Shaped(s) && Hi(s, 3) == 2 by {
      assert s.rows[0] == 1 && s.rows[1] == 2 && s.rows[2] == 3 && s.rows[3] == 3;
    }
    assert BumpUp(s.rows, 3) == AntiDiagonal.rows;
    assert InsertAt(s.cols, 2, 1) == AntiDiagonal.cols;
    assert InsertAt(s.vals, 2, 3) == AntiDiagonal.vals;
    AppendWrite(s, 3, 1, 3, AntiDiagonal);
  }

  /** The cells of the anti-diagonal example. */
  lemma AntiDiagonalCells()
    ensures Shaped(AntiDiagonal) && |AntiDiagonal.rows| == 4
    ensures DenseOf(AntiDiagonal, 3, 3) == [[0, 0, 7], [0, 5, 0], [3, 0, 0]]
  {
    var s := AntiDiagonal;
    assert s.rows[0] == 1 && s.rows[1] == 2 && s.rows[2] == 3 && s.rows[3] == 4;
    assert Shaped(s);
    assert RowCols(s, 1) == [3] && RowVals(s, 1) == [7];
    assert RowCols(s, 2) == [2] && RowVals(s, 2) == [5];
    assert RowCols(s, 3) == [1] && RowVals(s, 3) == [3];
    var d := [[0, 0, 7], [0, 5, 0], [3, 0, 0]];
    forall i, j | 1 <= i <= 3 && 1 <= j <= 3 ensures Cell(s, i, j) == d[i - 1][j - 1] {
      assert [3][1..] == [] && [2][1..] == [] && [1][1..] == [];
    }
    DenseOfCells(s, 3, 3, d);
  }

  // ---------------------------------------------------------------------
  // The scans of `get` and `set`

  /** The leading run below c ends exactly where the first column at
      least c stands. */
  lemma {:induction false} LeadBelowAt(cs: seq<nat>, c: nat, k: nat)
    requires k <= |cs| && forall i :: 0 <= i < k ==> cs[i] < c
    requires k < |cs| ==> c <= cs[k]
    ensures LeadBelow(cs, c) == k
  {
    if k > 0 {
      LeadBelowAt(cs[1..], c, k - 1);
    }
  }

  /** A left-to-right scan of row r that passed only columns below c and
      stopped at the slice end or at a column at least c stopped where
      `Position` says. */
  lemma ScanStop(s: Storage, r: nat, c: nat, pos: nat)
    requires Shaped(s) && 1 <= r < |s.rows| && Lo(s, r) <= pos <= Hi(s, r)
    requires forall k :: Lo(s, r) <= k < pos ==> s.cols[k] < c
    requires pos < Hi(s, r) ==> c <= s.cols[pos]
    ensures Position(s, r, c) == pos
  {
    var cs, lo := RowCols(s, r), Lo(s, r);
    forall i | 0 <= i < pos - lo ensures cs[i] < c {
      assert cs[i] == s.cols[lo + i];
    }
    if pos < Hi(s, r) {
      assert cs[pos - lo] == s.cols[pos];
    }
    LeadBelowAt(cs, c, pos - lo);
  }

  // ---------------------------------------------------------------------
  // Matrix-vector product over the stored pairs

  /** The sum `multiply` accumulates for row r equals the dot product of
      row r of the dense form with x. */
  lemma RowProductDense(s: Storage, m: nat, n: nat, r: nat, x: seq<int>)
    requires Valid(s, m, n) && 1 <= r <= m && |x| == n
    ensures forall k :: 0 <= k < |RowCols(s, r)| ==> 1 <= RowCols(s, r)[k] <= |x|
    ensures RowProduct(RowCols(s, r), RowVals(s, r), x) == Dense.Dot(DenseOf(s, m, n)[r - 1], x)
  {
    var cs := RowCols(s, r);
    forall k | 0 <= k < |cs| ensures 1 <= cs[k] <= |x| {
      assert cs[k] == s.cols[Lo(s, r) + k];
    }
    RowProductIsDot(cs, RowVals(s, r), x);
    DenseOfRow(s, m, n, r);
  }

  // ---------------------------------------------------------------------
  // Filling a fresh matrix cell by cell in row-major order

  /** Cell (i, j) of the dense form. */
  lemma DenseOfAt(s: Storage, m: nat, n: nat, i: nat, j: nat)
    requires Shaped(s) && |s.rows| == m + 1 && 1 <= i <= m && 1 <= j <= n
    ensures DenseOf(s, m, n)[i - 1][j - 1] == Cell(s, i, j)
  {
  }

  /** The cells before (i, j) in row-major order hold `goal`'s values and
      the others are still zero. */
  ghost predicate FilledUpTo(t: Storage, m: nat, n: nat, goal: seq<seq<int>>, i: nat, j: nat)
    requires Shaped(t) && |t.rows| == m + 1 && Dense.Covers(goal, m, n)
  {
    forall q, c :: 1 <= q <= m && 1 <= c <= n ==>
      Cell(t, q, c) == if q < i || (q == i && c < j) then goal[q - 1][c - 1] else 0
  }

  /** A fresh matrix has filled nothing yet. */
  lemma FillStart(m: nat, n: nat, goal: seq<seq<int>>)
    requires 1 <= m && 1 <= n && Dense.Covers(goal, m, n)
    ensures Valid(Empty(m), m, n) && FilledUpTo(Empty(m), m, n, goal, 1, 1)
  {
    EmptyValid(m, n);
  }

  /** Writing goal's value into cell (i, j) extends the filled region by
      that cell. */
  lemma FillStep(t: Storage, m: nat, n: nat, goal: seq<seq<int>>, i: nat, j: nat)
    requires Valid(t, m, n) && Dense.Covers(goal, m, n) && 1 <= i <= m && 1 <= j <= n
    requires FilledUpTo(t, m, n, goal, i, j)
    ensures Valid(SetEntry(t, i, j, goal[i - 1][j - 1]), m, n)
    ensures FilledUpTo(SetEntry(t, i, j, goal[i - 1][j - 1]), m, n, goal, i, j + 1)
  {
    SetEntryCorrect(t, m, n, i, j, goal[i - 1][j - 1]);
  }

  /** Past the last column of row i, the filled region is rows 1..i. */
  lemma FillRowEnd(t: Storage, m: nat, n: nat, goal: seq<seq<int>>, i: nat)
    requires Shaped(t) && |t.rows| == m + 1 && Dense.Covers(goal, m, n)
    requires FilledUpTo(t, m, n, goal, i, n + 1)
    ensures FilledUpTo(t, m, n, goal, i + 1, 1)
  {
  }

  /** Once every row is filled, the matrix denotes `goal`. */
  lemma FillDone(t: Storage, m: nat, n: nat, goal: seq<seq<int>>)
    requires Shaped(t) && |t.rows| == m + 1
    requires |goal| == m && forall i :: 0 <= i < m ==> |goal[i]| == n
    requires FilledUpTo(t, m, n, goal, m + 1, 1)
    ensures DenseOf(t, m, n) == goal
  {
    DenseOfCells(t, m, n, goal);
  }

  /** Once every row of a valid storage is filled, it denotes `goal`, and
      it holds some pair exactly when `goal` has a non-zero cell. */
  lemma FillFinished(t: Storage, m: nat, n: nat, goal: seq<seq<int>>)
    requires Valid(t, m, n)
    requires |goal| == m && forall i :: 0 <= i < m ==> |goal[i]| == n
    requires FilledUpTo(t, m, n, goal, m + 1, 1)
    ensures DenseOf(t, m, n) == goal
    ensures |t.cols| > 0 <==> Dense.HasNonZero(goal)
  {
    FillDone(t, m, n, goal);
    StoredIffNonZero(t, m, n);
  }

  /** Every stored column number lies within 1..n. */
  lemma ColumnsBounded(s: Storage, m: nat, n: nat)
    requires Valid(s, m, n)
    ensures forall k :: 0 <= k < |s.cols| ==> 1 <= s.cols[k] <= n
  {
  }

  /** Extending a run of stored pairs by one adds that pair's product. */
  lemma RowProductSnoc(cs: seq<nat>, vs: seq<int>, x: seq<int>, lo: nat, j: nat)
    requires |cs| == |vs| && lo < j <= |cs| && 1 <= cs[j - 1] <= |x|
    ensures RowProduct(cs[lo..j], vs[lo..j], x) ==
      RowProduct(cs[lo..j - 1], vs[lo..j - 1], x) + vs[j - 1] * x[cs[j - 1] - 1]
  {
    var a, b := cs[lo..j], vs[lo..j];
    assert a[..|a| - 1] == cs[lo..j - 1] && a[|a| - 1] == cs[j - 1];
    assert b[..|b| - 1] == vs[lo..j - 1] && b[|b| - 1] == vs[j - 1];
  }

  /** With nothing stored, the product with any vector is all zeros. */
  lemma ProductOfEmpty(s: Storage, m: nat, n: nat, x: seq<int>)
    requires Valid(s, m, n) && |s.cols| == 0 && |x| == n
    ensures Dense.Covers(DenseOf(s, m, n), m, n)
    ensures Dense.MatrixVectorProduct(DenseOf(s, m, n), x) == seq(m, _ => 0)
  {
    var d := DenseOf(s, m, n);
    forall i | 0 <= i < m ensures Dense.Dot(d[i], x) == 0 {
      forall j | 0 <= j < n ensures d[i][j] == 0 {
        assert RowCols(s, i + 1) == [];
      }
      Dense.DotUnit(d[i], x, n, 0);
    }
  }
}
