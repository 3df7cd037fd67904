/**
  Value-level description of a classroom layout: the column specifications read from a
  layout file, the availability pattern a column gets, and the list of available seat
  coordinates the classroom enumerates from them.
 */
module SeatLayout {

  /** A roster entry: name, student number and the sex flag (true for male). */
  datatype Student = Student(name: string, id: string, sex: bool)

  /** A seat coordinate: the column index, then the seat index within that column. */
  type Position = (nat, nat)

  /** One entry of a layout file, `{type, length, start, text}`. The kind is kept as the
      string read from the file; only "seats" and "way" mean anything to the engine. */
  datatype ColumnSpec = ColumnSpec(kind: string, length: nat, start: nat, text: string)

  const SeatsKind: string := "seats"
  const WayKind: string := "way"

  predicate Distinct<T(==)>(s: seq<T>)
  {
    forall i, j :: 0 <= i < j < |s| ==> s[i] != s[j]
  }

  /** The availability flags a column gets: `start` unavailable seats, then `length` available ones. */
  function GapPattern(start: nat, length: nat): seq<bool>
  {
    seq(start + length, i => start <= i)
  }

  /** The consecutive indices lo, lo + 1, ..., lo + n - 1. */
  function Range(lo: nat, n: nat): seq<nat>
  {
    seq(n, k => lo + k)
  }

  /** The indices of the true flags, collected by a scan from the front. */
  function AvailIndices(flags: seq<bool>): (r: seq<nat>)
    ensures forall k :: 0 <= k < |r| ==> r[k] < |flags| && flags[r[k]]
    ensures forall i :: 0 <= i < |flags| && flags[i] ==> i in r
    ensures forall j, k :: 0 <= j < k < |r| ==> r[j] < r[k]
  {
    if |flags| == 0 then []
    else AvailIndices(flags[..|flags| - 1]) + (if flags[|flags| - 1] then [|flags| - 1] else [])
  }

  /** A column with a leading gap of `start` yields exactly the indices start .. start + length - 1. */
  lemma {:induction false} AvailIndicesOfGap(start: nat, length: nat)
    ensures AvailIndices(GapPattern(start, length)) == Range(start, length)
  {
    var flags := GapPattern(start, length);
    if length > 0 {
      var n := start + length - 1;
      AvailIndicesOfGap(start, length - 1);
      assert flags[..n] == GapPattern(start, length - 1);
      assert flags[n];
      assert AvailIndices(flags) == AvailIndices(flags[..n]) + [n];
      RangeSnoc(start, length - 1);
    } else {
      NoAvailIndices(flags);
    }
  }

  lemma RangeSnoc(lo: nat, n: nat)
    ensures Range(lo, n + 1) == Range(lo, n) + [lo + n]
  {
  }

  lemma {:induction false} NoAvailIndices(flags: seq<bool>)
    requires forall i :: 0 <= i < |flags| ==> !flags[i]
    ensures AvailIndices(flags) == []
  {
    if |flags| > 0 {
      NoAvailIndices(flags[..|flags| - 1]);
    }
  }

  /** The coordinates column `x` contributes to the available-seat list. */
  function ColumnSeats(x: nat, c: ColumnSpec): seq<Position>
  {
    if c.kind == SeatsKind then seq(c.length, k => (x, c.start + k)) else []
  }

  /** A "seats" column's coordinates pair its index with each of its available indices. */
  lemma ColumnSeatsOfIndices(x: nat, c: ColumnSpec, indices: seq<nat>)
    requires c.kind == SeatsKind && indices == AvailIndices(GapPattern(c.start, c.length))
    ensures ColumnSeats(x, c) == seq(|indices|, n requires 0 <= n < |indices| => (x, indices[n]))
  {
    AvailIndicesOfGap(c.start, c.length);
  }

  /** The available-seat list of a layout: column by column, and within a column by seat index. */
  function AvailSeats(layout: seq<ColumnSpec>): seq<Position>
  {
    if |layout| == 0 then []
    else AvailSeats(layout[..|layout| - 1]) + ColumnSeats(|layout| - 1, layout[|layout| - 1])
  }

  /** Seat `p` exists in the layout, lies in a "seats" column and is past that column's gap. */
  ghost predicate IsAvailableIn(layout: seq<ColumnSpec>, p: Position)
  {
    p.0 < |layout| && layout[p.0].kind == SeatsKind &&
    layout[p.0].start <= p.1 < layout[p.0].start + layout[p.0].length
  }

  /** The number of available seats: the lengths of the "seats" columns, added up. */
  function Capacity(layout: seq<ColumnSpec>): nat
  {
    if |layout| == 0 then 0
    else
      var c := layout[|layout| - 1];
      Capacity(layout[..|layout| - 1]) + (if c.kind == SeatsKind then c.length else 0)
  }

  /** Lexicographic order on coordinates: by column, then by seat. */
  predicate Before(p: Position, q: Position)
  {
    p.0 < q.0 || (p.0 == q.0 && p.1 < q.1)
  }

  lemma ColumnSeatsMember(x: nat, c: ColumnSpec, p: Position)
    ensures p in ColumnSeats(x, c) <==>
            p.0 == x && c.kind == SeatsKind && c.start <= p.1 < c.start + c.length
  {
    if p.0 == x && c.kind == SeatsKind && c.start <= p.1 < c.start + c.length {
      assert ColumnSeats(x, c)[p.1 - c.start] == p;
    }
  }

  /** The list holds exactly the available seats of "seats" columns. */
  lemma {:induction false} AvailSeatsMember(layout: seq<ColumnSpec>, p: Position)
    ensures p in AvailSeats(layout) <==> IsAvailableIn(layout, p)
  {
    if |layout| > 0 {
      var n := |layout| - 1;
      AvailSeatsMember(layout[..n], p);
      ColumnSeatsMember(n, layout[n], p);
      if p.0 < n {
        assert layout[..n][p.0] == layout[p.0];
      }
    }
  }

  /** Strictly increasing in column-major order. */
  predicate Ascending(s: seq<Position>)
  {
    forall i, j :: 0 <= i < j < |s| ==> Before(s[i], s[j])
  }

  lemma AscendingConcat(a: seq<Position>, b: seq<Position>)
    requires Ascending(a) && Ascending(b)
    requires forall i, j :: 0 <= i < |a| && 0 <= j < |b| ==> Before(a[i], b[j])
    ensures Ascending(a + b)
  {
    var s := a + b;
    forall i, j | 0 <= i < j < |s|
      ensures Before(s[i], s[j])
    {
      if j < |a| {
        assert s[i] == a[i] && s[j] == a[j];
      } else if i < |a| {
        assert s[i] == a[i] && s[j] == b[j - |a|];
      } else {
        assert s[i] == b[i - |a|] && s[j] == b[j - |a|];
      }
    }
  }

  lemma AscendingDistinct(s: seq<Position>)
    requires Ascending(s)
    ensures Distinct(s)
  {
    forall i, j | 0 <= i < j < |s|
      ensures s[i] != s[j]
    {
      assert Before(s[i], s[j]);
    }
  }

  /** Every coordinate in the list names one of the layout's columns. */
  lemma {:induction false} AvailSeatsInLayout(layout: seq<ColumnSpec>)
    ensures forall i :: 0 <= i < |AvailSeats(layout)| ==> AvailSeats(layout)[i].0 < |layout|
  {
    forall i | 0 <= i < |AvailSeats(layout)|
      ensures AvailSeats(layout)[i].0 < |layout|
    {
      AvailSeatsMember(layout, AvailSeats(layout)[i]);
    }
  }

  /** The list is strictly increasing in column-major order, so no coordinate repeats. */
  lemma {:induction false} AvailSeatsOrdered(layout: seq<ColumnSpec>)
    ensures Ascending(AvailSeats(layout))
    ensures Distinct(AvailSeats(layout))
  {
    if |layout| > 0 {
      var n := |layout| - 1;
      var front := AvailSeats(layout[..n]);
      var back := ColumnSeats(n, layout[n]);
      AvailSeatsOrdered(layout[..n]);
      AvailSeatsInLayout(layout[..n]);
      AscendingConcat(front, back);
    }
    AscendingDistinct(AvailSeats(layout));
  }

  /** The list is as long as the layout's capacity. */
  lemma {:induction false} AvailSeatsCount(layout: seq<ColumnSpec>)
    ensures |AvailSeats(layout)| == Capacity(layout)
  {
    if |layout| > 0 {
      AvailSeatsCount(layout[..|layout| - 1]);
    }
  }

  /** A layout with no columns has no capacity. */
  lemma {:induction false} CapacityNeedsColumns(layout: seq<ColumnSpec>)
    ensures Capacity(layout) > 0 ==> |layout| > 0
    ensures Capacity(layout) > 0 ==> exists x :: 0 <= x < |layout| && layout[x].kind == SeatsKind && layout[x].length > 0
  {
    if |layout| > 0 {
      var n := |layout| - 1;
      CapacityNeedsColumns(layout[..n]);
      if Capacity(layout[..n]) > 0 {
        var x :| 0 <= x < n && layout[..n][x].kind == SeatsKind && layout[..n][x].length > 0;
        assert layout[x] == layout[..n][x];
      }
    }
  }

  /** The largest element of a non-empty list, as Python's `max`. */
  function MaxOf(rows: seq<nat>): (m: nat)
    requires |rows| > 0
    ensures forall i :: 0 <= i < |rows| ==> rows[i] <= m
    ensures exists i :: 0 <= i < |rows| && rows[i] == m
  {
    if |rows| == 1 then rows[0]
    else
      var rest := MaxOf(rows[1..]);
      assert forall i :: 1 <= i < |rows| ==> rows[i] == rows[1..][i - 1];
      if rows[0] >= rest then rows[0] else rest
  }
}
