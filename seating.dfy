/**
  The seat-assignment engine: seats, columns and the classroom that builds its grid from
  a layout, validates a roster against it, places the roster at random and projects the
  result for display.
 */
module Seating {
  import opened Wrappers
  import opened SeatLayout
  import opened Assignment
  import opened PositionKeys

  /** The outcome of validation: feasible, or the first reason the roster cannot be seated. */
  datatype CheckResult = Feasible | EmptyLayout | EmptyRoster | InsufficientSeats
  {
    /** The value the engine returns: False (0) when feasible, else -1, -2 or -3. */
    function Code(): (c: int)
      ensures c == 0 <==> this == Feasible
      ensures c == -1 <==> this == EmptyLayout
      ensures c == -2 <==> this == EmptyRoster
      ensures c == -3 <==> this == InsufficientSeats
      ensures -3 <= c <= 0
    {
      match this
      case Feasible => 0
      case EmptyLayout => -1
      case EmptyRoster => -2
      case InsufficientSeats => -3
    }
  }

  /** One seat: whether it may be used, and the student written into it, if any. */
  class Seat {
    const avail: bool
    var stu: Option<Student>

    constructor (avail: bool)
      ensures this.avail == avail && stu == None
    {
      this.avail := avail;
      stu := None;
    }

    /** Writes a student into the seat. */
    method Dump(student: Student)
      modifies this
      ensures stu == Some(student)
    {
      stu := Some(student);
    }
  }

  /** One column of the grid: its kind as read from the layout and its seats. */
  class Column {
    const kind: string
    const seats: seq<Seat>

    /** Builds `length + start` seats, the first `start` of them unavailable, whatever the kind. */
    constructor (data: ColumnSpec)
      ensures kind == data.kind
      ensures |seats| == data.start + data.length
      ensures forall i :: 0 <= i < |seats| ==> (seats[i].avail <==> data.start <= i)
      ensures forall i :: 0 <= i < |seats| ==> fresh(seats[i]) && seats[i].stu == None
      ensures forall i, j :: 0 <= i < j < |seats| ==> seats[i] != seats[j]
    {
      kind := data.kind;
      var column: seq<Seat> := [];
      var n := data.length + data.start;
      var i := 0;
      while i < n
        invariant 0 <= i <= n
        invariant |column| == i
        invariant forall k :: 0 <= k < i ==> (column[k].avail <==> data.start <= k)
        invariant forall k :: 0 <= k < i ==> fresh(column[k]) && column[k].stu == None
        invariant forall k, l :: 0 <= k < l < i ==> column[k] != column[l]
      {
        var seat := new Seat(data.start <= i);
        column := column + [seat];
        i := i + 1;
      }
      seats := column;
    }

    /** The availability flag of every seat, in order. */
    function Flags(): seq<bool>
    {
      seq(|seats|, i requires 0 <= i < |seats| => seats[i].avail)
    }

    /** Writes a student into seat `index`, but only when that seat is available. */
    method Dump(index: nat, student: Student)
      requires index < |seats|
      modifies seats[index]
      ensures seats[index].stu == if seats[index].avail then Some(student) else old(seats[index].stu)
    {
      if seats[index].avail {
        seats[index].Dump(student);
      }
    }

    /** The indices of the available seats, ascending. */
    method GetAllAvailSeatsIndex() returns (avail: seq<nat>)
      ensures avail == AvailIndices(Flags())
    {
      avail := [];
      var i := 0;
      while i < |seats|
        invariant 0 <= i <= |seats|
        invariant avail == AvailIndices(Flags()[..i])
      {
        assert Flags()[..i + 1][..i] == Flags()[..i];
        if seats[i].avail {
          avail := avail + [i];
        }
        i := i + 1;
      }
      assert Flags()[..|seats|] == Flags();
    }
  }

  /** Column `c` was built as column `x` from `spec`: its shape, its flags, empty seats, and `own` places each seat. */
  ghost predicate BuiltFrom(c: Column, x: nat, spec: ColumnSpec, own: map<Seat, Position>)
    reads c.seats
  {
    c.kind == spec.kind && |c.seats| == spec.start + spec.length &&
    c.Flags() == GapPattern(spec.start, spec.length) &&
    (forall y :: 0 <= y < |c.seats| ==> (c.seats[y].avail <==> spec.start <= y)) &&
    (forall y :: 0 <= y < |c.seats| ==> c.seats[y] in own && own[c.seats[y]] == (x, y)) &&
    (forall y :: 0 <= y < |c.seats| ==> c.seats[y].stu == None)
  }

  lemma BuiltFromGrows(c: Column, x: nat, spec: ColumnSpec, own: map<Seat, Position>, own': map<Seat, Position>)
    requires BuiltFrom(c, x, spec, own)
    requires forall s :: s in own ==> s in own' && own'[s] == own[s]
    ensures BuiltFrom(c, x, spec, own')
  {
  }

  /** Every seat `own` places sits in `columns` at the coordinate it is given. */
  predicate Covers(columns: seq<Column>, own: map<Seat, Position>)
  {
    forall s :: s in own ==>
      own[s].0 < |columns| && own[s].1 < |columns[own[s].0].seats| && columns[own[s].0].seats[own[s].1] == s
  }

  /** The coordinates of the seats of one column `x` whose seats are distinct. */
  ghost function SeatMap(column: Column, x: nat): (m: map<Seat, Position>)
    requires forall i, j :: 0 <= i < j < |column.seats| ==> column.seats[i] != column.seats[j]
    ensures forall y :: 0 <= y < |column.seats| ==> column.seats[y] in m && m[column.seats[y]] == (x, y)
    ensures forall s :: s in m ==> m[s].0 == x && m[s].1 < |column.seats| && column.seats[m[s].1] == s
  {
    map y | 0 <= y < |column.seats| :: column.seats[y] := (x, y)
  }

  lemma CoversExtend(columns: seq<Column>, column: Column, own: map<Seat, Position>, added: map<Seat, Position>)
    requires Covers(columns, own)
    requires forall s :: s in added ==> added[s].0 == |columns| && added[s].1 < |column.seats| && column.seats[added[s].1] == s
    ensures Covers(columns + [column], own + added)
  {
    var columns', own' := columns + [column], own + added;
    forall s | s in own'
      ensures own'[s].0 < |columns'| && own'[s].1 < |columns'[own'[s].0].seats| &&
              columns'[own'[s].0].seats[own'[s].1] == s
    {
      if s !in added {
        assert own'[s] == own[s] && columns'[own[s].0] == columns[own[s].0];
      }
    }
  }

  /**
    A classroom: the grid built from a layout, the available-seat list enumerated once at
    construction, and the history of the positions filled by random assignment.
   */
  class Classroom {
    const grid: seq<Column>
    const availSeats: seq<Position>
    var haveRandom: bool
    var haveRandomSeats: seq<Position>

    /** The layout the grid was built from. */
    ghost const layout: seq<ColumnSpec>
    /** The position of every seat object; it is injective, so no seat object is shared. */
    ghost const owner: map<Seat, Position>

    ghost function Repr(): set<Seat>
    {
      owner.Keys
    }

    predicate InGrid(x: nat, y: nat)
    {
      x < |grid| && y < |grid[x].seats|
    }

    /** The grid has the shape of the layout and the available-seat list is the layout's. */
    ghost predicate Wellformed()
    {
      && |grid| == |layout|
      && (forall x :: 0 <= x < |grid| ==>
            grid[x].kind == layout[x].kind && |grid[x].seats| == layout[x].start + layout[x].length)
      && (forall x: nat, y: nat :: InGrid(x, y) ==> (grid[x].seats[y].avail <==> layout[x].start <= y))
      && (forall x: nat, y: nat :: InGrid(x, y) ==>
            grid[x].seats[y] in owner && owner[grid[x].seats[y]] == (x, y))
      && (forall s :: s in owner ==> InGrid(owner[s].0, owner[s].1) && grid[owner[s].0].seats[owner[s].1] == s)
      && availSeats == AvailSeats(layout)
    }

    /**
      The object invariant: the history names only available seats and they are occupied,
      and a seat is occupied only if it is in the history.
     */
    ghost predicate Valid()
      reads this, Repr()
    {
      && Wellformed()
      && (forall n :: 0 <= n < |haveRandomSeats| ==>
            var p := haveRandomSeats[n];
            p in availSeats && InGrid(p.0, p.1) && grid[p.0].seats[p.1].stu.Some?)
      && (forall x: nat, y: nat :: InGrid(x, y) && grid[x].seats[y].stu.Some? ==> (x, y) in haveRandomSeats)
    }

    ghost function Occupant(x: nat, y: nat): Option<Student>
      requires InGrid(x, y)
      reads grid[x].seats[y]
    {
      grid[x].seats[y].stu
    }

    /** A coordinate is in the available-seat list iff it names an available seat of a "seats" column. */
    lemma AvailSeatsExact(p: Position)
      requires Wellformed()
      ensures p in availSeats <==>
                InGrid(p.0, p.1) && grid[p.0].kind == SeatsKind && grid[p.0].seats[p.1].avail
    {
      AvailSeatsMember(layout, p);
    }

    /** Builds one column per layout entry, then lists the available seats of "seats" columns. */
    constructor (layout: seq<ColumnSpec>)
      ensures Valid() && this.layout == layout
      ensures fresh(Repr())
      ensures !haveRandom && haveRandomSeats == []
      ensures forall x: nat, y: nat :: InGrid(x, y) ==> Occupant(x, y) == None
    {
      var columns, own := BuildColumns(layout);
      var avail := ListAvailSeats(columns, layout);
      grid := columns;
      availSeats := avail;
      this.layout := layout;
      owner := own;
      haveRandom := false;
      haveRandomSeats := [];
    }

    /** The first loop of the constructor: a fresh column for each layout entry, in order. */
    static method BuildColumns(layout: seq<ColumnSpec>) returns (columns: seq<Column>, ghost own: map<Seat, Position>)
      ensures |columns| == |layout|
      ensures forall x :: 0 <= x < |layout| ==> BuiltFrom(columns[x], x, layout[x], own)
      ensures forall s :: s in own ==> fresh(s)
      ensures Covers(columns, own)
    {
      columns := [];
      own := map[];
      var i := 0;
      while i < |layout|
        invariant 0 <= i <= |layout|
        invariant |columns| == i
        invariant forall x :: 0 <= x < i ==> BuiltFrom(columns[x], x, layout[x], own)
        invariant forall s :: s in own ==> fresh(s)
        invariant Covers(columns, own)
      {
        var column := new Column(layout[i]);
        assert column.Flags() == GapPattern(layout[i].start, layout[i].length);
        ghost var added := SeatMap(column, i);
        assert forall s :: s in own ==> s !in added;
        ghost var own' := own + added;
        assert BuiltFrom(column, i, layout[i], own');
        CoversExtend(columns, column, own, added);
        var columns' := columns + [column];
        forall x | 0 <= x < i + 1
          ensures BuiltFrom(columns'[x], x, layout[x], own')
        {
          if x < i {
            assert columns'[x] == columns[x];
            BuiltFromGrows(columns[x], x, layout[x], own, own');
          }
        }
        own := own';
        columns := columns';
        i := i + 1;
      }
    }

    /** The second loop of the constructor: the available seats of the "seats" columns, column by column. */
    static method ListAvailSeats(columns: seq<Column>, ghost layout: seq<ColumnSpec>) returns (avail: seq<Position>)
      requires |columns| == |layout|
      requires forall x :: 0 <= x < |layout| ==>
                 columns[x].kind == layout[x].kind &&
                 columns[x].Flags() == GapPattern(layout[x].start, layout[x].length)
      ensures avail == AvailSeats(layout)
    {
      avail := [];
      var x := 0;
      while x < |columns|
        invariant 0 <= x <= |columns|
        invariant avail == AvailSeats(layout[..x])
      {
        ghost var before := avail;
        ghost var here := ColumnSeats(x, layout[x]);
        assert AvailSeats(layout[..x + 1]) == before + here by {
          assert layout[..x + 1][..x] == layout[..x];
        }
        if columns[x].kind == SeatsKind {
          var indices := columns[x].GetAllAvailSeatsIndex();
          ColumnSeatsOfIndices(x, layout[x], indices);
          avail := AppendColumnSeats(avail, x, indices);
        } else {
          assert here == [];
        }
        x := x + 1;
      }
      assert layout[..|layout|] == layout;
    }

    /** The inner loop of the listing: column x's available indices, appended as coordinates. */
    static method AppendColumnSeats(avail: seq<Position>, x: nat, indices: seq<nat>) returns (r: seq<Position>)
      ensures r == avail + seq(|indices|, n requires 0 <= n < |indices| => (x, indices[n]))
    {
      r := avail;
      var k := 0;
      while k < |indices|
        invariant 0 <= k <= |indices|
        invariant r == avail + seq(k, n requires 0 <= n < k => (x, indices[n]))
      {
        r := r + [(x, indices[k])];
        k := k + 1;
      }
    }

    /**
      Validation, in priority order: no available seat, then an empty roster, then fewer
      available seats than students; otherwise the roster can be seated.
     */
    function Check(stuList: seq<Student>): (r: CheckResult)
      requires Wellformed()
      ensures r == EmptyLayout <==> Capacity(layout) == 0
      ensures r == EmptyRoster <==> Capacity(layout) > 0 && |stuList| == 0
      ensures r == InsufficientSeats <==> 0 < Capacity(layout) < |stuList|
      ensures r == Feasible <==> 0 < |stuList| <= Capacity(layout)
    {
      AvailSeatsCount(layout);
      var l1 := |availSeats|;
      if l1 == 0 then EmptyLayout
      else
        var l2 := |stuList|;
        if l2 == 0 then EmptyRoster
        else if l1 < l2 then InsufficientSeats
        else Feasible
    }

    /** The codes in the source's own terms: the length of the available-seat list against the roster's. */
    lemma CheckCodes(stuList: seq<Student>)
      requires Wellformed()
      ensures Check(stuList).Code() == -1 <==> |availSeats| == 0
      ensures Check(stuList).Code() == -2 <==> |availSeats| > 0 && |stuList| == 0
      ensures Check(stuList).Code() == -3 <==> 0 < |availSeats| < |stuList|
      ensures Check(stuList).Code() == 0 <==> 0 < |stuList| <= |availSeats|
    {
      AvailSeatsCount(layout);
    }

    /** A feasible roster implies at least one column, so the display size is defined. */
    lemma FeasibleHasColumns(stuList: seq<Student>)
      requires Wellformed() && Check(stuList) == Feasible
      ensures |grid| > 0
      ensures exists x :: 0 <= x < |grid| && grid[x].kind == SeatsKind && |grid[x].seats| > 0
    {
      CapacityNeedsColumns(layout);
    }

    /** Only available seats of "seats" columns are ever occupied. */
    lemma OccupiedSeatsAreAvailable()
      requires Valid()
      ensures forall x: nat, y: nat :: InGrid(x, y) && Occupant(x, y).Some? ==>
                grid[x].kind == SeatsKind && grid[x].seats[y].avail
    {
      forall x: nat, y: nat | InGrid(x, y) && Occupant(x, y).Some?
        ensures grid[x].kind == SeatsKind && grid[x].seats[y].avail
      {
        AvailSeatsExact((x, y));
      }
    }

    /**
      Random assignment. When validation fails nothing changes. Otherwise the loop pops a
      random student and a random position from copies of the roster and of the
      available-seat list until the roster copy is empty, appends each position to the
      history and writes the student into that seat.
     */
    method Random(stuList: seq<Student>, rng: nat -> nat)
      requires Valid()
      modifies this, Repr()
      ensures Valid()
      ensures Check(stuList) != Feasible ==> unchanged(this) && unchanged(Repr())
      ensures Check(stuList) == Feasible ==>
                var d := Deal(stuList, availSeats, rng, 0);
                && haveRandom
                && haveRandomSeats == old(haveRandomSeats) + Positions(d)
                && |d| == |stuList|
                && Distinct(Positions(d))
                && (forall p :: p in Positions(d) ==> p in availSeats)
                && multiset(Students(d)) == multiset(stuList)
                && forall x: nat, y: nat :: InGrid(x, y) ==> Occupant(x, y) == After(old(Occupant(x, y)), d, (x, y))
    {
      if Check(stuList) != Feasible {
        return;
      }
      PlaceAll(stuList, rng);
      haveRandom := true;
      AvailSeatsOrdered(layout);
      AvailSeatsCount(layout);
      FeasibleDealIsBijection(stuList, availSeats, rng);
    }

    /**
      The assignment loop: pop a random student and a random position until either copy is
      empty; every pair is recorded in the history and written into its seat.
     */
    method PlaceAll(stuList: seq<Student>, rng: nat -> nat)
      requires Valid()
      modifies this, Repr()
      ensures Valid() && haveRandom == old(haveRandom)
      ensures haveRandomSeats == old(haveRandomSeats) + Positions(Deal(stuList, availSeats, rng, 0))
      ensures forall x: nat, y: nat :: InGrid(x, y) ==>
                Occupant(x, y) == After(old(Occupant(x, y)), Deal(stuList, availSeats, rng, 0), (x, y))
    {
      var seatsLeft := availSeats;
      var stuLeft := stuList;
      var step: nat := 0;
      ghost var d := Deal(stuList, availSeats, rng, 0);
      ghost var dealt: seq<(Position, Student)> := [];
      ghost var prev := imap p: Position | InGrid(p.0, p.1) :: Occupant(p.0, p.1);
      while |stuLeft| > 0 && |seatsLeft| > 0
        invariant Placed(prev, old(haveRandomSeats), dealt) && haveRandom == old(haveRandom)
        invariant d == dealt + Deal(stuLeft, seatsLeft, rng, step)
        invariant forall q :: q in seatsLeft ==> q in availSeats
        decreases |stuLeft|
      {
        var i := RandInt(rng, 2 * step, |stuLeft|);
        var stu := stuLeft[i];
        var j := RandInt(rng, 2 * step + 1, |seatsLeft|);
        var position := seatsLeft[j];
        DealStep(d, dealt, stuLeft, seatsLeft, rng, step);
        stuLeft := RemoveAt(stuLeft, i);
        seatsLeft := RemoveAt(seatsLeft, j);
        Place(position, stu, prev, old(haveRandomSeats), dealt);
        dealt := dealt + [(position, stu)];
        step := step + 1;
      }
      assert Deal(stuLeft, seatsLeft, rng, step) == [];
      assert d == dealt;
    }

    /**
      The state after writing the pairs `dealt` on top of occupancy `prev` and history
      `history`: the invariant holds, the history has grown by the pairs' positions, and
      every seat holds what the pairs last wrote there.
     */
    ghost predicate Placed(prev: imap<Position, Option<Student>>, history: seq<Position>, dealt: seq<(Position, Student)>)
      reads this, Repr()
    {
      && Valid()
      && haveRandomSeats == history + Positions(dealt)
      && forall x: nat, y: nat :: InGrid(x, y) ==>
           (x, y) in prev && Occupant(x, y) == After(prev[(x, y)], dealt, (x, y))
    }

    /** One step of the assignment loop: record the position in the history and write the student into that seat. */
    method Place(position: Position, stu: Student, ghost prev: imap<Position, Option<Student>>,
                 ghost history: seq<Position>, ghost dealt: seq<(Position, Student)>)
      requires Placed(prev, history, dealt) && position in availSeats
      modifies this, Repr()
      ensures Placed(prev, history, dealt + [(position, stu)]) && haveRandom == old(haveRandom)
    {
      haveRandomSeats := haveRandomSeats + [position];
      var x, y := position.0, position.1;
      AvailSeatsExact(position);
      grid[x].Dump(y, stu);
      PositionsAppend(dealt, position, stu);
      forall x': nat, y': nat | InGrid(x', y')
        ensures Occupant(x', y') == After(prev[(x', y')], dealt + [(position, stu)], (x', y'))
      {
        AfterAppend(prev[(x', y')], dealt, position, stu, (x', y'));
      }
    }

    /**
      The processed result: for every position in the history, the student sitting there,
      under the key `str(position)`. Every key reads back as a position of the history.
     */
    method GetProcessedData() returns (result: map<string, Student>)
      requires Valid()
      ensures forall n :: 0 <= n < |haveRandomSeats| ==>
                var p := haveRandomSeats[n];
                KeyOf(p) in result && Some(result[KeyOf(p)]) == Occupant(p.0, p.1)
      ensures forall k :: k in result ==>
                ParseKey(k).Some? && ParseKey(k).value in haveRandomSeats && KeyOf(ParseKey(k).value) == k
    {
      result := map[];
      ghost var vals: seq<Student> := [];
      var i := 0;
      while i < |haveRandomSeats|
        invariant 0 <= i <= |haveRandomSeats|
        invariant |vals| == i
        invariant forall n :: 0 <= n < i ==> Some(vals[n]) == Occupant(haveRandomSeats[n].0, haveRandomSeats[n].1)
        invariant result == Processed(haveRandomSeats[..i], vals)
      {
        var position := haveRandomSeats[i];
        var x, y := position.0, position.1;
        var seat := grid[x].seats[y];
        ProcessedExtend(haveRandomSeats, vals, i, seat.stu.value);
        result := result[KeyOf(position) := seat.stu.value];
        vals := vals + [seat.stu.value];
        i := i + 1;
      }
      assert haveRandomSeats[..i] == haveRandomSeats;
      ProcessedKeysParse(haveRandomSeats, vals);
      ProcessedValues(haveRandomSeats, vals);
    }

    /** The number of seats in each column, in order. */
    function Spans(): seq<nat>
    {
      seq(|grid|, x requires 0 <= x < |grid| => |grid[x].seats|)
    }

    /**
      The display size: the number of columns, and one more row than the tallest column
      has seats (row 0 is the podium). There is none for an empty grid, where `max` fails.
     */
    method DisplayUnit() returns (r: Option<(nat, nat)>)
      ensures r.None? <==> |grid| == 0
      ensures r.Some? ==> r.value.0 == |grid|
      ensures r.Some? ==> forall x :: 0 <= x < |grid| ==> |grid[x].seats| < r.value.1
      ensures r.Some? ==> exists x :: 0 <= x < |grid| && |grid[x].seats| + 1 == r.value.1
    {
      var column := |grid|;
      var rows: seq<nat> := [];
      var i := 0;
      while i < |grid|
        invariant 0 <= i <= |grid|
        invariant rows == Spans()[..i]
      {
        rows := rows + [|grid[i].seats|];
        i := i + 1;
      }
      if |rows| == 0 {
        return None;
      }
      assert rows == Spans();
      assert forall x :: 0 <= x < |grid| ==> rows[x] == |grid[x].seats|;
      var row := MaxOf(rows);
      r := Some((column, row + 1));
    }

    /** The indices of the "way" columns, ascending: the columns the table merges top to bottom. */
    method WayGather() returns (result: seq<nat>)
      ensures forall x: nat :: x in result <==> x < |grid| && grid[x].kind == WayKind
      ensures forall i, j :: 0 <= i < j < |result| ==> result[i] < result[j]
    {
      result := [];
      var index := 0;
      while index < |grid|
        invariant 0 <= index <= |grid|
        invariant forall x: nat :: x in result <==> x < index && grid[x].kind == WayKind
        invariant forall i, j :: 0 <= i < j < |result| ==> result[i] < result[j]
        invariant forall i :: 0 <= i < |result| ==> result[i] < index
      {
        if grid[index].kind == WayKind {
          result := result + [index];
        }
        index := index + 1;
      }
    }

    /** A seat in the history is drawn inside the table: its column exists and its row is below the podium and within the row count. */
    lemma HistoryInsideTable(p: Position)
      requires Valid() && p in haveRandomSeats
      ensures TableCell(KeyOf(p)) == Some((p.0, p.1 + 1))
      ensures p.0 < |grid| && 1 <= p.1 + 1 < MaxOf(Spans()) + 1
    {
      TableCellOfKey(p);
      assert Spans()[p.0] == |grid[p.0].seats|;
    }
  }
}
