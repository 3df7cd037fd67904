/**
  The random assignment loop as a function of its random draws. The draws come from an
  injected source `rng`: the loop's k-th `random.randint` call yields `rng(k) % n` for a
  range of size n, so every sequence of in-range choices is some `rng`, and everything
  proved here holds for every choice sequence.
 */
module Assignment {
  import opened Wrappers
  import opened SeatLayout

  /** The k-th draw of `random.randint(0, n - 1)`. */
  function RandInt(rng: nat -> nat, k: nat, n: nat): (i: nat)
    requires n > 0
    ensures i < n
  {
    rng(k) % n
  }

  /** The list left after `list.pop(i)`. */
  function RemoveAt<T>(s: seq<T>, i: nat): (r: seq<T>)
    requires i < |s|
    ensures |r| == |s| - 1
    ensures multiset(r) + multiset{s[i]} == multiset(s)
    ensures forall x :: x in r ==> x in s
  {
    assert s == s[..i] + [s[i]] + s[i + 1..];
    s[..i] + s[i + 1..]
  }

  lemma RemoveAtDistinct<T>(s: seq<T>, i: nat)
    requires i < |s| && Distinct(s)
    ensures Distinct(RemoveAt(s, i)) && s[i] !in RemoveAt(s, i)
  {
    var r := RemoveAt(s, i);
    forall a, b | 0 <= a < b < |r|
      ensures r[a] != r[b]
    {
      var a' := if a < i then a else a + 1;
      var b' := if b < i then b else b + 1;
      assert r[a] == s[a'] && r[b] == s[b'];
    }
    forall a | 0 <= a < |r|
      ensures r[a] != s[i]
    {
      assert r[a] == s[if a < i then a else a + 1];
    }
  }

  /**
    The (position, student) pairs the loop records, in order. Step `step` makes draws
    `2 * step` and `2 * step + 1`: it pops the student at the first drawn index, then the
    position at the second, and it stops as soon as either list is empty.
   */
  function Deal(students: seq<Student>, seats: seq<Position>, rng: nat -> nat, step: nat)
    : seq<(Position, Student)>
    decreases |students|
  {
    if |students| == 0 || |seats| == 0 then []
    else
      var i := RandInt(rng, 2 * step, |students|);
      var j := RandInt(rng, 2 * step + 1, |seats|);
      [(seats[j], students[i])] + Deal(RemoveAt(students, i), RemoveAt(seats, j), rng, step + 1)
  }

  function Positions(d: seq<(Position, Student)>): seq<Position>
  {
    seq(|d|, n requires 0 <= n < |d| => d[n].0)
  }

  function Students(d: seq<(Position, Student)>): seq<Student>
  {
    seq(|d|, n requires 0 <= n < |d| => d[n].1)
  }

  /** One more turn of the loop moves its pair from the pairs still to come to the pairs made. */
  lemma DealStep(d: seq<(Position, Student)>, dealt: seq<(Position, Student)>,
                 students: seq<Student>, seats: seq<Position>, rng: nat -> nat, step: nat)
    requires |students| > 0 && |seats| > 0
    requires d == dealt + Deal(students, seats, rng, step)
    ensures var i, j := RandInt(rng, 2 * step, |students|), RandInt(rng, 2 * step + 1, |seats|);
            d == (dealt + [(seats[j], students[i])]) + Deal(RemoveAt(students, i), RemoveAt(seats, j), rng, step + 1)
  {
  }

  /** The loop makes min(|students|, |seats|) pairs. */
  lemma {:induction false} DealLength(students: seq<Student>, seats: seq<Position>, rng: nat -> nat, step: nat)
    ensures |Deal(students, seats, rng, step)| == if |students| <= |seats| then |students| else |seats|
    decreases |students|
  {
    if |students| > 0 && |seats| > 0 {
      var i := RandInt(rng, 2 * step, |students|);
      var j := RandInt(rng, 2 * step + 1, |seats|);
      DealLength(RemoveAt(students, i), RemoveAt(seats, j), rng, step + 1);
    }
  }

  /** Every chosen position is one of the offered seats. */
  lemma {:induction false} DealChoosesOfferedSeats(students: seq<Student>, seats: seq<Position>, rng: nat -> nat, step: nat)
    ensures forall p :: p in Positions(Deal(students, seats, rng, step)) ==> p in seats
    decreases |students|
  {
    if |students| > 0 && |seats| > 0 {
      var i := RandInt(rng, 2 * step, |students|);
      var j := RandInt(rng, 2 * step + 1, |seats|);
      var rest := Deal(RemoveAt(students, i), RemoveAt(seats, j), rng, step + 1);
      DealChoosesOfferedSeats(RemoveAt(students, i), RemoveAt(seats, j), rng, step + 1);
      assert Positions(Deal(students, seats, rng, step)) == [seats[j]] + Positions(rest);
    }
  }

  lemma PositionsAppend(d: seq<(Position, Student)>, p: Position, s: Student)
    ensures Positions(d + [(p, s)]) == Positions(d) + [p]
  {
  }

  /** The positions and the students of a list that starts with one given pair. */
  lemma PairsCons(p: Position, s: Student, rest: seq<(Position, Student)>)
    ensures Positions([(p, s)] + rest) == [p] + Positions(rest)
    ensures Students([(p, s)] + rest) == [s] + Students(rest)
  {
  }

  lemma DistinctCons<T>(x: T, s: seq<T>)
    requires Distinct(s) && x !in s
    ensures Distinct([x] + s)
  {
    var t := [x] + s;
    forall a, b | 0 <= a < b < |t|
      ensures t[a] != t[b]
    {
      assert t[b] == s[b - 1];
      if a > 0 {
        assert t[a] == s[a - 1];
      }
    }
  }

  /** Offered seats that are pairwise distinct are chosen at most once each. */
  lemma {:induction false} DealSeatsDistinct(students: seq<Student>, seats: seq<Position>, rng: nat -> nat, step: nat)
    requires Distinct(seats)
    ensures Distinct(Positions(Deal(students, seats, rng, step)))
    decreases |students|
  {
    if |students| > 0 && |seats| > 0 {
      var i := RandInt(rng, 2 * step, |students|);
      var j := RandInt(rng, 2 * step + 1, |seats|);
      var rest := Deal(RemoveAt(students, i), RemoveAt(seats, j), rng, step + 1);
      RemoveAtDistinct(seats, j);
      DealSeatsDistinct(RemoveAt(students, i), RemoveAt(seats, j), rng, step + 1);
      DealChoosesOfferedSeats(RemoveAt(students, i), RemoveAt(seats, j), rng, step + 1);
      PairsCons(seats[j], students[i], rest);
      DistinctCons(seats[j], Positions(rest));
    }
  }

  /** With at least as many seats as students, the students placed are the roster, each as often as it occurs. */
  lemma {:induction false} DealPlacesEveryStudent(students: seq<Student>, seats: seq<Position>, rng: nat -> nat, step: nat)
    requires |students| <= |seats|
    ensures multiset(Students(Deal(students, seats, rng, step))) == multiset(students)
    decreases |students|
  {
    if |students| > 0 {
      var i := RandInt(rng, 2 * step, |students|);
      var j := RandInt(rng, 2 * step + 1, |seats|);
      var left := RemoveAt(students, i);
      var rest := Deal(left, RemoveAt(seats, j), rng, step + 1);
      DealPlacesEveryStudent(left, RemoveAt(seats, j), rng, step + 1);
      PairsCons(seats[j], students[i], rest);
      assert multiset([students[i]] + Students(rest)) == multiset{students[i]} + multiset(left);
    }
  }

  /**
    On a feasible input (at least one student, no more students than distinct seats) the
    loop pairs every student with its own seat: as many pairs as students, distinct
    positions drawn from the offered seats, and the students placed are the roster.
   */
  lemma FeasibleDealIsBijection(students: seq<Student>, seats: seq<Position>, rng: nat -> nat)
    requires 0 < |students| <= |seats| && Distinct(seats)
    ensures |Deal(students, seats, rng, 0)| == |students|
    ensures Distinct(Positions(Deal(students, seats, rng, 0)))
    ensures forall p :: p in Positions(Deal(students, seats, rng, 0)) ==> p in seats
    ensures multiset(Students(Deal(students, seats, rng, 0))) == multiset(students)
  {
    DealLength(students, seats, rng, 0);
    DealSeatsDistinct(students, seats, rng, 0);
    DealChoosesOfferedSeats(students, seats, rng, 0);
    DealPlacesEveryStudent(students, seats, rng, 0);
  }

  /** The occupant of seat `p` after the pairs `d` are written in order, starting from `prev`. */
  function After(prev: Option<Student>, d: seq<(Position, Student)>, p: Position): Option<Student>
  {
    if |d| == 0 then prev
    else if d[|d| - 1].0 == p then Some(d[|d| - 1].1)
    else After(prev, d[..|d| - 1], p)
  }

  /** Writing one more pair changes only the seat it names. */
  lemma AfterAppend(prev: Option<Student>, d: seq<(Position, Student)>, q: Position, s: Student, p: Position)
    ensures After(prev, d + [(q, s)], p) == if p == q then Some(s) else After(prev, d, p)
  {
    assert (d + [(q, s)])[..|d|] == d;
  }

  /** With distinct positions, a chosen seat holds the student paired with it and any other seat keeps what it had. */
  lemma {:induction false} AfterDistinct(prev: Option<Student>, d: seq<(Position, Student)>, p: Position)
    requires Distinct(Positions(d))
    ensures forall n :: 0 <= n < |d| && d[n].0 == p ==> After(prev, d, p) == Some(d[n].1)
    ensures p !in Positions(d) ==> After(prev, d, p) == prev
  {
    if |d| > 0 {
      var m := |d| - 1;
      assert Positions(d[..m]) == Positions(d)[..m];
      AfterDistinct(prev, d[..m], p);
      if d[m].0 != p {
        assert forall n :: 0 <= n < m ==> d[..m][n] == d[n];
        assert p !in Positions(d) ==> p !in Positions(d[..m]);
      } else {
        assert Positions(d)[m] == p;
        forall n | 0 <= n < m
          ensures d[n].0 != p
        {
          assert Positions(d)[n] == d[n].0;
        }
      }
    }
  }
}
