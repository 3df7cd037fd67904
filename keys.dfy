/**
  The string keys of the processed result. A seat coordinate is stored under Python's
  `str((x, y))`, that is "(x, y)", and the result table reads the coordinate back from
  the key and moves it one row down, below the podium row.
 */
module PositionKeys {
  import opened Wrappers
  import opened SeatLayout

  predicate IsDigit(c: char)
  {
    '0' <= c <= '9'
  }

  predicate IsNumeral(s: string)
  {
    |s| > 0 && forall i :: 0 <= i < |s| ==> IsDigit(s[i])
  }

  function DigitChar(d: nat): (c: char)
    requires d < 10
  {
    ('0' as int + d) as char
  }

  function DigitValue(c: char): nat
    requires IsDigit(c)
  {
    c as int - '0' as int
  }

  /** The decimal digits of n, as Python's `str(n)` writes a non-negative int. */
  function Decimal(n: nat): string
  {
    if n < 10 then [DigitChar(n)] else Decimal(n / 10) + [DigitChar(n % 10)]
  }

  /** The value of a string of decimal digits, as Python's `int` reads it. */
  function ParseDecimal(s: string): nat
    requires forall i :: 0 <= i < |s| ==> IsDigit(s[i])
  {
    if |s| == 0 then 0 else ParseDecimal(s[..|s| - 1]) * 10 + DigitValue(s[|s| - 1])
  }

  lemma {:induction false} DecimalRoundTrip(n: nat)
    ensures IsNumeral(Decimal(n)) && ParseDecimal(Decimal(n)) == n
  {
    if n >= 10 {
      DecimalRoundTrip(n / 10);
      var s := Decimal(n);
      assert s[..|s| - 1] == Decimal(n / 10);
    }
  }

  /** The key of a seat in the processed result: `str(position)`. */
  function KeyOf(p: Position): string
  {
    "(" + Decimal(p.0) + ", " + Decimal(p.1) + ")"
  }

  /** Drops the characters in `cs` from the front (`str.lstrip`). */
  function StripLeft(s: string, cs: set<char>): string
  {
    if |s| > 0 && s[0] in cs then StripLeft(s[1..], cs) else s
  }

  /** Drops the characters in `cs` from the back (`str.rstrip`). */
  function StripRight(s: string, cs: set<char>): string
  {
    if |s| > 0 && s[|s| - 1] in cs then StripRight(s[..|s| - 1], cs) else s
  }

  function Strip(s: string, cs: set<char>): string
  {
    StripRight(StripLeft(s, cs), cs)
  }

  /** The index of the first `c` in `s`, or |s| when there is none. */
  function IndexOf(s: string, c: char): (i: nat)
    ensures i <= |s|
  {
    if |s| == 0 then 0 else if s[0] == c then 0 else 1 + IndexOf(s[1..], c)
  }

  /**
    The coordinate the result table reads from a key: strip the parentheses, split on
    commas, strip spaces from the first two fields and read them as numbers. A key without
    a comma, or with a field that is not a number, has no coordinate.
   */
  function ParseKey(key: string): Option<Position>
  {
    var inner := Strip(key, {'(', ')'});
    var i := IndexOf(inner, ',');
    if i == |inner| then None
    else
      var rest := inner[i + 1..];
      var first := Strip(inner[..i], {' '});
      var second := Strip(rest[..IndexOf(rest, ',')], {' '});
      if IsNumeral(first) && IsNumeral(second) then Some((ParseDecimal(first), ParseDecimal(second)))
      else None
  }

  /** The table cell (column, row) a key is drawn in; row 0 holds the podium. */
  function TableCell(key: string): Option<(nat, nat)>
  {
    match ParseKey(key)
    case None => None
    case Some(p) => Some((p.0, p.1 + 1))
  }

  lemma StripNumeral(s: string, cs: set<char>)
    requires IsNumeral(s) && forall c :: c in cs ==> !IsDigit(c)
    ensures StripLeft(s, cs) == s && StripRight(s, cs) == s
  {
  }

  lemma {:induction false} IndexOfAfterDigits(a: string, t: string)
    requires forall i :: 0 <= i < |a| ==> IsDigit(a[i])
    ensures IndexOf(a + t, ',') == |a| + IndexOf(t, ',')
  {
    if |a| > 0 {
      assert (a + t)[1..] == a[1..] + t;
      IndexOfAfterDigits(a[1..], t);
    } else {
      assert a + t == t;
    }
  }

  lemma StripKeyParens(a: string, b: string)
    requires IsNumeral(a) && IsNumeral(b)
    ensures Strip("(" + a + ", " + b + ")", {'(', ')'}) == a + ", " + b
  {
    var parens: set<char> := {'(', ')'};
    var body := a + ", " + b;
    var key := "(" + a + ", " + b + ")";
    assert key == "(" + body + ")";
    assert key[1..] == body + ")";
    assert StripLeft(key, parens) == body + ")" by {
      assert (body + ")")[0] == a[0];
    }
    assert StripRight(body + ")", parens) == body by {
      assert (body + ")")[..|body|] == body;
      assert body[|body| - 1] == b[|b| - 1];
    }
  }

  lemma SplitKeyBody(a: string, b: string)
    requires IsNumeral(a) && IsNumeral(b)
    ensures IndexOf(a + ", " + b, ',') == |a|
    ensures (a + ", " + b)[..|a|] == a
    ensures (a + ", " + b)[|a| + 1..] == " " + b
  {
    var t := ", " + b;
    IndexOfAfterDigits(a, t);
    assert a + ", " + b == a + t;
    assert IndexOf(t, ',') == 0 by {
      assert t[0] == ',';
    }
  }

  lemma NoCommaInField(b: string)
    requires IsNumeral(b)
    ensures IndexOf(" " + b, ',') == |" " + b|
  {
    var t := " " + b;
    assert t[1..] == b;
    assert IndexOf(t, ',') == 1 + IndexOf(b, ',');
    IndexOfAfterDigits(b, "");
    assert b + "" == b;
  }

  lemma StripField(b: string)
    requires IsNumeral(b)
    ensures Strip(" " + b, {' '}) == b
  {
    StripNumeral(b, {' '});
    assert StripLeft(" " + b, {' '}) == b by {
      assert (" " + b)[1..] == b;
    }
  }

  /** Reading a key back gives the coordinate it was made from. */
  lemma KeyRoundTrip(p: Position)
    ensures ParseKey(KeyOf(p)) == Some(p)
  {
    var a, b := Decimal(p.0), Decimal(p.1);
    DecimalRoundTrip(p.0);
    DecimalRoundTrip(p.1);
    StripKeyParens(a, b);
    SplitKeyBody(a, b);
    NoCommaInField(b);
    StripNumeral(a, {' '});
    StripField(b);
    var rest := " " + b;
    assert rest[..IndexOf(rest, ',')] == rest;
  }

  /** Distinct seats get distinct keys. */
  lemma KeyInjective(p: Position, q: Position)
    requires KeyOf(p) == KeyOf(q)
    ensures p == q
  {
    KeyRoundTrip(p);
    KeyRoundTrip(q);
  }

  lemma KeyDistinct(p: Position, q: Position)
    requires p != q
    ensures KeyOf(p) != KeyOf(q)
  {
    if KeyOf(p) == KeyOf(q) {
      KeyInjective(p, q);
    }
  }

  /** The seat at (x, y) is drawn in column x, row y + 1. */
  lemma TableCellOfKey(p: Position)
    ensures TableCell(KeyOf(p)) == Some((p.0, p.1 + 1))
  {
    KeyRoundTrip(p);
  }

  /** The dictionary built by writing `vals[n]` under the key of `ps[n]`, for n in order. */
  function Processed(ps: seq<Position>, vals: seq<Student>): map<string, Student>
    requires |ps| == |vals|
  {
    if |ps| == 0 then map[]
    else Processed(ps[..|ps| - 1], vals[..|vals| - 1])[KeyOf(ps[|ps| - 1]) := vals[|vals| - 1]]
  }

  /** Writing one more position extends the dictionary by that position's key. */
  lemma ProcessedExtend(ps: seq<Position>, vals: seq<Student>, i: nat, v: Student)
    requires i < |ps| && |vals| == i
    ensures Processed(ps[..i + 1], vals + [v]) == Processed(ps[..i], vals)[KeyOf(ps[i]) := v]
  {
    assert ps[..i + 1][..i] == ps[..i];
    assert (vals + [v])[..i] == vals;
  }

  /** Every position's key is in the dictionary. */
  lemma {:induction false} ProcessedHasKeys(ps: seq<Position>, vals: seq<Student>)
    requires |ps| == |vals|
    ensures forall n :: 0 <= n < |ps| ==> KeyOf(ps[n]) in Processed(ps, vals)
  {
    if |ps| > 0 {
      var m := |ps| - 1;
      ProcessedHasKeys(ps[..m], vals[..m]);
      assert forall n :: 0 <= n < m ==> ps[..m][n] == ps[n];
    }
  }

  /** Every key of the dictionary reads back as one of the positions and is that position's key. */
  lemma {:induction false} ProcessedKeysParse(ps: seq<Position>, vals: seq<Student>)
    requires |ps| == |vals|
    ensures forall k :: k in Processed(ps, vals) ==>
              ParseKey(k).Some? && ParseKey(k).value in ps && KeyOf(ParseKey(k).value) == k
  {
    if |ps| > 0 {
      var m := |ps| - 1;
      ProcessedKeysParse(ps[..m], vals[..m]);
      KeyRoundTrip(ps[m]);
      assert forall n :: 0 <= n < m ==> ps[..m][n] == ps[n];
    }
  }

  /** When equal positions carry equal values, each position's key holds its value. */
  lemma {:induction false} ProcessedValues(ps: seq<Position>, vals: seq<Student>)
    requires |ps| == |vals|
    requires forall m, n :: 0 <= m < |ps| && 0 <= n < |ps| && ps[m] == ps[n] ==> vals[m] == vals[n]
    ensures forall n :: 0 <= n < |ps| ==>
              KeyOf(ps[n]) in Processed(ps, vals) && Processed(ps, vals)[KeyOf(ps[n])] == vals[n]
  {
    ProcessedHasKeys(ps, vals);
    if |ps| > 0 {
      var m := |ps| - 1;
      var front := Processed(ps[..m], vals[..m]);
      ProcessedValues(ps[..m], vals[..m]);
      forall n | 0 <= n < m
        ensures Processed(ps, vals)[KeyOf(ps[n])] == vals[n]
      {
        assert ps[..m][n] == ps[n] && vals[..m][n] == vals[n];
        if ps[n] != ps[m] {
          KeyDistinct(ps[n], ps[m]);
          assert front[KeyOf(ps[n])] == vals[n];
        }
      }
    }
  }
}
