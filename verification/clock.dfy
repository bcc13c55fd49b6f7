/**
 * Times of day. The source stores times as zero-padded "HH:MM" strings and
 * compares them with the string operators `<` and `>`; the model stores
 * minutes since midnight. This module proves the two orders agree.
 */
module Clock {

  /** Minutes in a day; also the shift an overnight slot receives. */
  const MinutesPerDay: nat := 1440

  /** A well-formed time of day, "00:00" to "23:59", as minutes since midnight. */
  predicate IsTimeOfDay(m: int) {
    0 <= m < MinutesPerDay
  }

  function Digit(d: nat): char
    requires d < 10
  {
    ('0' as int + d) as char
  }

  /** The zero-padded "HH:MM" text of a time of day. */
  function Format(m: nat): string
    requires IsTimeOfDay(m)
  {
    var h := m / 60;
    var mm := m % 60;
    [Digit(h / 10), Digit(h % 10), ':', Digit(mm / 10), Digit(mm % 10)]
  }

  /** JavaScript's `a < b` on strings: code-unit lexicographic order. */
  predicate StrLess(a: string, b: string) {
    if |a| == 0 then |b| > 0
    else if |b| == 0 then false
    else if a[0] != b[0] then a[0] < b[0]
    else StrLess(a[1..], b[1..])
  }

  lemma StrLessFive(x: string, y: string)
    requires |x| == 5 && |y| == 5
    ensures StrLess(x, y) <==>
      || x[0] < y[0]
      || (x[0] == y[0] && x[1] < y[1])
      || (x[0] == y[0] && x[1] == y[1] && x[2] < y[2])
      || (x[0] == y[0] && x[1] == y[1] && x[2] == y[2] && x[3] < y[3])
      || (x[0] == y[0] && x[1] == y[1] && x[2] == y[2] && x[3] == y[3] && x[4] < y[4])
  {
    var x1, y1 := x[1..], y[1..];
    var x2, y2 := x1[1..], y1[1..];
    var x3, y3 := x2[1..], y2[1..];
    var x4, y4 := x3[1..], y3[1..];
    assert StrLess(x4, y4) <==> x4[0] < y4[0] by {
      assert x4[1..] == [] && y4[1..] == [];
    }
    assert StrLess(x3, y3) == if x3[0] != y3[0] then x3[0] < y3[0] else StrLess(x4, y4);
    assert StrLess(x2, y2) == if x2[0] != y2[0] then x2[0] < y2[0] else StrLess(x3, y3);
    assert StrLess(x1, y1) == if x1[0] != y1[0] then x1[0] < y1[0] else StrLess(x2, y2);
    assert x4[0] == x[4] && y4[0] == y[4] && x3[0] == x[3] && y3[0] == y[3];
    assert x2[0] == x[2] && y2[0] == y[2] && x1[0] == x[1] && y1[0] == y[1];
  }

  lemma Decompose(m: nat)
    requires IsTimeOfDay(m)
    ensures m == 600 * ((m / 60) / 10) + 60 * ((m / 60) % 10) + 10 * ((m % 60) / 10) + (m % 60) % 10
    ensures (m / 60) / 10 < 3 && (m % 60) / 10 < 6
  {
  }

  /**
   * For well-formed times the string order used by the source coincides with
   * the numeric order used by the model.
   */
  lemma FormatOrder(a: nat, b: nat)
    requires IsTimeOfDay(a) && IsTimeOfDay(b)
    ensures StrLess(Format(a), Format(b)) <==> a < b
  {
    StrLessFive(Format(a), Format(b));
    Decompose(a);
    Decompose(b);
  }

  /** Formatting is injective, so string equality is minute equality. */
  lemma FormatInjective(a: nat, b: nat)
    requires IsTimeOfDay(a) && IsTimeOfDay(b)
    ensures Format(a) == Format(b) <==> a == b
  {
    if Format(a) == Format(b) {
      assert Format(a)[0] == Format(b)[0] && Format(a)[1] == Format(b)[1];
      assert Format(a)[3] == Format(b)[3] && Format(a)[4] == Format(b)[4];
      Decompose(a);
      Decompose(b);
    }
  }
}
