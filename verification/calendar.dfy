/** The proleptic Gregorian calendar, counted in days from the Unix epoch. */
module Calendar {
  predicate Leap(y: int) { y % 4 == 0 && (y % 100 != 0 || y % 400 == 0) }

  function DaysIn(y: int): nat { if Leap(y) then 366 else 365 }

  /** The days from 1 January 1970 to 1 January of the year y. */
  function DaysTo(y: int): int
    decreases if y >= 1970 then y - 1970 else 1970 - y
  {
    if y == 1970 then 0
    else if y > 1970 then DaysTo(y - 1) + DaysIn(y - 1)
    else DaysTo(y + 1) - DaysIn(y)
  }

  /** The Unix second at which the year y begins. */
  function Start(y: int): int { DaysTo(y) * 24 * 60 * 60 }

  /** The Unix second `sec` falls into the year y. */
  predicate InYear(sec: int, y: int) { Start(y) <= sec < Start(y + 1) }

  lemma {:induction false} DaysToNext(y: int)
    ensures DaysTo(y + 1) == DaysTo(y) + DaysIn(y)
  {
  }

  lemma LeapDays(y: int)
    ensures y / 4 - y / 100 + y / 400 - ((y - 1) / 4 - (y - 1) / 100 + (y - 1) / 400) == DaysIn(y) - 365
  {
    Carry4(y);
    Carry100(y);
    Carry400(y);
  }

  lemma Carry4(y: int)
    ensures y / 4 - (y - 1) / 4 == if y % 4 == 0 then 1 else 0
  {
  }

  lemma Carry100(y: int)
    ensures y / 100 - (y - 1) / 100 == if y % 100 == 0 then 1 else 0
    ensures y % 100 == 0 ==> y % 4 == 0
  {
    var q, r := y / 100, y % 100;
    if r == 0 {
      Split100(y - 1, q - 1, 99);
      Split4(y, 25 * q);
    } else {
      Split100(y - 1, q, r - 1);
    }
  }

  lemma Carry400(y: int)
    ensures y / 400 - (y - 1) / 400 == if y % 400 == 0 then 1 else 0
    ensures y % 400 == 0 ==> y % 100 == 0
  {
    var q, r := y / 400, y % 400;
    if r == 0 {
      Split400(y - 1, q - 1, 399);
      Split100(y, 4 * q, 0);
    } else {
      Split400(y - 1, q, r - 1);
    }
  }

  lemma Split4(x: int, q: int)
    requires x == 4 * q
    ensures x % 4 == 0
  {
  }

  lemma Split100(x: int, q: int, r: nat)
    requires x == 100 * q + r && r < 100
    ensures x / 100 == q && x % 100 == r
  {
  }

  lemma Split400(x: int, q: int, r: nat)
    requires x == 400 * q + r && r < 400
    ensures x / 400 == q && x % 400 == r
  {
  }

  /** In closed form: 477 leap days come before the epoch. */
  function DaysByRule(y: int): int { 365 * (y - 1970) + (y - 1) / 4 - (y - 1) / 100 + (y - 1) / 400 - 477 }

  lemma {:induction false} DaysToIs(y: int)
    ensures DaysTo(y) == DaysByRule(y)
    decreases if y >= 1970 then y - 1970 else 1970 - y
  {
    if y > 1970 {
      DaysToIs(y - 1);
      LeapDays(y - 1);
    } else if y < 1970 {
      DaysToIs(y + 1);
      LeapDays(y);
    }
  }

  lemma StartIs(y: int, days: int)
    requires days == DaysByRule(y)
    ensures Start(y) == days * 24 * 60 * 60
  {
    DaysToIs(y);
  }

  lemma {:induction false} LaterYear(y: int, z: int)
    requires y <= z
    ensures Start(y) + (z - y) <= Start(z)
    decreases z - y
  {
    if y < z {
      DaysToNext(z - 1);
      LaterYear(y, z - 1);
    }
  }

  /** Every second falls into a year. */
  lemma YearOf(sec: int) returns (y: int)
    ensures InYear(sec, y)
  {
    if sec >= 0 { y := YearFrom(sec, 1970); } else { y := YearBefore(sec, 1970); }
  }

  lemma {:induction false} YearFrom(sec: int, y: int) returns (z: int)
    requires Start(y) <= sec
    ensures InYear(sec, z)
    decreases sec - Start(y)
  {
    z := y;
    LaterYear(y, y + 1);
    if sec >= Start(y + 1) { z := YearFrom(sec, y + 1); }
  }

  lemma {:induction false} YearBefore(sec: int, y: int) returns (z: int)
    requires sec < Start(y)
    ensures InYear(sec, z)
    decreases Start(y) - sec
  {
    z := y - 1;
    LaterYear(y - 1, y);
    if sec < Start(y - 1) { z := YearBefore(sec, y - 1); }
  }

  /** And into one only. */
  lemma OneYear(sec: int, y: int, z: int)
    requires InYear(sec, y) && InYear(sec, z)
    ensures y == z
  {
    if y < z { LaterYear(y + 1, z); }
    if z < y { LaterYear(z + 1, y); }
  }

  ghost predicate WithinYears(sec: int, a: int, b: int) { exists y :: a <= y < b && InYear(sec, y) }

  /** The years from a up to b are one stretch of seconds. */
  lemma YearsBetween(sec: int, a: int, b: int)
    requires a <= b
    ensures WithinYears(sec, a, b) <==> Start(a) <= sec < Start(b)
  {
    if WithinYears(sec, a, b) {
      var y :| a <= y < b && InYear(sec, y);
      LaterYear(a, y);
      LaterYear(y + 1, b);
    }
    if Start(a) <= sec < Start(b) {
      var y := YearOf(sec);
      if y < a { LaterYear(y + 1, a); }
      if y >= b { LaterYear(b, y); }
      assert a <= y < b && InYear(sec, y);
    }
  }
}
