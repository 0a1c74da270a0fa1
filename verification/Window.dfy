/** The window's start: the first day of the quarter `quarters` before a day's own. A month is numbered
    year * 12 + (month - 1), so a quarter starts at a multiple of three. */
module Window {

  function MonthNumber(year: int, month: int): int {
    year * 12 + (month - 1)
  }

  /** The (year, month) the window starts on, as the source computes it. Python's // and % are Dafny's here. */
  function WindowStart(year: int, month: int, quarters: nat): (int, int)
    requires 1 <= month <= 12
  {
    var m := year * 12 + (month - 1) / 3 * 3 - 3 * quarters;
    (m / 12, m % 12 + 1)
  }

  /** It is a month of the calendar that starts a quarter, `quarters` whole quarters before the day's. */
  lemma StartsAQuarter(year: int, month: int, quarters: nat)
    requires 1 <= month <= 12
    ensures var (y, m) := WindowStart(year, month, quarters);
            && m in {1, 4, 7, 10}
            && 3 * quarters <= MonthNumber(year, month) - MonthNumber(y, m) < 3 * quarters + 3
  {
    var n := year * 12 + (month - 1) / 3 * 3 - 3 * quarters;
    assert n == 3 * (year * 4 + (month - 1) / 3 - quarters);
    ThirdsOfAYear(year * 4 + (month - 1) / 3 - quarters);
  }

  lemma ThirdsOfAYear(q: int)
    ensures (3 * q) % 12 in {0, 3, 6, 9}
  {
    assert q == 4 * (q / 4) + q % 4;
    assert 3 * q == 12 * (q / 4) + 3 * (q % 4);
  }

  /** As days go on, the window's start never goes back. */
  lemma NeverGoesBack(y0: int, m0: int, y1: int, m1: int, quarters: nat)
    requires 1 <= m0 <= 12 && 1 <= m1 <= 12
    requires MonthNumber(y0, m0) <= MonthNumber(y1, m1)
    ensures var (sy0, sm0) := WindowStart(y0, m0, quarters);
            var (sy1, sm1) := WindowStart(y1, m1, quarters);
            MonthNumber(sy0, sm0) <= MonthNumber(sy1, sm1)
  {
    StartsAQuarter(y0, m0, quarters);
    StartsAQuarter(y1, m1, quarters);
  }
}
