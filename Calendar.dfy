/** Months and dates as the progress chart uses them. A month stands for the label
    `toLocaleDateString('fr-FR', { month: 'short', year: '2-digit' })` that keys the
    chart ("janv. 24"); a date keeps, besides its month, one number for the day of the
    month and the time of day, which stepping by a month leaves alone. */
module Calendar {

  /** January = 1 ... December = 12. */
  type MonthNumber = m: int | 1 <= m <= 12 witness 1

  datatype MonthKey = MonthKey(year: int, month: MonthNumber)

  /** Months since January of year 0: the chronological position of a month. */
  function Index(k: MonthKey): int {
    k.year * 12 + k.month - 1
  }

  /** Chronological order on months. */
  predicate Before(a: MonthKey, b: MonthKey) {
    Index(a) < Index(b)
  }

  /** Two months at the same position are the same month, so `Before` is a strict total order. */
  lemma IndexInjective(a: MonthKey, b: MonthKey)
    ensures Index(a) == Index(b) <==> a == b
  {
  }

  /** The following month, as `setMonth(getMonth() + 1)` moves to it. */
  function Next(k: MonthKey): (r: MonthKey)
    ensures Index(r) == Index(k) + 1
  {
    if k.month == 12 then MonthKey(k.year + 1, 1) else MonthKey(k.year, k.month + 1)
  }

  /** The month `n` months after `k`. */
  function AddMonths(k: MonthKey, n: nat): (r: MonthKey)
    ensures Index(r) == Index(k) + n
    decreases n
  {
    if n == 0 then k else AddMonths(Next(k), n - 1)
  }

  /** A point in time: its month, and its day of the month and time of day as one number. */
  datatype Date = Date(month: MonthKey, dayTime: int)

  /** `a <= b` on JavaScript dates. */
  predicate NotAfter(a: Date, b: Date) {
    Before(a.month, b.month) || (a.month == b.month && a.dayTime <= b.dayTime)
  }

  lemma NotAfterTransitive(a: Date, b: Date, c: Date)
    requires NotAfter(a, b) && NotAfter(b, c)
    ensures NotAfter(a, c)
  {
  }

  /** `d.setMonth(d.getMonth() + 1)`, leaving out the day-of-month overflow of short months. */
  function StepMonth(d: Date): (r: Date)
    ensures Index(r.month) == Index(d.month) + 1 && r.dayTime == d.dayTime
    ensures NotAfter(d, r) && r != d
  {
    Date(Next(d.month), d.dayTime)
  }

  /** The date `n` monthly steps after `d`. */
  function Shift(d: Date, n: nat): (r: Date)
    ensures Index(r.month) == Index(d.month) + n && r.dayTime == d.dayTime
  {
    Date(AddMonths(d.month, n), d.dayTime)
  }

  /** Dates at later monthly steps from one start come later. */
  lemma ShiftOrdered(d: Date, i: nat, j: nat)
    requires i <= j
    ensures NotAfter(Shift(d, i), Shift(d, j))
  {
    if i == j {
      IndexInjective(Shift(d, i).month, Shift(d, j).month);
    }
  }
}
