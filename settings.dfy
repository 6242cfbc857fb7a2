/** The user settings: the undo delay for deletions and the three conflict thresholds. */
module Settings {

  /** The undo delay, in seconds, can only be one of three choices. */
  type DeleteDelay = d: int | d == 3 || d == 5 || d == 10 witness 10

  const DefaultDeleteDelay: DeleteDelay := 10
  const DefaultWindowHours: int := 48
  const DefaultMinHeavyMins: int := 45
  const DefaultMinPrioritySum: int := 5

  /**
   * The sanitising every threshold setter applies to the number typed by the user: round down,
   * and never store less than 1.
   */
  function Sanitize(n: real): (r: int)
    ensures r >= 1
    ensures r as real <= n || r == 1
    ensures n < (r + 1) as real || r == 1
    ensures n < 1.0 ==> r == 1
    ensures 1.0 <= n ==> r == n.Floor
  {
    if n.Floor < 1 then 1 else n.Floor
  }

  /** A whole number of at least 1 is stored unchanged. */
  lemma SanitizeKeepsValid(k: int)
    requires k >= 1
    ensures Sanitize(k as real) == k
  {
  }

  /** Sanitising a stored value again changes nothing. */
  lemma SanitizeIdempotent(n: real)
    ensures Sanitize(Sanitize(n) as real) == Sanitize(n)
  {
  }

  /** The sanitised value is the largest whole number not above the input, or 1. */
  lemma SanitizeIsFloor(n: real, k: int)
    requires k >= 1 && k as real <= n
    ensures k <= Sanitize(n)
  {
  }

  class SettingsStore {
    var deleteDelay: DeleteDelay
    var conflictWindowHours: int
    var conflictMinHeavyMins: int
    var conflictMinPrioritySum: int

    /** Every threshold the store holds is a whole number of at least 1. */
    predicate Valid()
      reads this
    {
      conflictWindowHours >= 1 && conflictMinHeavyMins >= 1 && conflictMinPrioritySum >= 1
    }

    constructor ()
      ensures deleteDelay == DefaultDeleteDelay
      ensures conflictWindowHours == DefaultWindowHours
      ensures conflictMinHeavyMins == DefaultMinHeavyMins
      ensures conflictMinPrioritySum == DefaultMinPrioritySum
      ensures Valid()
    {
      deleteDelay := DefaultDeleteDelay;
      conflictWindowHours := DefaultWindowHours;
      conflictMinHeavyMins := DefaultMinHeavyMins;
      conflictMinPrioritySum := DefaultMinPrioritySum;
    }

    method SetDeleteDelay(delay: DeleteDelay)
      modifies this
      ensures deleteDelay == delay
      ensures conflictWindowHours == old(conflictWindowHours)
      ensures conflictMinHeavyMins == old(conflictMinHeavyMins)
      ensures conflictMinPrioritySum == old(conflictMinPrioritySum)
      ensures old(Valid()) ==> Valid()
    {
      deleteDelay := delay;
    }

    method SetConflictWindowHours(n: real)
      modifies this
      ensures conflictWindowHours == Sanitize(n)
      ensures deleteDelay == old(deleteDelay)
      ensures conflictMinHeavyMins == old(conflictMinHeavyMins)
      ensures conflictMinPrioritySum == old(conflictMinPrioritySum)
      ensures old(Valid()) ==> Valid()
    {
      conflictWindowHours := Sanitize(n);
    }

    method SetConflictMinHeavyMins(n: real)
      modifies this
      ensures conflictMinHeavyMins == Sanitize(n)
      ensures deleteDelay == old(deleteDelay)
      ensures conflictWindowHours == old(conflictWindowHours)
      ensures conflictMinPrioritySum == old(conflictMinPrioritySum)
      ensures old(Valid()) ==> Valid()
    {
      conflictMinHeavyMins := Sanitize(n);
    }

    method SetConflictMinPrioritySum(n: real)
      modifies this
      ensures conflictMinPrioritySum == Sanitize(n)
      ensures deleteDelay == old(deleteDelay)
      ensures conflictWindowHours == old(conflictWindowHours)
      ensures conflictMinHeavyMins == old(conflictMinHeavyMins)
      ensures old(Valid()) ==> Valid()
    {
      conflictMinPrioritySum := Sanitize(n);
    }
  }
}
