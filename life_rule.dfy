/**
 * The per-cell life rule, with the four-value cell encoding that both
 * animations use so that a dead cell can fade out over two generations:
 * 1 is live, -1 has just died, -2 has faded, 0 is empty.
 */
module LifeRule {

  /** A live cell. */
  const LIVE: int := 1
  /** A cell that was live last generation and has just died. */
  const DYING: int := -1
  /** A cell that was dying last generation; it is drawn paler. */
  const FADED: int := -2
  /** An empty cell. */
  const EMPTY: int := 0

  /** The four values a cell of the grid can hold. */
  predicate IsCellValue(v: int) {
    v == LIVE || v == DYING || v == FADED || v == EMPTY
  }

  /**
   * The value a cell takes in the next generation, from its current value `v`
   * and the number of live cells among its neighbours. Whatever `v` is, the
   * result is one of the four cell values.
   */
  function NextValue(v: int, count: int): (r: int)
    ensures IsCellValue(r)
  {
    if v == LIVE then
      (if count == 2 || count == 3 then LIVE else DYING)
    else if count == 3 then
      LIVE
    else if v == DYING then
      FADED
    else
      EMPTY
  }

  /**
   * Conway's B3/S23 rule: a cell is live next generation exactly when it has
   * three live neighbours, or it is live now and has two.
   */
  lemma LiveIffB3S23(v: int, count: int)
    ensures NextValue(v, count) == LIVE <==> count == 3 || (v == LIVE && count == 2)
  {
  }

  /**
   * The dead sub-states: a cell is dying exactly when it was live and did not
   * survive; it is faded exactly when it was dying and was not reborn; it is
   * empty exactly when it was neither live nor dying and was not born.
   */
  lemma DeadSubStates(v: int, count: int)
    ensures NextValue(v, count) == DYING <==> v == LIVE && count != 2 && count != 3
    ensures NextValue(v, count) == FADED <==> v == DYING && count != 3
    ensures NextValue(v, count) == EMPTY <==> v != LIVE && v != DYING && count != 3
  {
  }

  /**
   * Neither dead sub-state maps to itself: a cell that keeps its value from
   * one generation to the next is live or empty.
   */
  lemma FixedValuesAreLiveOrEmpty(v: int, count: int)
    requires NextValue(v, count) == v
    ensures v == LIVE || v == EMPTY
  {
  }
}
