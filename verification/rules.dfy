/** The survival and birth thresholds of a Life-like rule. */
module Rules {

  /** A live cell with n live neighbours survives when
      underpopulationLimit <= n <= overpopulationLimit; a dead cell is born when
      n == reproductionNumber. No ordering or range is imposed on the three. */
  datatype RuleSet = RuleSet(underpopulationLimit: int, overpopulationLimit: int, reproductionNumber: int)

  /** Conway's thresholds. */
  const Conway := RuleSet(2, 3, 3)

  /** Whether a cell is alive in the next generation under rule `r`. */
  predicate NextState(r: RuleSet, alive: bool, n: int) {
    if alive then r.underpopulationLimit <= n <= r.overpopulationLimit
    else n == r.reproductionNumber
  }
}
