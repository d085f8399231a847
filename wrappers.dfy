/** Failure-compatible results used across the model. */
module Wrappers {

  datatype Option<+T> = None | Some(value: T)

  /** `random.sample(population, k)` raises ValueError when k exceeds the population
      (or is negative), and `list.index(x)` raises ValueError when x is not listed; every
      operation that may reach such a call returns a Result. */
  datatype Result<+T> = Ok(value: T) | SamplingError | NotListed
}
