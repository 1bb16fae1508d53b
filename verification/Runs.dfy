/** Interleavings of a step machine: a sequence of steps either contains one that was not
    possible when its turn came, or leads to a state. */
module Runs {
  datatype Run<+S> = Illegal | Reached(state: S)
}
