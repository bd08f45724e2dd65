/** The plugin's paging constants. Their values are not part of this model:
    they are a parameter, constrained only by `Valid`. */
module Configurations {

  datatype Config = Config(MinLimit: int, MaxLimit: int, DefaultPageValue: int)
  {
    predicate Valid() {
      MinLimit <= MaxLimit && DefaultPageValue == 1
    }

    /** The limit guard shared by the list endpoints. */
    predicate LimitInRange(limit: int) {
      MinLimit <= limit <= MaxLimit
    }
  }
}
