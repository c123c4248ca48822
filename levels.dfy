/** Logback's severity levels, compared by their integer rank. */
module Levels {

  datatype Level = All | Trace | Debug | Info | Warn | Error | Off {

    /** The integer rank logback gives each level. */
    function ToInt(): int {
      match this
      case All => -0x8000_0000
      case Trace => 5000
      case Debug => 10000
      case Info => 20000
      case Warn => 30000
      case Error => 40000
      case Off => 0x7fff_ffff
    }

    /** Logback's `Level.isGreaterOrEqual`: a rank comparison, not equality. */
    predicate IsGreaterOrEqual(other: Level) {
      ToInt() >= other.ToInt()
    }
  }

  /** The severity comparison is a total order on levels. */
  lemma SeverityIsTotalOrder(a: Level, b: Level, c: Level)
    ensures a.IsGreaterOrEqual(a)
    ensures a.IsGreaterOrEqual(b) && b.IsGreaterOrEqual(a) ==> a == b
    ensures a.IsGreaterOrEqual(b) && b.IsGreaterOrEqual(c) ==> a.IsGreaterOrEqual(c)
    ensures a.IsGreaterOrEqual(b) || b.IsGreaterOrEqual(a)
  {
  }
}
