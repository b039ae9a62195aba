/** Shared value types of the engine's domain: sides, statuses, instants and errors. */
module Domain {

  datatype OrderSide = Buy | Sell

  /** NEW -> PARTIALLY_FILLED / FILLED; CANCELLED is declared but no modelled operation sets it. */
  datatype OrderStatus = New | PartiallyFilled | Filled | Cancelled

  /** A `java.time.Instant`, kept as the ISO-8601 text `Instant.toString` gives for it. */
  datatype Instant = Instant(iso: string)

  /** Which of the two hash-chain checks found a tampered command-log record. */
  datatype Mismatch = PrevHashMismatch | HashMismatch

  /** The exceptions the modelled code throws. */
  datatype Error =
    | IllegalArgument(message: string)
    | IllegalState(message: string)
    /** `NoSuchElementException` from `TreeMap.firstKey` on an empty map. */
    | NoSuchElement
    /** `NumberFormatException` from `Long.parseLong(input)`. */
    | NumberFormat(input: string)
    /** An I/O or JSON failure wrapped in a `RuntimeException`. */
    | Runtime(message: string)
    /** The `IllegalStateException` "Command log tampered: ... at line N". */
    | Tampered(mismatch: Mismatch, line: nat)
}
