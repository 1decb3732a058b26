/**
 * The statistics records the dispatcher accumulates (internal/logic/dto/dto.go),
 * with the machine integer widths the Go structs use.
 */
module Dto {

  newtype U64 = x: int | 0 <= x < 0x1_0000_0000_0000_0000
  newtype U32 = x: int | 0 <= x < 0x1_0000_0000

  /** A Go `float64`. The dispatcher only copies such values, so no rounding is modelled. */
  type Float64 = real

  /** A Go `time.Duration`: signed 64-bit nanoseconds. Only copied. */
  newtype Duration = x: int | -0x8000_0000_0000_0000 <= x < 0x8000_0000_0000_0000

  /** One request that a cleaning team accepted. */
  datatype RequestStat = RequestStat(
    id: U64,
    generatorId: U64,
    teamId: U64,
    priority: U32,
    timeInCleaner: Float64,
    timeInBuffer: Float64)

  /** One team's aggregate figures, as the cleaning service reports them. */
  datatype TeamStat = TeamStat(
    id: U64,
    speed: U32,
    processedRequests: U64,
    totalBusyTime: Float64)
}
