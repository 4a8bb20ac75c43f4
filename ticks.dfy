/**
 * The record model of kstreamdb (db.go:19-54): one market-depth snapshot per TickData.
 * Prices are Go float32 values; the store never computes on them, so they are kept
 * as their 32-bit patterns. Counters are uint32. A time.Time is its calendar fields.
 */
module Ticks {
  newtype Uint32 = x: int | 0 <= x < 0x1_0000_0000

  /** The bit pattern of an IEEE-754 single-precision value, compared, never computed on. */
  type Float32 = bv32

  /** A UTC instant broken into calendar fields (time zones are not modelled). */
  datatype DateTime = DateTime(year: nat, month: nat, day: nat,
                               hour: nat, minute: nat, second: nat, nanosecond: nat)

  /** Go's zero time.Time: January 1 of year 1, 00:00:00 UTC. */
  const ZeroTime := DateTime(1, 1, 1, 0, 0, 0, 0)

  datatype DepthItem = DepthItem(price: Float32, quantity: Uint32, orders: Uint32)

  /** A `[5]DepthItem` array: best to worst level of one side of the book. */
  type Depth = s: seq<DepthItem> | |s| == 5
    witness [DepthItem(0, 0, 0), DepthItem(0, 0, 0), DepthItem(0, 0, 0), DepthItem(0, 0, 0), DepthItem(0, 0, 0)]

  datatype TickData = TickData(
    tradingSymbol: string,
    isTradable: bool,
    timestamp: DateTime,
    lastTradeTime: DateTime,
    lastPrice: Float32,
    lastTradedQuantity: Uint32,
    averageTradePrice: Float32,
    volumeTraded: Uint32,
    totalBuyQuantity: Uint32,
    totalSellQuantity: Uint32,
    dayOpen: Float32,
    dayHighPrice: Float32,
    dayLowPrice: Float32,
    lastDayClose: Float32,
    oi: Uint32,
    oiDayHigh: Uint32,
    oiDayLow: Uint32,
    bid: Depth,
    ask: Depth)

  /** The zero value Go's `make([]TickData, n)` fills a slice with. */
  const ZeroTick := TickData("", false, ZeroTime, ZeroTime, 0, 0, 0, 0, 0, 0, 0, 0, 0, 0, 0, 0, 0,
    [DepthItem(0, 0, 0), DepthItem(0, 0, 0), DepthItem(0, 0, 0), DepthItem(0, 0, 0), DepthItem(0, 0, 0)],
    [DepthItem(0, 0, 0), DepthItem(0, 0, 0), DepthItem(0, 0, 0), DepthItem(0, 0, 0), DepthItem(0, 0, 0)])
}
