/**
 * The records shared by the aggregation pipeline (src/types.rs) and the error
 * kinds a provider pipeline can report (src/errors.rs).
 */
module Types {

  /** `ProviderError`: only `DateError` is ever produced inside the core. */
  datatype ProviderError =
    | ConfigError(message: string)
    | RequestError(message: string)
    | ParseError(message: string)
    | DateError(message: string)

  /**
   * One cell of a calendar: its accumulated count, its date rendered as
   * "Y-MM-DD", the week it belongs to (0-based, relative to the processor's
   * start) and its weekday counted from Sunday.
   */
  datatype ContributionDay = ContributionDay(
    contributionCount: int,
    date: string,
    weeknumber: int,
    weekday: int)

  /** A week of a calendar: its number and its days in calendar order. */
  type Week = (int, seq<ContributionDay>)

  /** `Vec<(i64, Vec<ContributionDay>)>`: the weekly calendar of one provider. */
  type Calendar = seq<Week>

  /** What one provider's pipeline produces. */
  datatype ContributionCollection = ContributionCollection(
    provider: string,
    contributions: Calendar,
    maxContributions: int)
}
