/** The record produced by the report parser and completed by the rerun
    calculator: one row of the cleaned wish table. */
module Records {

  datatype Option<T> = None | Some(value: T)

  /** The intra-version banner slot named by a section header. */
  datatype Phase = A | B | C

  /** One character appearance on a banner. The two rerun columns are filled
      in only by the rerun calculator; before that they hold None and 0. */
  datatype BannerRecord = BannerRecord(
    version: string,
    phase: Phase,
    character: string,
    wishCount: nat,
    daysSinceLaunch: int,
    majorVersion: nat,
    rerunInterval: Option<int>,
    rerunCount: nat)

  /** The record with both rerun columns reset, i.e. only the columns the
      parser owns. */
  function ClearReruns(r: BannerRecord): BannerRecord
  {
    r.(rerunInterval := None, rerunCount := 0)
  }
}
