/**
 The input of the quarterly comparison charts: a series of quarterly bank
 transaction totals with descriptive metadata. Amounts are exact reals in
 kroner; an amount of 0 marks a quarter whose data has not been added yet.
 */
module QuarterlySeries {
  import opened Wrappers

  datatype DataPoint = DataPoint(
    year: int,
    quarter: int,
    quarterLabel: string,
    amount: real,
    transactionCount: Option<int>,
    averageTransaction: Option<real>,
    note: Option<string>)

  datatype Metadata = Metadata(
    title: string,
    period: string,
    area: string,
    currency: string,
    dataSource: string,
    lastUpdated: string,
    notes: Option<seq<string>>)

  datatype QuarterlyData = QuarterlyData(metadata: Metadata, data: seq<DataPoint>)
}
