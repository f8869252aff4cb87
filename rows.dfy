/** The rows the scripts read from the Parquet files and the rows they write. */
module Rows {
  import opened Wrappers
  import opened Text
  import opened Calendar

  /** The columns both outputs copy unchanged from the input. */
  datatype Meta = Meta(
    marketplace: Option<string>,
    customerId: Option<int>,
    reviewId: Option<string>,
    productId: Option<string>,
    productParent: Option<int>,
    productTitle: Option<string>,
    productCategory: Option<Bytes>,
    starRating: Option<int>,
    helpfulVotes: Option<int>,
    totalVotes: Option<int>,
    vine: Option<bool>,
    verifiedPurchase: Option<bool>)

  /** One input row; `None` is SQL NULL. `reviewDate` counts days from 1970-01-01. */
  datatype RawRow = RawRow(reviewDate: Option<int>, meta: Meta, headline: Option<Bytes>, body: Option<Bytes>)

  /** A SQL `DATE`, as its day number from 1970-01-01. */
  datatype Date = Date(day: int)

  /** A row of the merged output. */
  datatype CleanRow = CleanRow(
    reviewDate: Option<Date>,
    reviewYear: Option<int>,
    meta: Meta,
    headlineBlob: Option<Bytes>,
    bodyBlob: Option<Bytes>,
    sourceFile: string)

  /** A row of the combined sample. */
  datatype SampleRow = SampleRow(
    reviewDate: Option<Date>,
    meta: Meta,
    headlineBlob: Option<Bytes>,
    bodyBlob: Option<Bytes>,
    sourceFile: string)

  /** `DATE '1970-01-01' + CAST(review_date AS INTEGER)`: NULL stays NULL. */
  function ToDate(days: Option<int>): (d: Option<Date>)
    ensures d.Some? <==> days.Some?
    ensures d.Some? ==> d.value.day == days.value
  {
    match days
    case None => None
    case Some(n) => Some(Date(n))
  }

  /** `EXTRACT(YEAR FROM d)::INTEGER`: the year whose span holds the day. */
  function YearOfDate(d: Option<Date>): (y: Option<int>)
    ensures y.Some? <==> d.Some?
    ensures y.Some? ==> Jan1(y.value) <= d.value.day < Jan1(y.value + 1)
  {
    match d
    case None => None
    case Some(date) => Some(YearOf(date.day))
  }
}
