/**
 * The record types of the service (internal/models/price.go): a stored price row,
 * the aggregate snapshot of the table and the body of a successful upload response.
 */
module Models {

  /** A calendar date without time of day (the date part of a time.Time). */
  datatype Date = Date(year: int, month: int, day: int)

  /** One row of the prices table. The price is an exact real number. */
  datatype Price = Price(id: int, name: string, category: string, price: real, createDate: Date)

  /** Aggregates over the whole table. */
  datatype Statistics = Statistics(totalItems: int, totalCategories: int, totalPrice: real)

  /** The JSON body returned by a successful upload. */
  datatype UploadResponse = UploadResponse(
    totalCount: int,
    duplicatesCount: int,
    totalItems: int,
    totalCategories: int,
    totalPrice: real)
}
