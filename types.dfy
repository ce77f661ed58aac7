/** The records the directory serves: one row of the `advocates` table and
    the pagination envelope returned beside a page of rows. */
module Types {

  /** One row of the `advocates` table. `createdAt` is the timestamp as an
      order key; `phoneNumber` is the wide integer column. */
  datatype Advocate = Advocate(
    id: int,
    firstName: string,
    lastName: string,
    city: string,
    degree: string,
    specialties: seq<string>,
    yearsOfExperience: int,
    phoneNumber: int,
    createdAt: int
  )

  /** The pagination envelope of a response. */
  datatype PaginationInfo = PaginationInfo(
    page: int,
    limit: int,
    total: int,
    totalPages: int,
    hasNext: bool,
    hasPrev: bool
  )
}
