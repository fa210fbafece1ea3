/**
  The records exchanged by the loader and the analyzer: the `Movie` entity
  (without its generated database id) and the two response DTOs.
 */
module Model {
  import opened JavaText

  /** A row of the awards list, as the loader builds it and the repository returns it. */
  datatype Movie = Movie(
    year: Int32,
    title: string,
    studios: string,
    producers: seq<string>,
    winner: bool)

  /** One interval between two consecutive wins of one producer. */
  datatype ProducerIntervalDto = ProducerIntervalDto(
    producer: string,
    interval: Int32,
    previousWin: Int32,
    followingWin: Int32)

  /** The report: the entries with the smallest interval and those with the largest. */
  datatype ProducerIntervalResponse = ProducerIntervalResponse(
    min: seq<ProducerIntervalDto>,
    max: seq<ProducerIntervalDto>)
}
