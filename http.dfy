/** The wire-level values the handlers produce: the Item record and JSON responses. */
module Http {

  const StatusOK: int := 200
  const StatusBadRequest: int := 400
  const StatusNotFound: int := 404

  const NotFoundMessage: string := "Not found"

  /** The JSON record of one listed item; `id` is the row id rendered as a string. */
  datatype Item = Item(id: string, name: string, category: string, image: string)

  /** What a handler writes as its body: a {"message": ...} object, one item, a list, or a file. */
  datatype Body =
    | Message(text: string)
    | Record(item: Item)
    | Records(items: seq<Item>)
    | FileAt(path: string)

  datatype Response = Response(status: int, body: Body)

  /** Errors a handler returns to the framework instead of writing a response. */
  datatype HandlerError = MissingFormFile

  datatype Outcome = Replied(response: Response) | Raised(error: HandlerError)
}
