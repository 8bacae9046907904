/** What a handler sends back, and the request headers it can read. */
module Http {
  import opened Js
  import opened Tables

  datatype Body =
    | Msg(msg: string)                   // { msg }
    | NewUser(id: nat, email: Value)     // { id, email }
    | TokenBody(token: string)           // { token }
    | Row(row: Snippet)                  // one row of RETURNING *
    | Rows(rows: seq<Snippet>)           // the rows of a SELECT
    | Text(text: string)                 // res.send(text)

  datatype Response = Response(status: nat, body: Body)

  /** Incoming headers, names already lower-cased as Node delivers them. */
  type Headers = map<string, string>

  function BadRequest(msg: string): Response {
    Response(400, Msg(msg))
  }

  /** The answer of every `catch` block: `res.status(500).send('Server error')`. */
  const ServerError := Response(500, Text("Server error"))

  const NotFound := Response(404, Msg("Snippet not found or user not authorized"))
}
