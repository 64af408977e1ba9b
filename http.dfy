/** Shapes shared by the Express side of the model. */
module Http {

  /** One entry of an `errors` array: the offending field and its message. */
  datatype FieldError = FieldError(path: string, msg: string)

  /** One entry of a router's table: the verb, the path and whether it is registered after `router.use(authenticate)`. */
  datatype Route = Route(verb: string, path: string, authenticated: bool)

  /** The routes of `table` that match a verb and a path. */
  function Lookup(table: seq<Route>, verb: string, path: string): (r: seq<Route>)
    ensures forall x | x in r :: x in table && x.verb == verb && x.path == path
    ensures forall x | x in table && x.verb == verb && x.path == path :: x in r
  {
    if |table| == 0 then []
    else (if table[0].verb == verb && table[0].path == path then [table[0]] else []) + Lookup(table[1..], verb, path)
  }
}
