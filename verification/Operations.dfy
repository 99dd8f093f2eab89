/** The operations of a blob store and their answers, whatever the backend. */
module Operations {
  import opened Basics
  import opened Rows

  datatype Op =
    | Put(key: string, data: bytes)
    | Get(key: string)
    | Delete(key: string)
    | Exists(key: string)
    | Scan(prefix: string)

  datatype Answer =
    | Stored
    | Refused                        // BlobError
    | Value(data: bytes)
    | Missing                        // KeyError
    | Deleted
    | Present(present: bool)
    | Keys(keys: seq<string>)

  /** The flat key-to-bytes map that every backend is meant to be: what an operation makes of it. */
  function FlatNext(m: FlatMap, op: Op): FlatMap {
    match op
    case Put(key, data) => m[key := data]
    case Delete(key) => m - {key}
    case _ => m
  }

  /** The answers that the flat map allows; a scan may list the matching keys in any order, each once. */
  ghost predicate FlatAnswers(m: FlatMap, op: Op, a: Answer) {
    match op
    case Put(_, _) => a == Stored
    case Get(key) => a == if key in m then Value(m[key]) else Missing
    case Delete(key) => a == if key in m then Deleted else Missing
    case Exists(key) => a == Present(key in m)
    case Scan(prefix) =>
      a.Keys? && Distinct(a.keys) && forall k :: k in a.keys <==> k in Matching(m, prefix)
  }
}
