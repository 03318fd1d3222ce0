/** The key-value store as an immutable value. The store's client calls
    become pure reads; a command the store fails to serve (a lost connection,
    a wrong-type reply) is listed in `faults` with the error text it gives. */
module Store {

  /** What one read gives back: the value, the store's "nil" reply for a
      missing key or field, or any other error. */
  datatype Reply = Found(value: string) | Nil | Fail(message: string)

  datatype Command =
    | HGetCmd(key: string, field: string)
    | ExistsCmd(key: string)
    | GetCmd(key: string)

  /** Records: each key maps to its flat field/value hash. */
  datatype HashStore = HashStore(hashes: map<string, map<string, string>>, faults: map<Command, string>)

  /** Flat string values, read with GET. */
  datatype StringStore = StringStore(values: map<string, string>, faults: map<Command, string>)

  /** A result row: requested field name to value. */
  type Row = map<string, string>

  /** HGET key field. */
  function HGet(s: HashStore, key: string, field: string): Reply {
    if HGetCmd(key, field) in s.faults then Fail(s.faults[HGetCmd(key, field)])
    else if key in s.hashes && field in s.hashes[key] then Found(s.hashes[key][field])
    else Nil
  }

  datatype Existence = Present | Absent | ExistsFailed(message: string)

  /** EXISTS key. A hash with no fields does not exist in the store. */
  function Exists(s: HashStore, key: string): Existence {
    if ExistsCmd(key) in s.faults then ExistsFailed(s.faults[ExistsCmd(key)])
    else if key in s.hashes && s.hashes[key] != map[] then Present
    else Absent
  }

  /** GET key. */
  function Get(s: StringStore, key: string): Reply {
    if GetCmd(key) in s.faults then Fail(s.faults[GetCmd(key)])
    else if key in s.values then Found(s.values[key])
    else Nil
  }
}
