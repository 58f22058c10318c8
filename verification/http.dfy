/**
  The parts of an HTTP exchange that the tool inspects. Requests are sent and
  bodies read by the environment; the model receives their outcome.
 */
module Http {
  import opened Wrappers

  /** net/http's Header: canonical key to the list of values received. */
  type Header = map<string, seq<string>>

  /** Header.Get: the first value stored under `key`, or "" when there is none. */
  function HeaderGet(h: Header, key: string): string {
    if key in h && |h[key]| > 0 then h[key][0] else ""
  }

  /**
    A received response. `body` is None when reading the body failed part way.
   */
  datatype Response = Response(status: int, header: Header, body: Option<string>)
}
