/** The request descriptors the commands hand to the batched executor. */
module Requests {
  import opened Wrappers

  datatype Method = Get | Post | Put | Delete

  /** One planned HTTP call: an optional token, the resource path, the HTTP
      method (`verb`), the query parameters and the body. */
  datatype Request<B> = Request(token: Option<string>, endpoint: string, verb: Method,
                                params: map<string, string>, data: B)
}
