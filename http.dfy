/** What every route handler shares: the localhost gate that routes/orders.js
    and routes/menu.js each define as `checkLocalhost`, and the shape of a reply. */
module Http {
  import Js

  /** A reply: the HTTP status and, for a successful read, its data. */
  datatype Reply<T> = Reply(status: int, body: Js.Option<T>)

  /** `checkLocalhost` lets a request through only when its Host is "localhost";
      any other request is answered 403 before the handler runs. */
  predicate FromLocalhost(hostname: string) {
    hostname == "localhost"
  }
}
