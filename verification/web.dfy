/** Values exchanged between a page, its service worker and the network. */
module Web {

  /** A request URL, used as it stands as the cache key (no resolution against a base URL). */
  type Url = string

  /** A network response. The workers never look inside it; only `addAll` reads its status. */
  datatype Response = Response(status: int, body: string)

  /** An "ok status": one in the range 200 to 299, inclusive. */
  predicate IsOkStatus(status: int) {
    200 <= status <= 299
  }

  /** What `fetch(request)` settles to: a response, or a rejection (no connection). */
  datatype NetOutcome = Ok(response: Response) | Fail

  /** An intercepted request: its URL (the cache key) and that URL's parsed pathname. */
  datatype Request = Request(url: Url, path: string)

  /** What the promise handed to `event.respondWith` settles to: a response, `undefined`
      (a `caches.match` miss), or a rejection. The browser turns the last two into a
      network error for the page. */
  datatype Reply = Served(response: Response) | Empty | Rejected

  datatype Option<T> = None | Some(value: T)
}
