/**
  How src/api.js turns a request's fate into the `{ data, error }` pair the controller
  consumes. The request itself (fetch, JSON) is not modelled: a reply is given as one of
  its three possible shapes.
*/
module Transport {
  import opened Wrappers

  /** What came back: an ok response whose body parsed to `body` (`None` when it did not
      parse), a non-ok response with the parsed `detail` field (if any) and its status text,
      or a thrown exception with its message. */
  datatype Reply<T> =
    | Ok(body: Option<T>)
    | NotOk(detail: Option<string>, statusText: string)
    | Thrown(message: string)

  /** `{ data, error }`: `data` is `None` for `null`. */
  datatype Outcome<T> = Outcome(data: Option<T>, error: string)

  /** The default message for a failed `postState`. */
  const SyncFallback := "Failed to sync state"

  /** The default message for a failed `postHoverEvent`. */
  const HoverFallback := "Failed to send hover event"

  /** The mapping shared by `postState` and `postHoverEvent`; `fallback` is each one's
      message for an exception without one. */
  function Receive<T>(reply: Reply<T>, fallback: string): (o: Outcome<T>)
    ensures o.data.Some? ==> reply.Ok? && o.error == ""
    ensures reply.Ok? ==> o.data == reply.body && o.error == ""
    ensures reply.NotOk? ==>
              && o.data.None?
              && (if reply.detail.Some? && reply.detail.value != "" then o.error == reply.detail.value
                  else o.error == reply.statusText)
    ensures reply.Thrown? ==> o.data.None? && (if reply.message != "" then o.error == reply.message
                                               else o.error == fallback)
  {
    match reply
    case Ok(body) => Outcome(body, "")
    case NotOk(detail, statusText) =>
      Outcome(None, if detail.Some? && detail.value != "" then detail.value else statusText)
    case Thrown(message) => Outcome(None, if message != "" then message else fallback)
  }

  /** `postState`'s outcome. */
  function PostState<T>(reply: Reply<T>): Outcome<T> {
    Receive(reply, SyncFallback)
  }

  /** `postHoverEvent`'s outcome. */
  function PostHoverEvent<T>(reply: Reply<T>): Outcome<T> {
    Receive(reply, HoverFallback)
  }

  /** A failed request always gives a message unless the server's status text is empty;
      data and an error never come together. */
  lemma OutcomeShape<T>(reply: Reply<T>)
    ensures var o := PostState(reply); !(o.data.Some? && o.error != "")
    ensures var o := PostState(reply); reply.Thrown? ==> o.data.None? && o.error != ""
    ensures var o := PostHoverEvent(reply); reply.Thrown? ==> o.data.None? && o.error != ""
    ensures var o := PostState(reply);
      o.error == "" && o.data.None? <==> reply == Ok(None) || (reply.NotOk? && reply.statusText == ""
                                                               && (reply.detail.None? || reply.detail.value == ""))
  {
  }

  /** A non-ok response without a detail and with an empty status text (as HTTP/2 responses
      have) is reported as neither data nor error. */
  lemma SilentRejection()
    ensures PostState(Reply<int>.NotOk(None, "")) == Outcome(None, "")
  {
  }
}
