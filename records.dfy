/**
 * The records the pipeline handles. Metadata records come from the metadata
 * service, detail records from the detail service; both are JSON objects in
 * the source, here with only the fields the pipeline reads.
 */
module Records {
  import opened Wrappers

  /** A metadata stub: `id` is always present, `requestId` names the record it answers. */
  datatype Meta = Meta(id: string, requestId: Option<string>)

  /** A full event body. `eventDate` is an already-parsed timestamp. */
  datatype Detail = Detail(eventId: string, eventDate: int, eventType: string,
                           status: Option<int>, entity: string)

  /** One `[reqId, resId]` tuple; `None` is JavaScript's `null`. */
  datatype Pair = Pair(req: Option<string>, res: Option<string>)

  /** JavaScript truthiness of an optional string: present and not empty. */
  predicate Truthy(s: Option<string>)
  {
    s.Some? && s.value != ""
  }

  /** The test `if (meta.requestId)`. */
  predicate HasRequestId(m: Meta)
  {
    Truthy(m.requestId)
  }

  function MetaKey(m: Meta): string
  {
    m.id
  }

  function EventKey(d: Detail): string
  {
    d.eventId
  }
}
