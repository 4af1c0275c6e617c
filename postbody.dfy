/**
 * `HttpPostBodyReader`: the default field queries every body reader
 * inherits, written against the virtual queries a concrete reader supplies
 * (its field names, each field's announced length and bytes transferred).
 * The multipart reader keeps the default `fieldValue`; both readers
 * override `hasField` and `isFieldComplete`, and the lemmas below show the
 * overrides agree with the defaults.
 */
module PostBodyReaders {
  import opened Bytes
  import opened Devices
  import Multipart
  import UrlEncoded

  /** The virtual queries the defaults call: `fieldNames`, `fieldLength`, `fieldBytesTransferred`. */
  datatype Queries = Queries(fieldNames: set<string>, fieldLength: string -> int, fieldBytesTransferred: string -> int)

  /** `hasField`: the name is one of `fieldNames()`. */
  predicate HasField(q: Queries, field: string)
  {
    field in q.fieldNames
  }

  /** `isFieldComplete`: a known field whose announced length has been transferred. */
  predicate IsFieldComplete(q: Queries, field: string)
  {
    HasField(q, field) && q.fieldLength(field) == q.fieldBytesTransferred(field)
  }

  /**
   * `fieldValue`: for a complete field with a stream, everything the stream
   * still holds, which is then read; otherwise empty, and nothing is read.
   */
  method FieldValue(q: Queries, field: string, stream: Device?) returns (value: Bytes)
    modifies stream
    ensures IsFieldComplete(q, field) && stream != null ==>
              value == old(stream.available) && stream.available == []
    ensures !(IsFieldComplete(q, field) && stream != null) ==>
              value == [] && (stream != null ==> stream.available == old(stream.available))
    ensures stream != null ==> stream.written == old(stream.written) && stream.closed == old(stream.closed)
    ensures IsFieldComplete(q, field) ==> HasField(q, field)
  {
    if !IsFieldComplete(q, field) || stream == null {
      return [];
    }
    value := stream.Read(|stream.available|);
  }

  /** The queries of a multipart parse: its field map, unknown fields reading length -1 and 0 bytes. */
  function MultipartQueries(p: Multipart.Parse): (q: Queries)
    ensures q.fieldNames == p.fields.Keys
  {
    Queries(p.fields.Keys, f => Multipart.Info(p, f).totalLength, f => Multipart.Info(p, f).transferred)
  }

  /**
   * The multipart override of `isFieldComplete` compares length and bytes
   * transferred without asking `hasField`; an unknown field reads -1 and 0,
   * so it agrees with the default.
   */
  lemma MultipartCompleteIsDefault(p: Multipart.Parse, field: string)
    ensures IsFieldComplete(MultipartQueries(p), field)
        <==> Multipart.Info(p, field).totalLength == Multipart.Info(p, field).transferred
  {
    if field !in p.fields {
      assert Multipart.Info(p, field) == Multipart.Unknown;
    }
  }

  /** The queries of a URL-encoded parse: length and bytes transferred are both the value's length. */
  function UrlEncodedQueries(p: UrlEncoded.Parse): (q: Queries)
    ensures q.fieldNames == p.fields.Keys
  {
    Queries(p.fields.Keys, f => if f in p.fields then |p.fields[f]| else 0,
            f => if f in p.fields then |p.fields[f]| else 0)
  }

  /** The URL-encoded override of `isFieldComplete` (`fields.contains`) agrees with the default. */
  lemma UrlEncodedCompleteIsDefault(p: UrlEncoded.Parse, field: string)
    ensures IsFieldComplete(UrlEncodedQueries(p), field) <==> field in p.fields
  {
  }
}
