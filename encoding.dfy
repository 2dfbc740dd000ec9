/**
  Content-coding negotiation of app/encoding.go. The only encoder is a "gzip" stub whose
  Encode and Decode return their input, and a request gets it only when its Accept-Encoding
  value is exactly "gzip" (no list, no parameters, no white space; contrast section 12.5.3
  of RFC 9110).
*/
module Encoding {
  import opened Wrappers
  import opened HeaderMap
  import opened HttpRequest

  const EncodingGzip: string := "gzip"

  /** The Encoder interface; gzipEncoder is its one implementation. */
  datatype Encoder = Gzip

  /** The switch of encoderFromRequest on the whole Accept-Encoding value. */
  function Named(value: string): Option<Encoder> {
    if value == EncodingGzip then Some(Gzip) else None
  }

  /** encoderFromRequest: a case-insensitive Accept-Encoding lookup, then the switch; a nil header map has no entries. */
  method EncoderFromRequest(req: Request) returns (e: Option<Encoder>)
    requires req.headers != null ==> req.headers.Valid()
    ensures e.Some? <==> Lookup(EntriesOf(req.headers), HeaderAcceptEncoding) == (EncodingGzip, true)
    ensures e.Some? ==> e.value == Gzip
    ensures !Lookup(EntriesOf(req.headers), HeaderAcceptEncoding).1 ==> e == None
  {
    var value, ok := Get(req.headers, HeaderAcceptEncoding);
    if !ok {
      return None;
    }
    e := Named(value);
  }

  /**
    Records where the exact-match switch departs from content-coding negotiation: a list
    ("deflate, gzip, br"), a parameter ("gzip;q=0.8") or blanks (" gzip , deflate") select no
    encoder, even when "gzip" is listed. It follows from Named matching only "gzip" itself.
  */
  lemma ListsAreNotNegotiated(value: string)
    requires ',' in value || ';' in value || ' ' in value
    ensures Named(value) == None
  {
  }

  /** gzipEncoder.Encode: the input unchanged, never an error. */
  function Encode(e: Encoder, v: string): (r: Result<string, string>)
    ensures r.Ok?
  {
    Ok(v)
  }

  /** gzipEncoder.Decode: the input unchanged, never an error, whatever the bytes. */
  function Decode(e: Encoder, v: string): (r: Result<string, string>)
    ensures r.Ok?
  {
    Ok(v)
  }

  /** Decoding what was encoded gives the original bytes back. */
  lemma DecodeEncode(e: Encoder, v: string)
    ensures Decode(e, Encode(e, v).value) == Ok(v)
  {
  }
}
