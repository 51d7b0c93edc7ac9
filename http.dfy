/**
 * The part of an HTTP exchange the handlers produce: status code, response
 * headers in the order they were added, the length declared to
 * `sendResponseHeaders` (-1 meaning "no body") and the bytes written to the
 * response body.
 */
module Http {
  import opened Wrappers

  newtype byte = b: int | 0 <= b < 256

  datatype Header = Header(name: string, value: string)

  datatype Response = Response(status: int, headers: seq<Header>, declaredLength: int, body: Option<seq<byte>>)

  /** The declared length matches what is written: -1 with no body, else the body's byte count. */
  predicate Framed(r: Response) {
    match r.body
    case None => r.declaredLength == -1
    case Some(b) => r.declaredLength == |b|
  }

  predicate IsAscii(s: string) {
    forall i | 0 <= i < |s| :: s[i] as int < 128
  }

  /** `String.getBytes()` on text that is all ASCII: one byte per character. */
  function AsciiBytes(s: string): (b: seq<byte>)
    requires IsAscii(s)
    ensures |b| == |s|
    ensures forall i | 0 <= i < |b| :: b[i] as int == s[i] as int
  {
    seq(|s|, i requires 0 <= i < |s| => s[i] as int as byte)
  }

  /** How a client reads a body of single-byte characters back as text. */
  function BytesText(b: seq<byte>): (s: string)
    ensures |s| == |b|
    ensures forall i | 0 <= i < |s| :: s[i] as int == b[i] as int
  {
    seq(|b|, i requires 0 <= i < |b| => b[i] as int as char)
  }

  /** Decoding the bytes of an ASCII text gives the text back. */
  lemma BytesTextOfAscii(s: string)
    requires IsAscii(s)
    ensures BytesText(AsciiBytes(s)) == s
  {
  }
}
