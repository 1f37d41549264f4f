/** What the codecs of the HTTP library share. */
module Wire {
  const CRLF := "\r\n"

  /** CPPHTTPLIB_HEADER_MAX_LENGTH */
  const HEADER_MAX_LENGTH: nat := 8192

  function Concat(pieces: seq<string>): string {
    if pieces == [] then [] else pieces[0] + Concat(pieces[1..])
  }
}
