/** Fixed pieces of SIP messages. */
module SipText {
  const CRLF := "\r\n"
  const CONTENT_LENGTH := "Content-Length: "
  const TOTAG_TOKEN := ";tag="
}
