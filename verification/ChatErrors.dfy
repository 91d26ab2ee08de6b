/** The errors that the chat gateway's stores raise. */
module ChatErrors {
  datatype StoreError = NotFound | Conflict | Invalid
}
