/** What every component uses: optional values and the result codes of the database library. */
module Common {

  datatype Option<+T> = None | Some(value: T)

  const E_OK := 0
  const E_ERROR := -1
}
