/** The library's negative return codes that the model uses. */
module ErrorCodes {
  const USER_FAULT := -2
  const BAD_STATE := -3
  const DAMAGED := -4
  const TRUNCATED := -5
}
