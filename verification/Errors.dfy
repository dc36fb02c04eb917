/** Error codes the operations return. */
module Errors {
  const ENOENT := -2
  const EIO := -5
  const EINVAL := -22
  const ENOSPC := -28
}
