/** The Linux error numbers the chat devices return, negated on return. */
module Errno {
  const EAGAIN: int := 11
  const ENOMEM: int := 12
  const EFAULT: int := 14
  const EINVAL: int := 22
}
