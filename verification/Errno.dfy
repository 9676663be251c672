// The error numbers of the Linux headers that the calls return negated.
module Errno {
  const ENOMEM: int := 12
  const EINVAL: int := 22
  const ENODATA: int := 61
  const EBADMSG: int := 74
}
