/** The error numbers that the MAC framework returns. */
module MacErrno {
  const EPERM := 1
  const ENOENT := 2
  const ESRCH := 3
  const EDEADLK := 11
  const ENOMEM := 12
  const EACCES := 13
  const EBUSY := 16
  const EEXIST := 17
  const EINVAL := 22
  const ENOPOLICY := 103
}
