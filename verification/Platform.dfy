/** Types and constants shared by the drivers. */
module Platform {

  newtype Byte = b: int | 0 <= b < 256

  // os/include/errno.h
  const ENOENT := 2
  const EINTR := 4
  const EIO := 5
  const EAGAIN := 11
  const ENOMEM := 12
  const EBUSY := 16
  const ESPIPE := 29
}
