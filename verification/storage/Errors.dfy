/** The error numbers that the modelled system calls and kernel paths return; OK stands for 0. */
module Errors {
  datatype Err =
    | OK | EPERM | ENOENT | ENXIO | EAGAIN | ENOMEM | EEXIST | ENODEV | ENOTDIR | EISDIR | EINVAL
    | ENFILE | EMFILE | EFBIG | ENOSPC | EROFS | EMLINK | ENAMETOOLONG | ENOTEMPTY
}
