/** The error numbers that the file system calls return. */
module Errno {
  datatype Errno = EINVAL | ENOSPC | ENOENT | EEXIST | ENAMETOOLONG | EBUSY | ENOMEM
}
