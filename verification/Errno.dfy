/** The error numbers of xh_errno.h that the modelled functions return. */
module Errno {
  const XH_ERRNO_UNKNOWN := 1001
  const XH_ERRNO_INVAL := 1002
  const XH_ERRNO_NOTFND := 1005
  const XH_ERRNO_BADMAPS := 1006
  const XH_ERRNO_FORMAT := 1007
  const XH_ERRNO_ELFINIT := 1008
  const XH_ERRNO_SEGVERR := 1009
}
