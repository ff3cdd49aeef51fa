/** The values of nfsstat3 (section 2.6 of RFC 1813) and of stable_how (section 3.3.7) that the server
    uses. */
module Statuses {
  const NFS3_OK := 0
  const NFS3ERR_NOENT := 2
  const NFS3ERR_IO := 5
  const NFS3ERR_ACCES := 13
  const NFS3ERR_EXIST := 17
  const NFS3ERR_INVAL := 22
  const NFS3ERR_NAMETOOLONG := 63
  const NFS3ERR_NOTEMPTY := 66
  const NFS3ERR_STALE := 70
  const NFS3ERR_SERVERFAULT := 10006

  const UNSTABLE := 0
  const FILE_SYNC := 2
}
