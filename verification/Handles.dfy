/** The 64-byte file handle buffer of src/FileTable.cpp: the table index in the first four bytes,
    least significant first as on the x86 targets of the repository, then zeros. */
module Handles {
  import opened Nodes

  newtype uint32 = x: int | 0 <= x < 0x1_0000_0000

  const NFS3_FHSIZE := 64

  function HandleBytes(id: uint32): (h: seq<Byte>)
    ensures |h| == NFS3_FHSIZE
  {
    var n := id as int;
    [n % 0x100, n / 0x100 % 0x100, n / 0x1_0000 % 0x100, n / 0x100_0000]
    + seq(NFS3_FHSIZE - 4, i => 0 as Byte)
  }

  /** *(unsigned int *)handle */
  function HandleId(h: seq<Byte>): uint32
    requires |h| >= 4
  {
    var n: int := h[0] as int + 0x100 * h[1] as int + 0x1_0000 * h[2] as int + 0x100_0000 * h[3] as int;
    n as uint32
  }

  /** A handle decodes to the index it was made for, so different indices get different handles. */
  lemma HandleRoundTrip(id: uint32)
    ensures HandleId(HandleBytes(id)) == id
  {
    var n, h := id as int, HandleBytes(id);
    assert h[0] == n % 0x100 && h[1] == n / 0x100 % 0x100;
    assert h[2] == n / 0x1_0000 % 0x100 && h[3] == n / 0x100_0000;
    assert n / 0x1_0000 == n / 0x100 / 0x100;
    assert n / 0x100_0000 == n / 0x1_0000 / 0x100;
  }
}
