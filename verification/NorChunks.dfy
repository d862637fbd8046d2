/** When the loops of `NorFlash.SpiNorWriteEnds` end, said of the chunk size, the address width and the range. */
module NorChunks {
  import opened NorFlash
  import opened Numbers

  /** With addresses of three bytes always; with four bytes if the chunks, which pay for the fourth, are larger
      than one byte, or, where their size is not limited, if at least two bytes lie on the first page and at
      least two on the last. */
  lemma SuitsExactly(chunkSize: nat, addrWidth: nat, page: nat, to: nat, len: nat)
    requires page > 0 && addrWidth <= 4
    ensures Suits(Chunked(chunkSize, addrWidth), page, to, len) <==>
      || len == 0 || addrWidth <= 3 || chunkSize >= 2
      || (chunkSize == 0 && len >= 2 && to % page <= page - 2 && (to + len - 1) % page >= 1)
  {
    if len > 0 {
      var m := to % page;
      assert m < page;
    }
  }
}
