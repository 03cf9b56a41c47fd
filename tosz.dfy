/**
 * TOSZ.c, the stand-alone decompressor: its ArcEntryGet, ArcCtrlNew,
 * ArcExpandBuf and ExpandBuf are the same code as the decoder half of
 * compression.c, so the same members model them, and its uncompress is
 * decompress under another name.
 */
module Tosz {
  import opened BitField
  import opened Optional
  import opened Lzw
  import Container
  import Archive

  /**
   * uncompress: the header's expanded_size is returned whatever happens;
   * ExpandBuf runs only when the header's compressed_size is the length
   * given and the compression type is 1 to 3.
   */
  method Uncompress(compressed: array<byte>) returns (short: bool, size: nat, out: Result<array<byte>, ExpandError>)
    ensures var g := Container.Decompress(compressed[..]);
            && short == g.ShortInput?
            && (!short ==> size == g.size && (out.Ok? <==> g.result.Ok?)
                           && (g.result.Err? ==> out == Err(g.result.error))
                           && (g.result.Ok? ==> fresh(out.value) && out.value[..] == g.result.value))
  {
    short, size, out := Archive.Decompress(compressed);
  }
}
