/** How the two library versions relate on the same bytes. */
module Versions {
  import opened Wrappers
  import opened Unicode
  import Codecs
  import Legacy = LegacyReliableTxt
  import ReliableTxt

  /** The versions check in a different order. The legacy decoder looks for a
      preamble before it decodes anything, so a corrupt buffer without one is
      "not a ReliableTXT document"; the package decodes first, so the same
      buffer is a decoding error. */
  lemma ErrorOrderDiffers(b: seq<Byte>)
    requires forall e: Codecs.Encoding :: !(Codecs.Preamble(e) <= b)
    requires Codecs.Decode(Codecs.Utf8, b).None?
    ensures Legacy.Decode(b) == Err(MissingPreamble)
    ensures ReliableTxt.Decode(b) == Err(DecodingError)
  {
    Legacy.DecodeReportsMissingPreambleFirst(b);
  }

  /** A lone continuation byte, and the empty buffer, are reported differently. */
  lemma ErrorOrderExamples()
    ensures Legacy.Decode([0x80]) == Err(MissingPreamble)
    ensures ReliableTxt.Decode([0x80]) == Err(DecodingError)
    ensures Legacy.Decode([]) == Err(MissingPreamble)
    ensures ReliableTxt.Decode([]) == Err(EmptyContent)
  {
    ErrorOrderDiffers([0x80]);
    Legacy.ShortBufferHasNoPreamble([]);
    ReliableTxt.EmptyAndBomOnly();
  }

  /** On success the versions agree: the package accepts a buffer exactly
      when the legacy decoder detects UTF-8 in it and decodes it, and both
      yield the same text. */
  lemma SuccessAgrees(b: seq<Byte>, t: string)
    ensures ReliableTxt.Decode(b) == Ok(t) <==> Legacy.Decode(b) == Ok((Codecs.Utf8, t))
  {
    ReliableTxt.DecodeSucceedsIff(b);
    if ReliableTxt.BomBytes <= b {
      Legacy.DecodeAfterPreamble(b, Codecs.Utf8);
    } else {
      assert Legacy.GetEncoding(b) != Ok(Codecs.Utf8);
    }
  }
}
