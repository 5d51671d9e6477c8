/**
 * main.go's front-matter splitter: a source buffer is cut at the first
 * FrontSeparator into a metadata part and a body part.
 */
module FrontMatter {
  import opened Search

  /** FrontSeparator, the bytes of "---\n". */
  const FrontSeparator: seq<byte> := [0x2D, 0x2D, 0x2D, 0x0A]

  datatype Parts = Parts(metadata: seq<byte>, body: seq<byte>)

  /**
   * `splitMetadata`: `bytes.SplitN(buf, FrontSeparator, 2)`, which cuts at
   * the first separator only; without a separator the metadata is empty and
   * the body is the whole buffer.
   */
  function SplitMetadata(buf: seq<byte>): (r: Parts)
    ensures !Contains(buf, FrontSeparator) ==> r == Parts([], buf)
    ensures Contains(buf, FrontSeparator) ==> r.metadata + FrontSeparator + r.body == buf
    ensures Contains(buf, FrontSeparator) ==> forall j :: OccursAt(buf, FrontSeparator, j) ==> |r.metadata| <= j
  {
    var idx := IndexOf(buf, FrontSeparator);
    if idx >= 0 then
      assert buf == buf[..idx] + buf[idx..idx + 4] + buf[idx + 4..];
      Parts(buf[..idx], buf[idx + |FrontSeparator|..])
    else Parts([], buf)
  }

  /** The metadata part never holds the separator: the cut is at its first occurrence. */
  lemma MetadataHasNoSeparator(buf: seq<byte>)
    ensures !Contains(SplitMetadata(buf).metadata, FrontSeparator)
  {
    var m := SplitMetadata(buf).metadata;
    if Contains(m, FrontSeparator) {
      var j :| 0 <= j <= |m| && OccursAt(m, FrontSeparator, j);
      assert buf[..|m|] == m;
      assert buf[j..j + 4] == m[j..j + 4];
      assert OccursAt(buf, FrontSeparator, j);
      assert false;
    }
  }

  /**
   * Joining a separator-free metadata part and any body with the separator,
   * then splitting, gives both parts back, even when the body itself holds
   * the separator.
   */
  lemma SplitOfJoin(m: seq<byte>, b: seq<byte>)
    requires !Contains(m, FrontSeparator)
    ensures SplitMetadata(m + FrontSeparator + b) == Parts(m, b)
  {
    var buf := m + FrontSeparator + b;
    assert OccursAt(buf, FrontSeparator, |m|);
    var idx := IndexOf(buf, FrontSeparator);
    if idx < |m| {
      if idx + 4 <= |m| {
        assert buf[idx..idx + 4] == m[idx..idx + 4];
        assert OccursAt(m, FrontSeparator, idx);
        assert false;
      } else {
        NoStraddle(m, b, idx);
        assert false;
      }
    }
    assert buf[..|m|] == m;
    assert buf[|m| + 4..] == b;
  }

  /** The separator cannot overlap itself: no occurrence starts inside m and ends past it. */
  lemma NoStraddle(m: seq<byte>, b: seq<byte>, j: int)
    requires 0 <= j < |m| < j + 4
    ensures !OccursAt(m + FrontSeparator + b, FrontSeparator, j)
  {
    var buf := m + FrontSeparator + b;
    assert buf[j + 3] == FrontSeparator[j + 3 - |m|];
  }

  /** A buffer that opens with the separator has empty metadata, so no per-file fragment. */
  lemma LeadingSeparator(b: seq<byte>)
    ensures SplitMetadata(FrontSeparator + b) == Parts([], b)
  {
    assert !Contains([], FrontSeparator);
    SplitOfJoin([], b);
  }

  /** The body keeps any later separator: only the first one cuts. */
  lemma BodyKeepsLaterSeparator(m: seq<byte>, b: seq<byte>)
    requires !Contains(m, FrontSeparator)
    ensures SplitMetadata(m + FrontSeparator + FrontSeparator + b) == Parts(m, FrontSeparator + b)
    ensures Contains(SplitMetadata(m + FrontSeparator + FrontSeparator + b).body, FrontSeparator)
  {
    assert m + FrontSeparator + FrontSeparator + b == m + FrontSeparator + (FrontSeparator + b);
    SplitOfJoin(m, FrontSeparator + b);
    assert OccursAt(FrontSeparator + b, FrontSeparator, 0);
  }
}
