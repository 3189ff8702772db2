/** What the store's writes do to the frame sequence: appending an image adds
    one frame, rewriting or zeroing a frame in place keeps the frame sequence
    (and so the count), and the walk of Dump(void) goes astray at a deleted
    frame. */
module FrameFacts {
  import opened Bytes
  import opened Optional
  import opened Framing

  /** Two files that agree on a header agree on its fields. */
  lemma HeaderAgrees(s: seq<byte>, t: seq<byte>, q: nat)
    requires q + HeaderSize <= |s| && q + HeaderSize <= |t|
    requires forall i :: q <= i < q + HeaderSize ==> s[i] == t[i]
    ensures SizeAt(s, q) == SizeAt(t, q) && NameAt(s, q) == NameAt(t, q) && KeyAt(s, q) == KeyAt(t, q)
  {
    assert s[q..q + SizeBytes] == t[q..q + SizeBytes];
    assert s[q + SizeBytes..q + KeyOffset] == t[q + SizeBytes..q + KeyOffset];
    assert s[q + KeyOffset..q + HeaderSize] == t[q + KeyOffset..q + HeaderSize];
  }

  /** The frame walk from `q` reads nothing before `q`. */
  lemma {:induction false} SuffixAgrees(s: seq<byte>, t: seq<byte>, q: nat)
    requires |s| == |t| && TiledFrom(s, q)
    requires forall i :: q <= i < |s| ==> s[i] == t[i]
    ensures TiledFrom(t, q) && Frames(t, q) == Frames(s, q)
    ensures forall r :: r in Frames(s, q) ==> NameAt(t, r) == NameAt(s, r) && KeyAt(t, r) == KeyAt(s, r)
    decreases |s| - q
  {
    if q < |s| {
      var e := FrameEnd(s, q);
      HeaderAgrees(s, t, q);
      assert IsFrame(t, q) && FrameEnd(t, q) == e;
      SuffixAgrees(s, t, e);
      assert Frames(t, q) == [q] + Frames(t, e);
    }
  }

  /** Insert: appending a record image adds exactly one frame, at the old end
      of the file, and leaves every earlier header as it was. */
  lemma {:induction false} AppendFrame(file: seq<byte>, img: seq<byte>, p: nat)
    requires TiledFrom(file, p) && IsImage(img)
    ensures TiledFrom(file + img, p)
    ensures Frames(file + img, p) == Frames(file, p) + [|file|]
    ensures forall q :: q in Frames(file, p) ==>
      NameAt(file + img, q) == NameAt(file, q) && KeyAt(file + img, q) == KeyAt(file, q)
    ensures SizeAt(file + img, |file|) == |img|
    ensures NameAt(file + img, |file|) == NameAt(img, 0) && KeyAt(file + img, |file|) == KeyAt(img, 0)
    decreases |file| - p
  {
    var f := file + img;
    if p == |file| {
      HeaderAgrees(f[|file|..], img, 0);
      assert f[|file|..] == img;
      assert f[|file|..][0..SizeBytes] == f[|file|..|file| + SizeBytes];
      assert f[|file|..][SizeBytes..KeyOffset] == f[|file| + SizeBytes..|file| + KeyOffset];
      assert f[|file|..][KeyOffset..HeaderSize] == f[|file| + KeyOffset..|file| + HeaderSize];
      assert TiledFrom(f, |f|);
    } else {
      HeaderAgrees(file, f, p);
      AppendFrame(file, img, FrameEnd(file, p));
      assert FrameEnd(f, p) == FrameEnd(file, p);
    }
  }

  /** Rewriting the bytes of one frame in place, its RecSize kept, leaves the
      frame sequence as it was and every other header unchanged. */
  lemma {:induction false} RewriteFrame(file: seq<byte>, file': seq<byte>, p: nat, a: nat)
    requires TiledFrom(file, p) && a in Frames(file, p)
    requires |file'| == |file|
    requires forall i :: 0 <= i < |file| && !(a <= i < FrameEnd(file, a)) ==> file'[i] == file[i]
    requires SizeAt(file', a) == SizeAt(file, a)
    ensures TiledFrom(file', p) && Frames(file', p) == Frames(file, p)
    ensures forall q :: q in Frames(file, p) && q != a ==>
      NameAt(file', q) == NameAt(file, q) && KeyAt(file', q) == KeyAt(file, q)
    decreases |file| - p
  {
    var e := FrameEnd(file, p);
    if p == a {
      SuffixAgrees(file, file', e);
      assert FrameEnd(file', p) == e;
    } else {
      assert a in Frames(file, e);
      HeaderAgrees(file, file', p);
      RewriteFrame(file, file', e, a);
    }
  }

  /** Delete: zeroing everything after RecSize in the frame at `a` keeps the
      frame sequence, so GetCount does not change, and leaves that frame with
      an empty RecName and a zero key. */
  lemma DeleteKeepsFrames(file: seq<byte>, p: nat, a: nat)
    requires TiledFrom(file, p) && a in Frames(file, p)
    ensures var file' := Write(file, a + SizeBytes, Zeros(SizeAt(file, a) - SizeBytes));
      && TiledFrom(file', p) && Frames(file', p) == Frames(file, p)
      && SizeAt(file', a) == SizeAt(file, a)
      && NameAt(file', a) == [] && KeyAt(file', a) == 0
      && forall q :: q in Frames(file, p) && q != a ==>
           NameAt(file', q) == NameAt(file, q) && KeyAt(file', q) == KeyAt(file, q)
  {
    var z := Zeros(SizeAt(file, a) - SizeBytes);
    var file' := Write(file, a + SizeBytes, z);
    assert file'[a..a + SizeBytes] == file[a..a + SizeBytes];
    RewriteFrame(file, file', p, a);
    assert file'[a + SizeBytes..a + KeyOffset] == Zeros(NameSize);
    CStringOfZeros(NameSize);
    assert file'[a + KeyOffset..a + HeaderSize] == Zeros(8);
    LeNatOfZeros(8);
  }

  /** Update: writing an image of the frame's own size over the frame at `a`
      keeps the frame sequence and gives that frame the image's header. */
  lemma UpdateKeepsFrames(file: seq<byte>, p: nat, a: nat, img: seq<byte>)
    requires TiledFrom(file, p) && a in Frames(file, p)
    requires IsImage(img) && |img| == SizeAt(file, a)
    ensures var file' := Write(file, a, img);
      && TiledFrom(file', p) && Frames(file', p) == Frames(file, p)
      && NameAt(file', a) == NameAt(img, 0) && KeyAt(file', a) == KeyAt(img, 0)
  {
    var file' := Write(file, a, img);
    assert file'[a..a + |img|] == img;
    HeaderAgrees(file'[a..a + |img|], img, 0);
    assert file'[a..a + |img|][0..SizeBytes] == file'[a..a + SizeBytes];
    assert file'[a..a + |img|][SizeBytes..KeyOffset] == file'[a + SizeBytes..a + KeyOffset];
    assert file'[a..a + |img|][KeyOffset..HeaderSize] == file'[a + KeyOffset..a + HeaderSize];
    RewriteFrame(file, file', p, a);
  }

  /** Round trip: an image appended to a file that holds no frame of its
      type is what a scan by that type name finds next, at the offset Insert
      recorded, with the bytes that were written. */
  lemma InsertThenFind(file: seq<byte>, img: seq<byte>)
    requires TiledFrom(file, 0) && IsImage(img)
    requires FindName(file, 0, NameAt(img, 0)).None?
    ensures TiledFrom(file + img, 0)
    ensures FindName(file + img, 0, NameAt(img, 0)) == Some(|file|)
    ensures (file + img)[|file|..FrameEnd(file + img, |file|)] == img
  {
    AppendedIsFound(file, img);
    assert FrameEnd(file + img, |file|) == |file + img|;
    assert (file + img)[|file|..] == img;
  }

  lemma AppendedIsFound(file: seq<byte>, img: seq<byte>)
    requires TiledFrom(file, 0) && IsImage(img)
    requires FindName(file, 0, NameAt(img, 0)).None?
    ensures TiledFrom(file + img, 0) && SizeAt(file + img, |file|) == |img|
    ensures FindName(file + img, 0, NameAt(img, 0)) == Some(|file|)
  {
    AppendFrame(file, img, 0);
    var f, n := file + img, NameAt(img, 0);
    assert Frames(f, 0) == Frames(file, 0) + [|file|];
    assert |file| in Frames(f, 0);
    var r := FindName(f, 0, n);
    assert r.Some?;
    assert r.value !in Frames(file, 0);
    assert r.value == |file|;
  }

  /** Dump(void) as written stops at a deleted frame whose payload is at
      least four bytes long: after `continue` it reads the next header from
      the zeroed payload, finds RecSize 0 and ends the dump there, so nothing
      after the deleted frame is counted. */
  lemma DumpAllStopsAtDeleted(file: seq<byte>, q: nat)
    requires IsFrame(file, q) && SizeAt(file, q) >= HeaderSize + SizeBytes
    requires forall i :: q + SizeBytes <= i < FrameEnd(file, q) ==> file[i] == 0
    ensures DumpAllEnds(file, q) && DumpAllCount(file, q) == 0
  {
    assert file[q + KeyOffset..q + HeaderSize] == Zeros(8);
    LeNatOfZeros(8);
    assert KeyAt(file, q) == 0;
    var r := q + HeaderSize;
    assert file[r..r + SizeBytes] == Zeros(SizeBytes);
    LeNatOfZeros(SizeBytes);
    assert SizeAt(file, r) == 0;
  }

  /** Deleting the first record of a file hides every later record from
      Dump(void): it counts none of them, whereas the live records it
      evidently should count are those after the deleted frame. */
  lemma DumpAllMissesRecordsAfterDelete(file: seq<byte>)
    requires TiledFrom(file, 0) && |file| > 0
    requires SizeAt(file, 0) >= HeaderSize + SizeBytes && KeyAt(file, 0) != 0
    ensures var file' := Write(file, SizeBytes, Zeros(SizeAt(file, 0) - SizeBytes));
      && TiledFrom(file', 0) && DumpAllEnds(file', 0)
      && DumpAllCount(file', 0) == 0
      && LiveCount(file', 0) == LiveCount(file, 0) - 1
  {
    var file' := Write(file, SizeBytes, Zeros(SizeAt(file, 0) - SizeBytes));
    DeletedFirstFrame(file);
    DumpAllStopsAtDeleted(file', 0);
    LiveCountAgrees(file, file', FrameEnd(file, 0));
  }

  /** The file after zeroing the first frame: still tiled, same first frame
      length, zero bytes after the size field, the rest untouched. */
  lemma DeletedFirstFrame(file: seq<byte>)
    requires TiledFrom(file, 0) && |file| > 0
    requires SizeAt(file, 0) >= HeaderSize + SizeBytes
    ensures var file' := Write(file, SizeBytes, Zeros(SizeAt(file, 0) - SizeBytes));
      && |file'| == |file| && TiledFrom(file', 0)
      && IsFrame(file', 0) && FrameEnd(file', 0) == FrameEnd(file, 0)
      && (forall i :: SizeBytes <= i < FrameEnd(file', 0) ==> file'[i] == 0)
      && (forall i :: FrameEnd(file, 0) <= i < |file| ==> file'[i] == file[i])
  {
    var e := FrameEnd(file, 0);
    var file' := Write(file, SizeBytes, Zeros(SizeAt(file, 0) - SizeBytes));
    assert file'[0..SizeBytes] == file[0..SizeBytes];
    assert IsFrame(file', 0) && FrameEnd(file', 0) == e;
    SuffixAgrees(file, file', e);
  }

  /** LiveCount from `q` reads only the keys of the frames from `q` on. */
  lemma {:induction false} LiveCountAgrees(s: seq<byte>, t: seq<byte>, q: nat)
    requires |s| == |t| && TiledFrom(s, q)
    requires forall i :: q <= i < |s| ==> s[i] == t[i]
    ensures TiledFrom(t, q) && LiveCount(t, q) == LiveCount(s, q)
    decreases |s| - q
  {
    SuffixAgrees(s, t, q);
    if q < |s| {
      var e := FrameEnd(s, q);
      HeaderAgrees(s, t, q);
      assert FrameEnd(t, q) == e;
      LiveCountAgrees(s, t, e);
    }
  }

  /** Dump(recName) reports no record exactly when a scan by that name
      (GetRecordByName) finds none. */
  lemma {:induction false} CountNamedZero(file: seq<byte>, p: nat, name: Name)
    requires TiledFrom(file, p)
    ensures CountNamed(file, p, name) == 0 <==> FindName(file, p, name).None?
    decreases |file| - p
  {
    if p < |file| {
      CountNamedZero(file, FrameEnd(file, p), name);
    }
  }

  /** Every frame is counted as live exactly when no frame has a zero key. */
  lemma {:induction false} LiveCountFull(file: seq<byte>, p: nat)
    requires TiledFrom(file, p)
    ensures LiveCount(file, p) == |Frames(file, p)| <==> forall q :: q in Frames(file, p) ==> KeyAt(file, q) != 0
    decreases |file| - p
  {
    if p < |file| {
      var e := FrameEnd(file, p);
      assert Frames(file, p) == [p] + Frames(file, e);
      LiveCountFull(file, e);
    }
  }

  /** The frames of `file` carry over to any extension of it: the extended
      file is tiled from `p` exactly when it is tiled from the old end. */
  lemma {:induction false} TiledThroughAppend(file: seq<byte>, tail: seq<byte>, p: nat)
    requires TiledFrom(file, p)
    ensures TiledFrom(file + tail, p) <==> TiledFrom(file + tail, |file|)
    decreases |file| - p
  {
    if p < |file| {
      var f := file + tail;
      HeaderAgrees(file, f, p);
      assert IsFrame(f, p) && FrameEnd(f, p) == FrameEnd(file, p);
      TiledThroughAppend(file, tail, FrameEnd(file, p));
    }
  }

  /** Delete at an address equal to the file length (where a scan by name
      that found nothing leaves recordDBAddress) writes past the end: the
      file grows by a zero-filled frame-sized block whose RecSize is 0, the
      frames no longer tile the file, and no existing byte changes. */
  lemma DeletePastEnd(file: seq<byte>, len: nat)
    requires TiledFrom(file, 0) && len >= HeaderSize
    ensures Write(file, |file| + SizeBytes, Zeros(len - SizeBytes)) == file + Zeros(len)
    ensures !TiledFrom(file + Zeros(len), 0)
  {
    WritePastEnd(file, len);
    ZeroBlockBreaksTiling(file, len);
  }

  lemma WritePastEnd(file: seq<byte>, len: nat)
    requires len >= SizeBytes
    ensures Write(file, |file| + SizeBytes, Zeros(len - SizeBytes)) == file + Zeros(len)
  {
    var w, f := Write(file, |file| + SizeBytes, Zeros(len - SizeBytes)), file + Zeros(len);
    assert |w| == |f|;
    forall i | 0 <= i < |w|
      ensures w[i] == f[i]
    {
      if i >= |file| + SizeBytes {
        assert w[i] == w[|file| + SizeBytes..][i - |file| - SizeBytes];
      }
    }
  }

  lemma ZeroBlockBreaksTiling(file: seq<byte>, len: nat)
    requires TiledFrom(file, 0) && len >= HeaderSize
    ensures !TiledFrom(file + Zeros(len), 0)
  {
    var f := file + Zeros(len);
    TiledThroughAppend(file, Zeros(len), 0);
    assert f[|file|..|file| + SizeBytes] == Zeros(SizeBytes);
    LeNatOfZeros(SizeBytes);
    assert SizeAt(f, |file|) == 0;
  }
}
