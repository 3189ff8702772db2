/** The on-disk frame format of the store and the specification of every
    scan over it.

    The file is a sequence of frames. Each frame starts with a header
      RecSize    : int32, the length of the whole frame, header included
      RecName    : char[NameSize], the record type's name, NUL padded
      primaryKey : int64, 0 for a deleted (or never keyed) record
    followed by RecSize - HeaderSize bytes of payload. All integers are
    little-endian two's complement.

    The scans of Database.cpp and Record.cpp all walk this sequence by reading
    a header and seeking RecSize bytes ahead. Whether they terminate depends on
    the sizes they read, so they are specified on files that the frames TILE:
    from the scan's start, every frame is at least a header long and the
    frames end exactly at the end of the file. */
module Framing {
  import opened Bytes
  import opened Optional

  /** REC_NAME_SIZE. Its value is declared in Record.h, which is not part of
      this model; nothing below depends on it except the worked examples. */
  const NameSize: nat := 16
  /** sizeof(int): the RecSize field. */
  const SizeBytes: nat := 4
  /** Where the 8-byte primary key starts, and where the scratch buffer of a
      predicate scan starts (Seek reads only RecSize and RecName first). */
  const KeyOffset: nat := SizeBytes + NameSize
  /** sizeof(HEADER), packed. */
  const HeaderSize: nat := KeyOffset + 8

  function SizeAt(s: seq<byte>, p: nat): int
    requires p + SizeBytes <= |s|
  {
    LeInt(s[p..p + SizeBytes])
  }

  /** The header's RecName read as a C string, as strcmp and std::string see it. */
  function NameAt(s: seq<byte>, p: nat): Name
    requires p + KeyOffset <= |s|
  {
    CString(s[p + SizeBytes..p + KeyOffset])
  }

  function KeyAt(s: seq<byte>, p: nat): int
    requires p + HeaderSize <= |s|
  {
    LeInt(s[p + KeyOffset..p + HeaderSize])
  }

  /** A whole frame, at least one header long, starts at `q`. */
  predicate IsFrame(file: seq<byte>, q: nat) {
    q + HeaderSize <= |file| && HeaderSize <= SizeAt(file, q) && q + SizeAt(file, q) <= |file|
  }

  /** A record's byte image is exactly one frame: its RecSize is its length. */
  predicate IsImage(img: seq<byte>) {
    IsFrame(img, 0) && SizeAt(img, 0) == |img|
  }

  /** Where the scan continues after the frame at `q`. */
  function FrameEnd(file: seq<byte>, q: nat): (e: nat)
    requires IsFrame(file, q)
    ensures q < e <= |file|
  {
    q + SizeAt(file, q)
  }

  /** The bytes a predicate scan evaluates its terms against: everything after
      RecName, the primary key included. */
  function ScanBuffer(file: seq<byte>, q: nat): (buf: seq<byte>)
    requires IsFrame(file, q)
    ensures |buf| == SizeAt(file, q) - KeyOffset
  {
    file[q + KeyOffset..FrameEnd(file, q)]
  }

  /** The frames tile `file` from offset `p` to its end. */
  predicate TiledFrom(file: seq<byte>, p: nat)
    ensures TiledFrom(file, p) ==> p <= |file|
    ensures p == |file| ==> TiledFrom(file, p)
    decreases |file| - p
  {
    if p >= |file| then p == |file|
    else IsFrame(file, p) && TiledFrom(file, FrameEnd(file, p))
  }

  /** The start offsets of the frames from `p` on, in file order. */
  function Frames(file: seq<byte>, p: nat): (fs: seq<nat>)
    requires TiledFrom(file, p)
    ensures forall q :: q in fs ==> p <= q && IsFrame(file, q) && TiledFrom(file, q)
    ensures forall i, j :: 0 <= i < j < |fs| ==> fs[i] < fs[j]
    decreases |file| - p
  {
    if p == |file| then []
    else
      var rest := Frames(file, FrameEnd(file, p));
      assert forall k :: 0 <= k < |rest| ==> p < rest[k] by {
        forall k | 0 <= k < |rest|
          ensures p < rest[k]
        {
          assert rest[k] in rest;
        }
      }
      [p] + rest
  }

  // ---------------------------------------------------------------------
  // Scans

  /** The first frame from `p` on whose primary key is `key`
      (Record::GetRecordName, Record.cpp:921-937). */
  function FindKey(file: seq<byte>, p: nat, key: int): (r: Option<nat>)
    requires TiledFrom(file, p)
    ensures r.Some? ==> r.value in Frames(file, p) && KeyAt(file, r.value) == key
    ensures r.Some? ==> forall q :: q in Frames(file, p) && q < r.value ==> KeyAt(file, q) != key
    ensures r.None? ==> forall q :: q in Frames(file, p) ==> KeyAt(file, q) != key
    decreases |file| - p
  {
    if p == |file| then None
    else if KeyAt(file, p) == key then Some(p)
    else FindKey(file, FrameEnd(file, p), key)
  }

  /** The first frame from `p` on whose RecName is `name`
      (Record::GetRecordByName, Record.cpp:190-223). */
  function FindName(file: seq<byte>, p: nat, name: Name): (r: Option<nat>)
    requires TiledFrom(file, p)
    ensures r.Some? ==> r.value in Frames(file, p) && NameAt(file, r.value) == name
    ensures r.Some? ==> forall q :: q in Frames(file, p) && q < r.value ==> NameAt(file, q) != name
    ensures r.None? ==> forall q :: q in Frames(file, p) ==> NameAt(file, q) != name
    decreases |file| - p
  {
    if p == |file| then None
    else if NameAt(file, p) == name then Some(p)
    else FindName(file, FrameEnd(file, p), name)
  }

  /** How many frames from `p` on carry the RecName `name` (Dump(recName)). */
  function CountNamed(file: seq<byte>, p: nat, name: Name): (n: nat)
    requires TiledFrom(file, p)
    ensures n <= |Frames(file, p)|
    decreases |file| - p
  {
    if p == |file| then 0
    else (if NameAt(file, p) == name then 1 else 0) + CountNamed(file, FrameEnd(file, p), name)
  }

  /** How many frames from `p` on hold a non-zero primary key: what
      Dump(void) evidently means to count. */
  function LiveCount(file: seq<byte>, p: nat): (n: nat)
    requires TiledFrom(file, p)
    ensures n <= |Frames(file, p)|
    decreases |file| - p
  {
    if p == |file| then 0
    else (if KeyAt(file, p) != 0 then 1 else 0) + LiveCount(file, FrameEnd(file, p))
  }

  // ---------------------------------------------------------------------
  // Dump(void) as written (Database.cpp:149-169): a header with a zero key is
  // skipped by `continue` without seeking over its payload, so the next
  // header is read HeaderSize bytes further on, inside that frame.

  /** The frames from `p` on tile the file and none of them is deleted. */
  predicate AllLive(file: seq<byte>, p: nat) {
    TiledFrom(file, p) && forall q :: q in Frames(file, p) ==> KeyAt(file, q) != 0
  }

  /** A live frame's successor is the next one. */
  lemma AllLiveNext(file: seq<byte>, p: nat)
    requires p < |file|
    ensures AllLive(file, p) ==>
      IsFrame(file, p) && KeyAt(file, p) != 0 && AllLive(file, FrameEnd(file, p))
      && |Frames(file, p)| == 1 + |Frames(file, FrameEnd(file, p))|
  {
    if AllLive(file, p) {
      assert Frames(file, p) == [p] + Frames(file, FrameEnd(file, p));
    }
  }

  /** Where Dump(void) reads the header after the one at `q`. A live frame
      passes the walk on to the next frame; a deleted frame longer than a
      header sends it into its own payload. */
  function DumpAllNext(file: seq<byte>, q: nat): (r: int)
    requires q + HeaderSize <= |file|
    ensures IsFrame(file, q) ==> q < r <= FrameEnd(file, q)
    ensures IsFrame(file, q) ==> (r == FrameEnd(file, q) <==> KeyAt(file, q) != 0 || SizeAt(file, q) == HeaderSize)
  {
    if KeyAt(file, q) == 0 then q + HeaderSize else q + SizeAt(file, q)
  }

  /** The walk of Dump(void) from `q` ends: every step moves it forward. It
      does on a file without deleted frames. */
  predicate DumpAllEnds(file: seq<byte>, q: nat)
    ensures AllLive(file, q) ==> DumpAllEnds(file, q)
    decreases |file| - q
  {
    if q + HeaderSize > |file| || SizeAt(file, q) == 0 then true
    else
      AllLiveNext(file, q);
      q < DumpAllNext(file, q) && DumpAllEnds(file, DumpAllNext(file, q))
  }

  /** The number of headers with a non-zero key that Dump(void) counts from
      `q`: every frame, on a file without deleted frames. */
  function DumpAllCount(file: seq<byte>, q: nat): (n: nat)
    requires DumpAllEnds(file, q)
    ensures AllLive(file, q) ==> n == |Frames(file, q)|
    decreases |file| - q
  {
    if q + HeaderSize > |file| || SizeAt(file, q) == 0 then 0
    else
      AllLiveNext(file, q);
      (if KeyAt(file, q) == 0 then 0 else 1) + DumpAllCount(file, DumpAllNext(file, q))
  }

  /** Where the read cursor is when the walk of Dump(void) stops: at the end
      of a zero-size header, or where a short header read leaves it; the end
      of the file, on a file without deleted frames. */
  function DumpAllStop(file: seq<byte>, q: nat): (s: nat)
    requires DumpAllEnds(file, q)
    ensures q <= s
    ensures AllLive(file, q) ==> s == |file|
    decreases |file| - q
  {
    if q + HeaderSize > |file| then (if q <= |file| then |file| else q)
    else if SizeAt(file, q) == 0 then q + HeaderSize
    else
      AllLiveNext(file, q);
      DumpAllStop(file, DumpAllNext(file, q))
  }
}
