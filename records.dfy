/** The Record class (Record.cpp): one record object with its byte image,
    the file offset it was saved at (recordDBAddress), and the two member
    variables the predicate chain threads through; the factory registry and
    the static lookups by primary key.

    Record::db, a static, is passed to each operation as `db`. The record's
    type name (GetRecName) and its image (GetDataAddress / GetDataSize) come
    from subclasses declared in Record.h; here they are the constructor's
    arguments. */
module Records {
  import opened Bytes
  import opened Optional
  import opened Framing
  import opened Predicates
  import opened Scanning
  import opened Database
  import FrameFacts

  /** What a registered factory builds. The concrete record classes are not
      part of this model; a product is known by the type name and the
      primary key it was built for. */
  datatype Product = Product(className: Name, prIdx: int)

  /** A factory from the registry. It takes no argument in the source but
      reads Record::PrIdx, which is passed here. */
  type Factory = int -> Product

  /** Record::getRecordFactory()'s map and Record::PrIdx. */
  class Registry {
    var factories: map<Name, Factory>
    var prIdx: int

    /** The map is empty on first use; PrIdx starts at 0. */
    constructor()
      ensures factories == map[] && prIdx == 0
    {
      factories := map[];
      prIdx := 0;
    }

    /** Registration of a record class under its type name (the registering
        macros live in Record.h). */
    method Register(name: Name, f: Factory)
      modifies this
      ensures factories == old(factories)[name := f] && prIdx == old(prIdx)
    {
      factories := factories[name := f];
    }
  }

  // ---------------------------------------------------------------------
  // Lookups by primary key

  /** What Record::GetRecordName returns: the RecName of the first frame
      holding `key`, or the empty string. */
  function KeyName(file: seq<byte>, key: int): (n: Name)
    requires TiledFrom(file, 0)
    ensures n != [] ==> FindKey(file, 0, key).Some?
  {
    match FindKey(file, 0, key)
    case Some(q) => NameAt(file, q)
    case None => []
  }

  /** Where GetRecordName leaves the stream: after the matching header, or at
      the end of the file. */
  function KeyProbeEnd(file: seq<byte>, key: int): (c: nat)
    requires TiledFrom(file, 0)
    ensures c <= |file|
    ensures match FindKey(file, 0, key)
      case Some(q) => q < c <= FrameEnd(file, q) && (c == FrameEnd(file, q) <==> SizeAt(file, q) == HeaderSize)
      case None => c == |file|
  {
    match FindKey(file, 0, key)
    case Some(q) => q + HeaderSize
    case None => |file|
  }

  /** What Record::GetRecordByIndex returns: the registered factory's product
      for the name GetRecordName finds, or null. */
  function Lookup(file: seq<byte>, factories: map<Name, Factory>, key: int): (r: Option<Product>)
    requires TiledFrom(file, 0)
    ensures r.Some? <==> KeyName(file, key) != [] && KeyName(file, key) in factories
  {
    var n := KeyName(file, key);
    if n == [] || n !in factories then None else Some(factories[n](key))
  }

  /** Record::IsDeleted for a record whose image holds `key`. */
  predicate Deleted(file: seq<byte>, factories: map<Name, Factory>, key: int)
    requires key != 0 ==> TiledFrom(file, 0)
    ensures !Deleted(file, factories, key) ==>
      key != 0 && FindKey(file, 0, key).Some? && NameAt(file, FindKey(file, 0, key).value) in factories
  {
    key == 0 || Lookup(file, factories, key).None?
  }

  /** Record::PrIdx after IsDeleted's lookup of `key`: GetRecordByIndex sets
      it to the key when GetRecordName finds a name for it. */
  function PrIdxAfter(file: seq<byte>, key: int, prIdx: int): int
    requires key != 0 ==> TiledFrom(file, 0)
  {
    if key != 0 && KeyName(file, key) != [] then key else prIdx
  }

  /** The stream position after IsDeleted's lookup of `key`: a zero key is
      not looked up. */
  function CursorAfter(file: seq<byte>, key: int, cursor: int): int
    requires key != 0 ==> TiledFrom(file, 0)
  {
    if key == 0 then cursor else KeyProbeEnd(file, key)
  }

  method GetRecordName(db: Store?, key: int) returns (name: Name)
    requires db != null && db.open && TiledFrom(db.file, 0)
    modifies db
    ensures db.file == old(db.file) && db.open && db.fileName == old(db.fileName)
    ensures name == KeyName(db.file, key) && db.cursor == KeyProbeEnd(db.file, key)
  {
    var f, q := db.file, 0;
    while q + HeaderSize <= |f| && SizeAt(f, q) != 0 && KeyAt(f, q) != key
      invariant q <= |f| && TiledFrom(f, q)
      invariant FindKey(f, q, key) == FindKey(f, 0, key)
      decreases |f| - q
    {
      assert IsFrame(f, q);
      q := FrameEnd(f, q);
    }
    if q + HeaderSize <= |f| && SizeAt(f, q) != 0 {
      db.cursor := q + HeaderSize;
      name := NameAt(f, q);
    } else {
      db.cursor := q;
      name := [];
    }
  }

  method GetRecordByIndex(db: Store?, reg: Registry, key: int) returns (r: Option<Product>)
    requires db != null && db.open && TiledFrom(db.file, 0)
    modifies db, reg
    ensures db.file == old(db.file) && db.open && db.fileName == old(db.fileName)
    ensures db.cursor == KeyProbeEnd(db.file, key)
    ensures reg.factories == old(reg.factories)
    ensures reg.prIdx == if KeyName(db.file, key) == [] then old(reg.prIdx) else key
    ensures r == Lookup(db.file, reg.factories, key)
  {
    var className := GetRecordName(db, key);
    if className == [] {
      return None;
    }
    reg.prIdx := key;
    if className in reg.factories {
      var make := reg.factories[className];
      return Some(make(reg.prIdx));
    }
    return None;
  }

  // ---------------------------------------------------------------------
  // The primary key

  /** C++ integer division, which truncates toward zero. */
  function CQuot(a: int, b: int): (q: int)
    requires b > 0
    ensures var r := a - q * b; (a >= 0 ==> 0 <= r < b) && (a < 0 ==> -b < r <= 0)
  {
    if a >= 0 then a / b else -((-a) / b)
  }

  const TicksPerKeyPeriod: int := 1_000_000_000_000

  /** The primary key Insert derives from the clock's tick count:
      (t - t / 10^12 * 10^12) / 100 in long long arithmetic. */
  function KeyFromTicks(t: int): (k: int)
    requires Int64Min <= t <= Int64Max
    ensures -10_000_000_000 < k < 10_000_000_000
    ensures t >= 0 ==> k == (t % TicksPerKeyPeriod) / 100 && 0 <= k
  {
    CQuot(t - CQuot(t, TicksPerKeyPeriod) * TicksPerKeyPeriod, 100)
  }

  /** A tick count within 100 of a multiple of 10^12 yields key 0, the key
      every other operation reads as "deleted". */
  lemma RoundTicksGiveZeroKey(m: nat, r: nat)
    requires r < 100 && m * TicksPerKeyPeriod + r <= Int64Max
    ensures KeyFromTicks(m * TicksPerKeyPeriod + r) == 0
  {
    var t := m * TicksPerKeyPeriod + r;
    assert t % TicksPerKeyPeriod == r;
  }

  /** The image with its primary-key field set (SetPrimaryKey, Record.h). */
  function WithKey(img: seq<byte>, key: int): (r: seq<byte>)
    requires |img| >= HeaderSize && Int64Min <= key <= Int64Max
    ensures |r| == |img| && r[..KeyOffset] == img[..KeyOffset] && r[HeaderSize..] == img[HeaderSize..]
    ensures KeyAt(r, 0) == key
    ensures SizeAt(r, 0) == SizeAt(img, 0) && NameAt(r, 0) == NameAt(img, 0)
    ensures IsImage(img) ==> IsImage(r)
  {
    Pow256Values();
    IntLeRoundTrip(key, 8);
    var r := Write(img, KeyOffset, IntLe(key, 8));
    assert r[KeyOffset..HeaderSize] == IntLe(key, 8);
    assert r[..SizeBytes] == img[..SizeBytes];
    assert r[SizeBytes..KeyOffset] == img[SizeBytes..KeyOffset];
    r
  }

  /** Every frame of type `name` from `p` on is as long as the record's image:
      the scans copy such a frame over the image. */
  predicate SameSize(file: seq<byte>, p: nat, name: Name, len: nat)
    requires TiledFrom(file, p)
  {
    forall q :: q in Frames(file, p) && NameAt(file, q) == name ==> SizeAt(file, q) == len
  }

  /** What a successful Delete writes: the image keeps its RecSize and is
      zero after it, the same zeros go into the file after the RecSize at the
      record's address `at`, and the stream is left after the record. */
  predicate Erased(img0: seq<byte>, img: seq<byte>, file0: seq<byte>, file: seq<byte>, at: int, cursor: int)
  {
    |img0| >= SizeBytes && at >= 0
    && img == img0[..SizeBytes] + Zeros(|img0| - SizeBytes)
    && file == Write(file0, at + SizeBytes, Zeros(|img0| - SizeBytes))
    && cursor == at + |img0|
  }

  /** Round trip: once an image with a fresh non-zero key is appended (what
      Insert writes), the lookup by that key finds the appended frame's type,
      so a record holding that key is not deleted. */
  lemma InsertThenLookup(file: seq<byte>, img: seq<byte>, factories: map<Name, Factory>)
    requires TiledFrom(file, 0) && IsImage(img) && KeyAt(img, 0) != 0
    requires forall q :: q in Frames(file, 0) ==> KeyAt(file, q) != KeyAt(img, 0)
    ensures TiledFrom(file + img, 0)
    ensures KeyName(file + img, KeyAt(img, 0)) == NameAt(img, 0)
    ensures NameAt(img, 0) != [] && NameAt(img, 0) in factories ==>
      Lookup(file + img, factories, KeyAt(img, 0)) == Some(factories[NameAt(img, 0)](KeyAt(img, 0)))
      && !Deleted(file + img, factories, KeyAt(img, 0))
  {
    FrameFacts.AppendFrame(file, img, 0);
    var f, k := file + img, KeyAt(img, 0);
    assert Frames(f, 0) == Frames(file, 0) + [|file|];
    assert |file| in Frames(f, 0);
    var r := FindKey(f, 0, k);
    assert r.Some?;
    assert r.value !in Frames(file, 0);
    assert r.value == |file|;
  }

  /** Delete of the only frame holding `key` hides the key: a later lookup
      by it finds nothing, so every record holding that key now reports
      itself deleted. */
  lemma DeleteHidesKey(file: seq<byte>, a: nat, factories: map<Name, Factory>)
    requires TiledFrom(file, 0) && a in Frames(file, 0) && KeyAt(file, a) != 0
    requires forall q :: q in Frames(file, 0) && q != a ==> KeyAt(file, q) != KeyAt(file, a)
    ensures var erased := Write(file, a + SizeBytes, Zeros(SizeAt(file, a) - SizeBytes));
      && TiledFrom(erased, 0)
      && KeyName(erased, KeyAt(file, a)) == []
      && Deleted(erased, factories, KeyAt(file, a))
  {
    var key := KeyAt(file, a);
    FrameFacts.DeleteKeepsFrames(file, 0, a);
    var erased := Write(file, a + SizeBytes, Zeros(SizeAt(file, a) - SizeBytes));
    assert FindKey(erased, 0, key).None?;
  }

  /** What a scan leaves in a record and in the stream: the result, the
      recordDBAddress, the image, the stream position and the two member
      variables of the predicate chain. */
  datatype View = View(result: OpResult, address: int, image: seq<byte>, cursor: nat, st: State)

  /** Record::GetRecordByName from position `p`: the first frame of type
      `name` is loaded whole into the image and its offset recorded; on a
      miss the recorded offset is where the failed header read began, the
      end of the file. The chain's member variables are not touched. */
  function NameScanned(file: seq<byte>, p: nat, name: Name, image: seq<byte>, st: State): (v: View)
    requires TiledFrom(file, p)
    ensures v.result == True ==>
              (v.address in Frames(file, p) && NameAt(file, v.address) == name
               && v.cursor == FrameEnd(file, v.address) && v.image == file[v.address..v.cursor])
    ensures v.result == False ==> v.address == v.cursor == |file| && v.image == image
    ensures v.result != Null && v.st == st
  {
    match FindName(file, p, name)
    case Some(q) => View(True, q, file[q..FrameEnd(file, q)], FrameEnd(file, q), st)
    case None => View(False, |file|, image, |file|, st)
  }

  /** Record::Seek / Record::Next with a non-empty chain, from position `p`:
      on the first frame of type `name` that the chain accepts, the payload
      after the name replaces the image's and the frame's offset is recorded;
      a frame on which a term throws ends the scan with NULL; at the end of
      the file the result is FALSE. */
  function Scanned(file: seq<byte>, p: nat, name: Name, chain: seq<Term>, resolve: Resolver,
                   address: int, image: seq<byte>): (v: View)
    requires TiledFrom(file, p) && ChainFitsFrames(file, p, name, chain) && |image| >= KeyOffset
    ensures v.result == True ==>
              (v.address in Frames(file, p) && NameAt(file, v.address) == name
               && Matches(chain, ScanBuffer(file, v.address), resolve)
               && v.image == image[..KeyOffset] + ScanBuffer(file, v.address) && v.cursor == FrameEnd(file, v.address))
    ensures v.result != True ==> v.address == address && v.image == image
    ensures v.result == False ==> v.cursor == |file| && v.st == Start
  {
    match FindMatch(file, p, name, chain, resolve)
    case Hit(q) => View(True, q, image[..KeyOffset] + ScanBuffer(file, q), FrameEnd(file, q),
                        Fold(Start, chain, ScanBuffer(file, q), resolve).st)
    case Threw(q, st) => View(Null, address, image, FrameEnd(file, q), st)
    case Miss => View(False, address, image, |file|, Start)
  }

  /** Where GetRecordByName's header loop stops: the first frame of type
      `name` from `p` on, or the end of the file. */
  method SkipToName(f: seq<byte>, p: nat, name: Name) returns (q: nat)
    requires TiledFrom(f, p)
    ensures q == match FindName(f, p, name) case Some(x) => x case None => |f|
  {
    q := p;
    while q + HeaderSize <= |f| && SizeAt(f, q) != 0 && NameAt(f, q) != name
      invariant q <= |f| && TiledFrom(f, q)
      invariant FindName(f, q, name) == FindName(f, p, name)
      decreases |f| - q
    {
      assert IsFrame(f, q);
      q := FrameEnd(f, q);
    }
  }

  /** A frame copied out of the file is a record image. */
  lemma FrameIsImage(file: seq<byte>, q: nat)
    requires IsFrame(file, q)
    ensures IsImage(file[q..FrameEnd(file, q)])
  {
    assert file[q..FrameEnd(file, q)][..SizeBytes] == file[q..q + SizeBytes];
  }

  class Record {
    /** The record's bytes, header first (GetDataAddress, GetDataSize). */
    const image: array<byte>
    /** GetRecName(): the type's name, `None` for a null pointer. */
    const recName: Option<Name>
    /** recordDBAddress: the file offset of the record's frame, -1 when the
        record was never saved or loaded. */
    var address: int
    var lastOpResult: OpResult
    var lastAndOr: AndOr

    /** The image is one frame whose RecSize is its own length. */
    predicate Valid()
      reads this, image
    {
      address >= -1 && IsImage(image[..])
    }

    function Key(): int
      reads image
      requires image.Length >= HeaderSize
    {
      KeyAt(image[..], 0)
    }

    /** Record::Record(): not saved. */
    constructor(recName: Option<Name>, init: seq<byte>)
      requires IsImage(init)
      ensures this.recName == recName && fresh(image) && image[..] == init
      ensures address == -1 && !IsSaved() && Valid()
      ensures lastOpResult == Null && lastAndOr == NoJoin
    {
      this.recName := recName;
      image := new byte[|init|](i requires 0 <= i < |init| => init[i]);
      address := -1;
      lastOpResult := Null;
      lastAndOr := NoJoin;
    }

    function IsSaved(): (saved: bool)
      reads this
      requires address >= -1
      ensures saved <==> address >= 0
    {
      address != -1
    }

    /** Record::IsDeleted: a zero key, or no registered record found under
        the key. The lookup moves the stream and sets PrIdx. */
    method IsDeleted(db: Store?, reg: Registry) returns (deleted: bool)
      requires image.Length >= HeaderSize
      requires Key() != 0 ==> db != null && db.open && TiledFrom(db.file, 0)
      modifies db, reg
      ensures db != null ==> db.file == old(db.file) && db.open == old(db.open) && db.fileName == old(db.fileName)
      ensures reg.factories == old(reg.factories)
      ensures deleted == Deleted(if db == null then [] else db.file, reg.factories, Key())
      ensures reg.prIdx == PrIdxAfter(if db == null then [] else db.file, Key(), old(reg.prIdx))
      ensures db != null ==> db.cursor == CursorAfter(db.file, Key(), old(db.cursor))
    {
      var idx := Key();
      if idx != 0 {
        var r := GetRecordByIndex(db, reg, idx);
        deleted := r.None?;
      } else {
        deleted := true;
      }
    }

    /** SetPrimaryKey: the key field of the image. */
    method SetPrimaryKey(key: int)
      requires image.Length >= HeaderSize && Int64Min <= key <= Int64Max
      modifies image
      ensures image[..] == WithKey(old(image[..]), key)
    {
      var bs := IntLe(key, 8);
      Pow256Values();
      forall i | 0 <= i < 8 {
        image[KeyOffset + i] := bs[i];
      }
      assert image[..] == WithKey(old(image[..]), key);
    }

    /** Record::Insert: sets the key from the tick count and appends the image
        at the end of the file, recording where. On a bound but closed stream
        the seek fails: tellp gives -1 and nothing is written, yet Insert
        returns true. */
    method Insert(db: Store?, ticks: int) returns (ok: bool)
      requires Valid() && Int64Min <= ticks <= Int64Max
      modifies this, image, db
      ensures Valid()
      ensures lastOpResult == old(lastOpResult) && lastAndOr == old(lastAndOr)
      ensures ok <==> db != null && recName.Some?
      ensures !ok ==> image[..] == old(image[..]) && address == old(address) && (db != null ==> unchanged(db))
      ensures ok ==> image[..] == WithKey(old(image[..]), KeyFromTicks(ticks))
      ensures ok && old(db.open) ==>
        address == old(|db.file|) && db.file == old(db.file) + image[..] && db.cursor == |db.file|
      ensures ok && !old(db.open) ==> address == -1 && db.file == old(db.file) && db.cursor == old(db.cursor)
      ensures db != null ==> db.open == old(db.open) && db.fileName == old(db.fileName)
    {
      if db == null || recName.None? {
        return false;
      }
      SetPrimaryKey(KeyFromTicks(ticks));
      if db.open {
        address := |db.file|;
        db.file := db.file + image[..];
        db.cursor := |db.file|;
      } else {
        address := -1;
      }
      ok := true;
    }

    /** Record::Update: rewrites the image over the record's frame. It refuses
        when the store is missing or closed, the record unsaved or deleted,
        its name null, or its address not inside the file. */
    method Update(db: Store?, reg: Registry) returns (ok: bool)
      requires Valid()
      requires db != null && db.open ==> TiledFrom(db.file, 0)
      modifies db, reg
      ensures db != null ==> db.open == old(db.open) && db.fileName == old(db.fileName)
      ensures reg.factories == old(reg.factories)
      ensures ok <==> (db != null && db.open && address != -1 && !Deleted(old(db.file), reg.factories, Key())
                       && recName.Some? && address < |old(db.file)|)
      ensures ok ==> db.file == Write(old(db.file), address, image[..]) && db.cursor == address + image.Length
      ensures !ok && db != null ==> db.file == old(db.file)
      ensures reg.prIdx == if db == null || !old(db.open) || address == -1 then old(reg.prIdx)
                           else PrIdxAfter(old(db.file), Key(), old(reg.prIdx))
      ensures !ok && db != null ==>
        db.cursor == (if !old(db.open) || address == -1 then old(db.cursor)
                      else if Deleted(old(db.file), reg.factories, Key()) || recName.None? then CursorAfter(old(db.file), Key(), old(db.cursor))
                      else |old(db.file)|)
    {
      if db == null || !db.open {
        return false;
      }
      if address == -1 {
        return false;
      }
      var deleted := IsDeleted(db, reg);
      if deleted {
        return false;
      }
      if recName.None? {
        return false;
      }
      db.cursor := |db.file|;
      if address >= |db.file| {
        return false;
      }
      db.file := Write(db.file, address, image[..]);
      db.cursor := address + image.Length;
      ok := true;
    }

    /** The refusals Delete makes before writing: no store, a record never
        saved, or one IsDeleted reports deleted. */
    method Deletable(db: Store?, reg: Registry) returns (go: bool)
      requires Valid()
      requires db != null && db.open ==> TiledFrom(db.file, 0)
      requires db != null && address != -1 && Key() != 0 ==> db.open
      modifies db, reg
      ensures db != null ==> db.file == old(db.file) && db.open == old(db.open) && db.fileName == old(db.fileName)
      ensures reg.factories == old(reg.factories)
      ensures go <==> (db != null && address != -1 && !Deleted(db.file, reg.factories, Key()))
      ensures go ==> db.open
      ensures reg.prIdx == if db == null || address == -1 then old(reg.prIdx) else PrIdxAfter(db.file, Key(), old(reg.prIdx))
      ensures db != null ==> db.cursor == if address == -1 then old(db.cursor) else CursorAfter(db.file, Key(), old(db.cursor))
    {
      if db == null {
        return false;
      }
      if address == -1 {
        return false;
      }
      var deleted := IsDeleted(db, reg);
      if deleted {
        return false;
      }
      go := true;
    }

    /** Record::Delete as written: zeroes everything after RecSize, in the
        image and in the file at the record's address, and keeps the address.
        Unlike Update it does not check that the address lies inside the
        file. */
    method Delete(db: Store?, reg: Registry) returns (ok: bool)
      requires Valid()
      requires db != null && db.open ==> TiledFrom(db.file, 0)
      requires db != null && address != -1 && Key() != 0 ==> db.open
      modifies image, db, reg
      ensures Valid() && (ok ==> IsSaved())
      ensures db != null ==> db.open == old(db.open) && db.fileName == old(db.fileName)
      ensures reg.factories == old(reg.factories)
      ensures ok <==> db != null && address != -1 && !Deleted(old(db.file), reg.factories, old(Key()))
      ensures ok ==> Erased(old(image[..]), image[..], old(db.file), db.file, address, db.cursor)
      ensures !ok ==> image[..] == old(image[..]) && (db != null ==> db.file == old(db.file))
      ensures reg.prIdx == if db == null || address == -1 then old(reg.prIdx)
                           else PrIdxAfter(old(db.file), old(Key()), old(reg.prIdx))
      ensures !ok && db != null ==>
        db.cursor == (if address == -1 then old(db.cursor) else CursorAfter(old(db.file), old(Key()), old(db.cursor)))
    {
      var go := Deletable(db, reg);
      if !go {
        return false;
      }
      Erase(db);
      ok := true;
    }

    /** Delete with Update's bounds check: after the refusals of Delete, the
        stream is moved to the end of the file and an address at or past it
        is refused (Record.cpp:110-117). A record whose frame is in the file
        is erased in place, and the file still tiles. */
    method DeleteChecked(db: Store?, reg: Registry) returns (ok: bool)
      requires Valid()
      requires db != null && db.open ==> TiledFrom(db.file, 0)
      requires db != null && address != -1 && Key() != 0 ==> db.open
      modifies image, db, reg
      ensures Valid() && (ok ==> IsSaved())
      ensures db != null ==> db.open == old(db.open) && db.fileName == old(db.fileName)
      ensures reg.factories == old(reg.factories)
      ensures ok <==> (db != null && address != -1 && !Deleted(old(db.file), reg.factories, old(Key()))
                       && address < |old(db.file)|)
      ensures ok ==> Erased(old(image[..]), image[..], old(db.file), db.file, address, db.cursor)
      ensures !ok ==> image[..] == old(image[..]) && (db != null ==> db.file == old(db.file))
      ensures reg.prIdx == if db == null || address == -1 then old(reg.prIdx)
                           else PrIdxAfter(old(db.file), old(Key()), old(reg.prIdx))
      ensures !ok && db != null ==>
        db.cursor == (if address == -1 then old(db.cursor)
                      else if Deleted(old(db.file), reg.factories, old(Key())) then CursorAfter(old(db.file), old(Key()), old(db.cursor))
                      else |old(db.file)|)
      ensures ok ==> db != null && old(db.open) && TiledFrom(old(db.file), 0)
      ensures ok && address in Frames(old(db.file), 0) && image.Length == SizeAt(old(db.file), address) ==>
        TiledFrom(db.file, 0)
    {
      var go := Deletable(db, reg);
      if !go {
        return false;
      }
      db.cursor := |db.file|;
      if address >= |db.file| {
        return false;
      }
      EraseFrame(db);
      ok := true;
    }

    /** Erase over a file that tiles: a frame of the image's own length is
        zeroed in place, and the file still tiles. */
    method EraseFrame(db: Store)
      requires Valid() && address >= 0 && TiledFrom(db.file, 0)
      modifies image, db
      ensures Valid()
      ensures db.open == old(db.open) && db.fileName == old(db.fileName)
      ensures Erased(old(image[..]), image[..], old(db.file), db.file, address, db.cursor)
      ensures address in Frames(old(db.file), 0) && image.Length == SizeAt(old(db.file), address) ==>
        TiledFrom(db.file, 0)
    {
      var f := db.file;
      Erase(db);
      if address in Frames(f, 0) && image.Length == SizeAt(f, address) {
        ErasedFrameTiles(f, address, image.Length, db.file);
      }
    }

    /** The writes of Delete: the payload is zeroed in the image and in the
        file at the record's address, and the stream is left after it. */
    method Erase(db: Store)
      requires Valid() && address >= 0
      modifies image, db
      ensures Valid()
      ensures db.open == old(db.open) && db.fileName == old(db.fileName)
      ensures Erased(old(image[..]), image[..], old(db.file), db.file, address, db.cursor)
    {
      ZeroPayload();
      db.file := Write(db.file, address + SizeBytes, Zeros(image.Length - SizeBytes));
      db.cursor := address + image.Length;
    }

    /** The memset of Delete: every image byte after RecSize becomes 0. */
    method ZeroPayload()
      requires Valid()
      modifies image
      ensures Valid()
      ensures image[..] == old(image[..])[..SizeBytes] + Zeros(image.Length - SizeBytes)
    {
      forall i | SizeBytes <= i < image.Length {
        image[i] := 0;
      }
      assert image[..SizeBytes] == old(image[..])[..SizeBytes];
      assert image[..] == old(image[..])[..SizeBytes] + Zeros(image.Length - SizeBytes);
    }

    /** memcpy into the image at `at`. */
    method CopyIn(at: nat, bs: seq<byte>)
      requires at + |bs| == image.Length
      modifies image
      ensures image[..] == old(image[..])[..at] + bs
    {
      forall i | at <= i < image.Length {
        image[i] := bs[i - at];
      }
      assert image[..at] == old(image[..])[..at];
      assert image[at..] == bs;
      assert image[..] == image[..at] + image[at..];
    }

    /** The end of a successful chain scan: the frame's payload after the
        name is copied into the image and the frame's offset recorded. */
    method Adopt(q: nat, buf: seq<byte>)
      requires Valid() && KeyOffset + |buf| == image.Length
      modifies this, image
      ensures Valid() && address == q
      ensures image[..] == old(image[..])[..KeyOffset] + buf
      ensures lastOpResult == old(lastOpResult) && lastAndOr == old(lastAndOr)
    {
      CopyIn(KeyOffset, buf);
      assert image[..SizeBytes] == old(image[..])[..SizeBytes];
      address := q;
    }

    /** Record::GetRecordByName: from the current position, the first frame
        of the record's type. */
    method GetRecordByName(db: Store) returns (r: OpResult)
      requires Valid() && db.open && recName.Some?
      requires TiledFrom(db.file, db.cursor) && SameSize(db.file, db.cursor, recName.value, image.Length)
      modifies this, image, db
      ensures db.file == old(db.file) && db.open && db.fileName == old(db.fileName)
      ensures Valid()
      ensures View(r, address, image[..], db.cursor, State(lastOpResult, lastAndOr))
        == NameScanned(db.file, old(db.cursor), recName.value, old(image[..]), State(old(lastOpResult), old(lastAndOr)))
    {
      var f := db.file;
      var q := SkipToName(f, db.cursor, recName.value);
      if q == |f| {
        address := q;
        db.cursor := q;
        return False;
      }
      var e := FrameEnd(f, q);
      assert SizeAt(f, q) == image.Length;
      FrameIsImage(f, q);
      CopyIn(0, f[q..e]);
      assert image[..] == f[q..e];
      address := q;
      db.cursor := e;
      r := True;
    }

    /** Record::processSeek: one term of the chain, applied to the member
        variables. An exception is reported in `thrown`, with the member
        variables as the term found them. */
    method ProcessSeek(t: Term, buf: seq<byte>, resolve: Resolver) returns (r: OpResult, thrown: bool)
      requires TermFits(t, buf)
      modifies this
      ensures address == old(address)
      ensures Step(State(old(lastOpResult), old(lastAndOr)), t, buf, resolve)
        == (if thrown then Thrown(State(lastOpResult, lastAndOr)) else Done(State(lastOpResult, lastAndOr)))
      ensures !thrown ==> r == lastOpResult
    {
      thrown := false;
      if lastOpResult == True && lastAndOr == Or {
        lastAndOr := t.andOr;
        return True, false;
      }
      if lastOpResult == False && lastAndOr == And {
        lastAndOr := t.andOr;
        return False, false;
      }
      var e := Evaluate(t, buf, resolve);
      if e.Throws? {
        return lastOpResult, true;
      }
      if e.Unresolved? {
        return lastOpResult, false;
      }
      if e.Value? {
        lastOpResult := OfBool(e.b);
      }
      lastAndOr := t.andOr;
      r := lastOpResult;
    }

    /** The terms of one Seek or Next call, in order, over one frame's scan
        buffer; the first exception ends the evaluation. */
    method EvalChain(chain: seq<Term>, buf: seq<byte>, resolve: Resolver) returns (thrown: bool)
      requires ChainFits(chain, buf)
      modifies this
      ensures address == old(address)
      ensures Fold(State(old(lastOpResult), old(lastAndOr)), chain, buf, resolve)
        == (if thrown then Thrown(State(lastOpResult, lastAndOr)) else Done(State(lastOpResult, lastAndOr)))
    {
      var i := 0;
      while i < |chain|
        invariant 0 <= i <= |chain| && ChainFits(chain[i..], buf)
        invariant address == old(address)
        invariant Fold(State(old(lastOpResult), old(lastAndOr)), chain, buf, resolve)
          == Fold(State(lastOpResult, lastAndOr), chain[i..], buf, resolve)
      {
        assert chain[i..][0] == chain[i] && chain[i..][1..] == chain[i + 1..];
        var _, th := ProcessSeek(chain[i], buf, resolve);
        if th {
          return true;
        }
        i := i + 1;
      }
      thrown := false;
    }

    /** The frame loop shared by Seek and Next, from the current position:
        the member variables are reset before each frame; a frame of another
        type is skipped. Returns the frame the loop stopped on, or the end of
        the file. */
    method ScanFrames(f: seq<byte>, p: nat, name: Name, chain: seq<Term>, resolve: Resolver)
      returns (q: nat, thrown: bool)
      requires TiledFrom(f, p) && ChainFitsFrames(f, p, name, chain)
      modifies this
      ensures address == old(address)
      ensures match FindMatch(f, p, name, chain, resolve)
        case Hit(x) => q == x && !thrown && State(lastOpResult, lastAndOr) == Fold(Start, chain, ScanBuffer(f, x), resolve).st
        case Threw(x, st) => q == x && thrown && State(lastOpResult, lastAndOr) == st
        case Miss => q == |f| && !thrown && State(lastOpResult, lastAndOr) == Start
    {
      q, thrown := p, false;
      while true
        invariant q <= |f| && TiledFrom(f, q) && ChainFitsFrames(f, q, name, chain)
        invariant FindMatch(f, q, name, chain, resolve) == FindMatch(f, p, name, chain, resolve)
        invariant address == old(address) && !thrown
        decreases |f| - q
      {
        lastOpResult, lastAndOr := Null, NoJoin;
        if q + KeyOffset > |f| {
          return;
        }
        var e := FrameEnd(f, q);
        assert Frames(f, q) == [q] + Frames(f, e);
        if NameAt(f, q) != name {
          q := e;
          continue;
        }
        assert q in Frames(f, q);
        thrown := EvalChain(chain, ScanBuffer(f, q), resolve);
        if thrown || lastOpResult == True {
          return;
        }
        q := e;
      }
    }

    /** Seek and Next with a non-empty chain, from the current position. */
    method Scan(db: Store, chain: seq<Term>, resolve: Resolver) returns (r: OpResult)
      requires Valid() && db.open && recName.Some?
      requires TiledFrom(db.file, db.cursor) && SameSize(db.file, db.cursor, recName.value, image.Length)
      requires ChainFitsFrames(db.file, db.cursor, recName.value, chain)
      modifies this, image, db
      ensures db.file == old(db.file) && db.open && db.fileName == old(db.fileName)
      ensures Valid()
      ensures View(r, address, image[..], db.cursor, State(lastOpResult, lastAndOr))
        == Scanned(db.file, old(db.cursor), recName.value, chain, resolve, old(address), old(image[..]))
    {
      var f := db.file;
      var q, thrown := ScanFrames(f, db.cursor, recName.value, chain, resolve);
      if q == |f| {
        db.cursor := q;
        return False;
      }
      var e := FrameEnd(f, q);
      db.cursor := e;
      if thrown {
        return Null;
      }
      Adopt(q, ScanBuffer(f, q));
      r := True;
    }

    /** Record::Seek: from the start of the file, GetRecordByName when the
        chain is empty, the chain scan otherwise. NULL without a usable
        store. */
    method Seek(db: Store?, chain: seq<Term>, resolve: Resolver) returns (r: OpResult)
      requires Valid()
      requires db != null && db.open ==>
                 (recName.Some? && TiledFrom(db.file, 0)
                  && SameSize(db.file, 0, recName.value, image.Length) && ChainFitsFrames(db.file, 0, recName.value, chain))
      modifies this, image, db
      ensures Valid()
      ensures db == null || !old(db.open) ==>
        r == Null && address == old(address) && image[..] == old(image[..])
        && lastOpResult == old(lastOpResult) && lastAndOr == old(lastAndOr) && (db != null ==> unchanged(db))
      ensures db != null && old(db.open) ==> db.file == old(db.file) && db.open && db.fileName == old(db.fileName)
      ensures db != null && old(db.open) && chain == [] ==>
        View(r, address, image[..], db.cursor, State(lastOpResult, lastAndOr))
        == NameScanned(db.file, 0, recName.value, old(image[..]), State(old(lastOpResult), old(lastAndOr)))
      ensures db != null && old(db.open) && chain != [] ==>
        View(r, address, image[..], db.cursor, State(lastOpResult, lastAndOr))
        == Scanned(db.file, 0, recName.value, chain, resolve, old(address), old(image[..]))
    {
      if db == null || !db.open {
        return Null;
      }
      db.cursor := 0;
      if chain == [] {
        r := GetRecordByName(db);
      } else {
        r := Scan(db, chain, resolve);
      }
    }

    /** Record::Next: as Seek, from where the stream stands. */
    method Next(db: Store?, chain: seq<Term>, resolve: Resolver) returns (r: OpResult)
      requires Valid()
      requires db != null && db.open ==>
                 (recName.Some? && TiledFrom(db.file, db.cursor)
                  && SameSize(db.file, db.cursor, recName.value, image.Length)
                  && ChainFitsFrames(db.file, db.cursor, recName.value, chain))
      modifies this, image, db
      ensures Valid()
      ensures db == null || !old(db.open) ==>
        r == Null && address == old(address) && image[..] == old(image[..])
        && lastOpResult == old(lastOpResult) && lastAndOr == old(lastAndOr) && (db != null ==> unchanged(db))
      ensures db != null && old(db.open) ==> db.file == old(db.file) && db.open && db.fileName == old(db.fileName)
      ensures db != null && old(db.open) && chain == [] ==>
        View(r, address, image[..], db.cursor, State(lastOpResult, lastAndOr))
        == NameScanned(db.file, old(db.cursor), recName.value, old(image[..]), State(old(lastOpResult), old(lastAndOr)))
      ensures db != null && old(db.open) && chain != [] ==>
        View(r, address, image[..], db.cursor, State(lastOpResult, lastAndOr))
        == Scanned(db.file, old(db.cursor), recName.value, chain, resolve, old(address), old(image[..]))
    {
      if db == null || !db.open {
        return Null;
      }
      if chain == [] {
        r := GetRecordByName(db);
      } else {
        r := Scan(db, chain, resolve);
      }
    }
  }

  /** The frames from a frame `q` on are among the frames from `p`. */
  lemma {:induction false} FramesFrom(file: seq<byte>, p: nat, q: nat)
    requires TiledFrom(file, p) && q in Frames(file, p)
    ensures TiledFrom(file, q) && forall x :: x in Frames(file, q) ==> x in Frames(file, p)
    decreases |file| - p
  {
    if q != p {
      var e := FrameEnd(file, p);
      assert Frames(file, p) == [p] + Frames(file, e);
      FramesFrom(file, e, q);
    }
  }

  /** Zeroing a frame of a tiled file after its size field keeps the file
      tiled. */
  lemma ErasedFrameTiles(file: seq<byte>, a: nat, len: nat, erased: seq<byte>)
    requires TiledFrom(file, 0) && a in Frames(file, 0) && len == SizeAt(file, a)
    requires erased == Write(file, a + SizeBytes, Zeros(len - SizeBytes))
    ensures TiledFrom(erased, 0)
  {
    FrameFacts.DeleteKeepsFrames(file, 0, a);
  }

  /** A frame copied into a record's image keeps its key. */
  lemma CopiedKey(file: seq<byte>, a: nat)
    requires IsFrame(file, a)
    ensures KeyAt(file[a..FrameEnd(file, a)], 0) == KeyAt(file, a)
  {
    var img := file[a..FrameEnd(file, a)];
    assert |img| >= HeaderSize;
    forall i | KeyOffset <= i < HeaderSize
      ensures img[i] == file[a + i]
    {
    }
    assert img[KeyOffset..HeaderSize] == file[a + KeyOffset..a + HeaderSize];
  }

  /** Seek by type name, then Next by type name, on a file holding exactly
      one frame of the record's type: the record holds that frame, and
      recordDBAddress is left at the end of the file by the failed read. */
  method SeekThenMiss(rec: Record, db: Store, resolve: Resolver) returns (a: nat)
    requires rec.Valid() && db.open && rec.recName.Some? && TiledFrom(db.file, 0)
    requires SameSize(db.file, 0, rec.recName.value, rec.image.Length)
    requires FindName(db.file, 0, rec.recName.value).Some?
    requires FindName(db.file, FrameEnd(db.file, FindName(db.file, 0, rec.recName.value).value), rec.recName.value).None?
    modifies rec, rec.image, db
    ensures db.file == old(db.file) && db.open && rec.Valid()
    ensures FindName(db.file, 0, rec.recName.value) == Some(a)
    ensures rec.address == |db.file| && rec.image[..] == db.file[a..FrameEnd(db.file, a)]
  {
    var name, f := rec.recName.value, db.file;
    a := FindName(f, 0, name).value;
    var _ := rec.Seek(db, [], resolve);
    assert db.cursor == FrameEnd(f, a) && rec.image[..] == f[a..FrameEnd(f, a)];
    FramesFrom(f, 0, a);
    assert Frames(f, a) == [a] + Frames(f, FrameEnd(f, a));
    var _ := rec.Next(db, [], resolve);
  }

  /** Delete of a live record whose recordDBAddress is the file length, as
      a scan that found nothing leaves it: Delete, which does not check the
      address against the file size, reports success while it appends a
      zero block, and the file no longer tiles into frames. */
  method DeleteAtEnd(rec: Record, db: Store, reg: Registry) returns (ok: bool)
    requires rec.Valid() && db.open && TiledFrom(db.file, 0)
    requires rec.address == |db.file| && !Deleted(db.file, reg.factories, rec.Key())
    modifies rec.image, db, reg
    ensures ok && db.file == old(db.file) + Zeros(rec.image.Length) && !TiledFrom(db.file, 0)
  {
    var f, len := db.file, rec.image.Length;
    ok := rec.Delete(db, reg);
    FrameFacts.DeletePastEnd(f, len);
  }

  /** Delete after a scan that missed: Seek and then Next by type name on a
      file with one frame of the record's type leave recordDBAddress at the
      end of the file, and the Delete that follows breaks the file. */
  method DeleteAfterMissedNext(rec: Record, db: Store, reg: Registry, resolve: Resolver) returns (ok: bool)
    requires rec.Valid() && db.open && rec.recName.Some? && TiledFrom(db.file, 0)
    requires SameSize(db.file, 0, rec.recName.value, rec.image.Length)
    requires FindName(db.file, 0, rec.recName.value).Some?
    requires var a := FindName(db.file, 0, rec.recName.value).value;
      && FindName(db.file, FrameEnd(db.file, a), rec.recName.value).None?
      && KeyAt(db.file, a) != 0 && Lookup(db.file, reg.factories, KeyAt(db.file, a)).Some?
    modifies rec, rec.image, db, reg
    ensures ok && rec.address == |old(db.file)| && !TiledFrom(db.file, 0)
  {
    var f := db.file;
    var a := SeekThenMiss(rec, db, resolve);
    CopiedKey(f, a);
    assert rec.Key() == KeyAt(f, a);
    ok := DeleteAtEnd(rec, db, reg);
  }
}
