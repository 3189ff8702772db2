/** The Database class (Database.cpp): one fstream opened read/write on a
    single binary file, and the whole-file walks over its frames.

    The stream is modelled by the file's bytes, the shared get/put position
    and whether the stream is open. What the operating system holds at a path
    is an input: `Connect` is given the bytes it finds there, or `None` when
    there is no such file. */
module Database {
  import opened Bytes
  import opened Optional
  import opened Framing

  /** Record::db, the store that every Record operation works on. */
  class Binding {
    var db: Store?

    constructor()
      ensures db == null
    {
      db := null;
    }
  }

  class Store {
    /** The file's contents, as written so far through the stream. */
    var file: seq<byte>
    /** The stream position shared by reads and writes. */
    var cursor: nat
    /** outFile.is_open(). */
    var open: bool
    var fileName: string

    /** Database::Database(fileName): Connect(fileName). */
    constructor(fileName: string, onDisk: Option<seq<byte>>, binding: Binding)
      modifies binding
      ensures this.fileName == fileName && open && cursor == 0
      ensures file == onDisk.GetOr([])
      ensures binding.db == this
    {
      this.fileName := fileName;
      file := onDisk.GetOr([]);
      cursor := 0;
      open := true;
      new;
      binding.db := this;
    }

    /** Database::Connect: closes an open handle, opens `path` for reading and
        writing, creating an empty file when there is none, binds Record::db
        to this store and records the file name. */
    method Connect(path: string, onDisk: Option<seq<byte>>, binding: Binding)
      modifies this, binding
      ensures open && cursor == 0 && fileName == path
      ensures file == onDisk.GetOr([])
      ensures binding.db == this
    {
      if open {
        var _ := Close();
      }
      file := onDisk.GetOr([]);
      open := true;
      cursor := 0;
      binding.db := this;
      fileName := path;
    }

    method IsOpen() returns (b: bool)
      ensures b == open
    {
      b := open;
    }

    /** Database::Close: 0 when it closed an open handle, 1 when there was
        none. Closing leaves the bytes and the position alone. */
    method Close() returns (status: int)
      modifies this
      ensures status == (if old(open) then 0 else 1)
      ensures !open
      ensures file == old(file) && cursor == old(cursor) && fileName == old(fileName)
    {
      if open {
        open := false;
        status := 0;
      } else {
        status := 1;
      }
    }

    /** Database::GetCount: rewinds and counts the frames up to a short header
        read or a header with RecSize 0. On a file whose frames tile it that
        is every frame, deleted ones included. A closed stream reads nothing. */
    method GetCount() returns (n: int)
      requires open ==> TiledFrom(file, 0)
      modifies this
      ensures file == old(file) && open == old(open) && fileName == old(fileName)
      ensures open ==> n == |Frames(file, 0)| && cursor == |file|
      ensures !open ==> n == 0 && cursor == old(cursor)
    {
      n := 0;
      if !open {
        return;
      }
      var f, q := file, 0;
      while true
        invariant q <= |f| && TiledFrom(f, q)
        invariant n + |Frames(f, q)| == |Frames(f, 0)|
        decreases |f| - q
      {
        if q + HeaderSize > |f| || SizeAt(f, q) == 0 {
          break;
        }
        q := FrameEnd(f, q);
        n := n + 1;
      }
      cursor := q;
    }

    /** Database::Dump(recName): 1 without scanning when Record::db is unset
        or the stream is closed; otherwise 0, and the total it reports is the
        number of frames whose RecName is `recName`. */
    method Dump(bound: Store?, recName: Name) returns (status: int, total: int)
      requires bound != null && open ==> TiledFrom(file, 0)
      modifies this
      ensures file == old(file) && open == old(open) && fileName == old(fileName)
      ensures bound == null || !open ==> status == 1 && total == 0 && cursor == old(cursor)
      ensures bound != null && open ==> status == 0 && total == CountNamed(file, 0, recName) && cursor == |file|
    {
      if bound == null || !open {
        return 1, 0;
      }
      var f, q := file, 0;
      total := 0;
      while true
        invariant q <= |f| && TiledFrom(f, q)
        invariant total + CountNamed(f, q, recName) == CountNamed(f, 0, recName)
        decreases |f| - q
      {
        if q + HeaderSize > |f| || SizeAt(f, q) == 0 {
          break;
        }
        var e := FrameEnd(f, q);
        assert CountNamed(f, q, recName) == (if NameAt(f, q) == recName then 1 else 0) + CountNamed(f, e, recName);
        if recName != NameAt(f, q) {
          q := FrameEnd(f, q);
          continue;
        }
        q := FrameEnd(f, q);
        total := total + 1;
      }
      cursor := q;
      status := 0;
    }

    /** Database::Dump(void) as written: a header whose primary key is 0 is
        passed over by `continue` without seeking past its payload. The walk
        is specified wherever it ends (`DumpAllEnds`), tiled or not. */
    method DumpAll(bound: Store?) returns (status: int, total: int)
      requires bound != null && open ==> DumpAllEnds(file, 0)
      modifies this
      ensures file == old(file) && open == old(open) && fileName == old(fileName)
      ensures bound == null || !open ==> status == 1 && total == 0 && cursor == old(cursor)
      ensures bound != null && open ==> status == 0 && total == DumpAllCount(file, 0) && cursor == DumpAllStop(file, 0)
    {
      if bound == null || !open {
        return 1, 0;
      }
      total, cursor := DumpAllWalk(file);
      status := 0;
    }

    /** Dump(void) as evidently intended: a deleted frame is passed over
        whole, so every live record is counted. */
    method DumpLive(bound: Store?) returns (status: int, total: int)
      requires bound != null && open ==> TiledFrom(file, 0)
      modifies this
      ensures file == old(file) && open == old(open) && fileName == old(fileName)
      ensures bound == null || !open ==> status == 1 && total == 0 && cursor == old(cursor)
      ensures bound != null && open ==> status == 0 && total == LiveCount(file, 0) && cursor == |file|
    {
      if bound == null || !open {
        return 1, 0;
      }
      var f, q := file, 0;
      total := 0;
      while true
        invariant q <= |f| && TiledFrom(f, q)
        invariant total + LiveCount(f, q) == LiveCount(f, 0)
        decreases |f| - q
      {
        if q + HeaderSize > |f| || SizeAt(f, q) == 0 {
          break;
        }
        if KeyAt(f, q) == 0 {
          q := FrameEnd(f, q);
          continue;
        }
        q := FrameEnd(f, q);
        total := total + 1;
      }
      cursor := q;
      status := 0;
    }
  }

  /** The header loop of Dump(void), on the bytes of the file: the number of
      live headers it passes and where the stream is when it stops. */
  method DumpAllWalk(f: seq<byte>) returns (total: nat, stop: nat)
    requires DumpAllEnds(f, 0)
    ensures total == DumpAllCount(f, 0) && stop == DumpAllStop(f, 0)
  {
    var q := 0;
    total := 0;
    while q + HeaderSize <= |f| && SizeAt(f, q) != 0
      invariant DumpAllEnds(f, q)
      invariant total + DumpAllCount(f, q) == DumpAllCount(f, 0)
      invariant DumpAllStop(f, q) == DumpAllStop(f, 0)
      decreases |f| - q
    {
      if KeyAt(f, q) == 0 {
        // `continue` right after the header: the next read starts inside
        // the deleted frame
        q := DumpAllNext(f, q);
        continue;
      }
      q := DumpAllNext(f, q);
      total := total + 1;
    }
    stop := if q + HeaderSize > |f| then (if q <= |f| then |f| else q) else q + HeaderSize;
  }

  /** Closing twice: the first Close of an open store returns 0, the second 1. */
  method CloseTwice(s: Store) returns (first: int, second: int)
    requires s.open
    modifies s
    ensures first == 0 && second == 1 && !s.open
  {
    first := s.Close();
    second := s.Close();
  }
}
