/** The local ban database: a versioned file of ban records, mirrored in
    memory by an ordered list of entries. Each entry remembers the file
    position of its record, so that deactivating a ban rewrites that record
    in place instead of rewriting the file.

    The byte-level codec is not modelled: the backing file is an abstract
    image holding the version byte, the records with their positions, and
    the end-of-file offset. */
module BanDatabase {

  newtype uint8 = x: int | 0 <= x < 0x100
  newtype uint32 = x: int | 0 <= x < 0x1_0000_0000
  newtype uint64 = x: int | 0 <= x < 0x1_0000_0000_0000_0000

  /** The variable data section of an entry, kept as its ordered key/value pairs. */
  datatype VarData = VarData(pairs: seq<(string, string)>)

  /** One ban record. `pos` is where the record starts in the database file;
      `active` is 1 while the ban is enforced and 0 otherwise; a `length` of 0
      means the ban is permanent. */
  datatype Entry = Entry(
    pos: nat,
    active: uint8,
    timestamp: int,
    length: int,
    steamid: uint64,
    ip: uint32,
    rdns: string,
    name: string,
    reason: string,
    varData: VarData)

  predicate IsActive(e: Entry) {
    e.active == 1
  }

  predicate IsPermanent(e: Entry) {
    e.length == 0
  }

  /** What the database takes from the player being banned. */
  datatype PlayerInfo = PlayerInfo(steamid: uint64, ip: uint32, rdns: string, name: string)

  /** The contents of a database file: the version byte at offset 0, then the
      records in file order, each tagged with its start offset, then `end`. */
  datatype FileImage = FileImage(version: uint8, records: seq<Entry>, end: nat)

  /** Records follow the version byte, lie before the end of the file, and
      appear in increasing order of position (the file is only appended to). */
  predicate PositionsOrdered(f: FileImage) {
    && 1 <= f.end
    && (forall i :: 0 <= i < |f.records| ==> 1 <= f.records[i].pos < f.end)
    && (forall i, j :: 0 <= i < j < |f.records| ==> f.records[i].pos < f.records[j].pos)
  }

  type BanFile = f: FileImage | PositionsOrdered(f) witness FileImage(0, [], 1)

  /** What the file system holds under a file name when `load` opens it:
      no file (which `load` can or cannot create), a file whose version byte
      or records cannot be read, or a readable file. */
  datatype FileState = Missing | Uncreatable | Unreadable | Present(contents: BanFile)

  /** A freshly provisioned database file: the version byte and nothing else. */
  function Provisioned(version: uint8): BanFile {
    FileImage(version, [], 1)
  }

  /** The file after seeking to `pos` and overwriting the active byte of the
      record that starts there with `v`. */
  function RewriteActive(f: BanFile, pos: nat, v: uint8): BanFile {
    var records := seq(|f.records|, j requires 0 <= j < |f.records| =>
      if f.records[j].pos == pos then f.records[j].(active := v) else f.records[j]);
    assert forall j :: 0 <= j < |records| ==> records[j].pos == f.records[j].pos;
    FileImage(f.version, records, f.end)
  }

  /** Rewriting at the position of record k touches record k and no other,
      and only its active byte. */
  lemma RewriteActiveAt(f: BanFile, k: nat, v: uint8)
    requires k < |f.records|
    ensures RewriteActive(f, f.records[k].pos, v)
            == f.(records := f.records[k := f.records[k].(active := v)])
  {
  }

  /** The outcome of `deactivate` on a list of entries. */
  datatype Deactivation = Deactivation(changed: bool, entries: seq<Entry>)

  /** `deactivate(index)` on the in-memory list. */
  function Deactivated(entries: seq<Entry>, index: nat): (r: Deactivation)
    ensures r.changed <==> index < |entries| && IsActive(entries[index])
    ensures |r.entries| == |entries|
    ensures forall j :: 0 <= j < |entries| && j != index ==> r.entries[j] == entries[j]
    ensures r.changed ==> r.entries[index].active == 0
    ensures !r.changed ==> r.entries == entries
    ensures index < |entries| ==>
              && !IsActive(r.entries[index])
              && r.entries[index].(active := entries[index].active) == entries[index]
  {
    if index < |entries| && IsActive(entries[index]) then
      Deactivation(true, entries[index := entries[index].(active := 0)])
    else
      Deactivation(false, entries)
  }

  /** Deactivating twice: the second call reports false and changes nothing. */
  lemma DeactivateIdempotent(entries: seq<Entry>, index: nat)
    ensures var first := Deactivated(entries, index);
            var second := Deactivated(first.entries, index);
            !second.changed && second.entries == first.entries
  {
  }

  /** An index past the end is refused and changes nothing. */
  lemma DeactivateOutOfRange(entries: seq<Entry>, index: nat)
    requires index >= |entries|
    ensures Deactivated(entries, index) == Deactivation(false, entries)
  {
  }

  class Database {
    /** The version this implementation writes into a file it provisions. */
    const formatVersion: uint8

    var version: uint8
    var filename: string
    var entries: seq<Entry>

    /** The backing file's contents. */
    var file: BanFile

    /** slots[i] is the index of the file record that entries[i] mirrors. */
    ghost var slots: seq<nat>

    /** Memory and disk agree: every entry is the record of the file that it
        mirrors (same position, same active byte, same fields), and entries
        are in file order. */
    ghost predicate Valid()
      reads this
    {
      && version == file.version
      && |slots| == |entries|
      && (forall i :: 0 <= i < |slots| ==> slots[i] < |file.records| && file.records[slots[i]] == entries[i])
      && (forall i, j :: 0 <= i < j < |slots| ==> slots[i] < slots[j])
    }

    constructor (formatVersion: uint8)
      ensures Valid()
      ensures this.formatVersion == formatVersion && entries == [] && filename == []
    {
      this.formatVersion := formatVersion;
      version := formatVersion;
      filename := [];
      entries := [];
      file := Provisioned(formatVersion);
      slots := [];
    }

    /** Loads a database file. A missing file is provisioned with the version
        byte alone and loads as an empty database; a missing file that cannot
        be created, or an unreadable file, is a failure that leaves the
        database as it was. */
    method Load(fname: string, existing: FileState) returns (ok: bool)
      requires Valid()
      modifies this
      ensures Valid()
      ensures ok <==> existing.Missing? || existing.Present?
      ensures existing.Missing? ==>
                && filename == fname && entries == []
                && file == Provisioned(formatVersion) && version == formatVersion
      ensures existing.Present? ==>
                && filename == fname && file == existing.contents
                && entries == existing.contents.records && version == existing.contents.version
      ensures !ok ==>
                version == old(version) && filename == old(filename)
                && entries == old(entries) && file == old(file)
    {
      match existing
      case Missing =>
        filename := fname;
        file := Provisioned(formatVersion);
        version := formatVersion;
        entries := [];
        slots := [];
        ok := true;
      case Uncreatable =>
        ok := false;
      case Unreadable =>
        ok := false;
      case Present(contents) =>
        filename := fname;
        file := contents;
        version := contents.version;
        entries := contents.records;
        slots := seq(|contents.records|, i => i);
        ok := true;
    }

    /** Static `write(entry, file)`: appends the entry at the end of the given
        file, recording that offset as the entry's position. It has no access
        to any database's state. */
    static method WriteTo(entry: Entry, f: BanFile, encodedSize: nat) returns (written: Entry, f': BanFile)
      requires encodedSize > 0
      ensures written == entry.(pos := f.end)
      ensures f'.version == f.version && f'.end == f.end + encodedSize
      ensures f'.records == f.records + [written]
      ensures forall i :: 0 <= i < |f.records| ==> f.records[i].pos < written.pos < f'.end
    {
      written := entry.(pos := f.end);
      f' := FileImage(f.version, f.records + [written], f.end + encodedSize);
    }

    /** Member `write(entry)`: appends the entry to this database's file. The
        in-memory entries are left as they are. */
    method Write(entry: Entry, encodedSize: nat) returns (written: Entry)
      requires Valid()
      requires encodedSize > 0
      modifies this
      ensures Valid()
      ensures written == entry.(pos := old(file).end)
      ensures file == FileImage(old(file).version, old(file).records + [written], old(file).end + encodedSize)
      ensures entries == old(entries) && version == old(version) && filename == old(filename)
    {
      written, file := WriteTo(entry, file, encodedSize);
    }

    /** Adds an active ban for `player` and writes it to the file at once.
        `now` stands for the clock reading; `encodedSize` for the length of
        the record the codec produces. */
    method Add(player: PlayerInfo, reason: string, length: int, now: int, encodedSize: nat)
      requires Valid()
      requires encodedSize > 0
      modifies this
      ensures Valid()
      ensures |entries| == |old(entries)| + 1 && entries[..|old(entries)|] == old(entries)
      ensures entries[|old(entries)|] == Entry(old(file).end, 1, now, length, player.steamid,
                                               player.ip, player.rdns, player.name, reason, VarData([]))
      ensures IsActive(entries[|old(entries)|])
      ensures IsPermanent(entries[|old(entries)|]) <==> length == 0
      ensures file.records == old(file).records + [entries[|old(entries)|]]
      ensures file.version == old(file).version && file.end == old(file).end + encodedSize
      ensures forall i :: 0 <= i < |old(entries)| ==> entries[i].pos < entries[|old(entries)|].pos
      ensures version == old(version) && filename == old(filename)
    {
      var entry := Entry(0, 1, now, length, player.steamid, player.ip, player.rdns, player.name,
                         reason, VarData([]));
      var written := Write(entry, encodedSize);
      entries := entries + [written];
      slots := slots + [|file.records| - 1];
    }

    /** Deactivates the ban at `index`: true exactly when that entry was
        active, in which case its active byte is cleared in memory and
        rewritten in place at the entry's position in the file. */
    method Deactivate(index: nat) returns (ok: bool)
      requires Valid()
      modifies this
      ensures Valid()
      ensures Deactivation(ok, entries) == Deactivated(old(entries), index)
      ensures file == if ok then RewriteActive(old(file), old(entries)[index].pos, 0) else old(file)
      ensures version == old(version) && filename == old(filename)
    {
      if index < |entries| && entries[index].active == 1 {
        var e := entries[index];
        RewriteActiveAt(file, slots[index], 0);
        file := RewriteActive(file, e.pos, 0);
        entries := entries[index := e.(active := 0)];
        ok := true;
      } else {
        ok := false;
      }
    }

    method GetVersion() returns (v: uint8)
      ensures v == version
    {
      v := version;
    }

    method GetFileName() returns (name: string)
      ensures name == filename
    {
      name := filename;
    }

    method GetEntries() returns (es: seq<Entry>)
      ensures es == entries
    {
      es := entries;
    }
  }

  /** A new database, loaded from a missing file, gets one ban which is then
      deactivated twice: the first call succeeds, the second does not. */
  method ProvisionAddDeactivate(fname: string, player: PlayerInfo, now: int)
  {
    var db := new Database(1);
    var refused := db.Load(fname, Uncreatable);
    assert !refused && db.entries == [];
    var loaded := db.Load(fname, Missing);
    assert loaded && db.entries == [];
    db.Add(player, "cheating", 0, now, 32);
    assert |db.entries| == 1 && IsActive(db.entries[0]) && IsPermanent(db.entries[0]);
    assert db.entries[0].pos == 1;
    var first := db.Deactivate(0);
    assert first && !IsActive(db.entries[0]);
    assert db.file.records[0].active == 0;
    var second := db.Deactivate(0);
    assert !second;
    var outOfRange := db.Deactivate(1);
    assert !outOfRange;
  }
}
