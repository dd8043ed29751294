/** Writing manifests so that a power cut never leaves half of one (internal/storage/manifest.go). */
module Manifest {
  import opened Bytes
  import Writer

  // ---------- What survives a power cut ----------

  /** A file. Unless it was synced, a power cut can leave anything in it. */
  datatype Inode = Inode(contents: seq<byte>, synced: bool)

  /** The directory entries of the manifest and of its temporary file. */
  datatype Directory = Directory(target: Option<nat>, temp: Option<nat>)

  /** The files, the directory as programs see it, and the directories a power cut can leave: those since the
      last sync of the directory. Files are numbered below next. */
  datatype Disk = Disk(inodes: map<nat, Inode>, next: nat, now: Directory, left: set<Directory>)

  ghost predicate Valid(d: Disk) {
    && d.now in d.left
    && (forall i :: i in d.inodes ==> i < d.next)
    && (forall e :: e in d.left && e.target.Some? ==> e.target.value in d.inodes)
    && (d.now.temp.Some? ==> d.now.temp.value in d.inodes)
    // the temporary file is not the manifest, whichever directory is left
    && (d.now.temp.Some? ==> forall e :: e in d.left ==> e.target != d.now.temp)
  }

  /** The manifest as programs read it. */
  function Visible(d: Disk): Option<seq<byte>> {
    if d.now.target.Some? && d.now.target.value in d.inodes then Some(d.inodes[d.now.target.value].contents) else None
  }

  ghost predicate Shows(d: Disk, e: Directory, found: Option<seq<byte>>) {
    if e.target.None? then found.None?
    else
      && e.target.value in d.inodes && found.Some?
      && (d.inodes[e.target.value].synced ==> found.value == d.inodes[e.target.value].contents)
  }

  /** A power cut at this moment can leave that manifest. */
  ghost predicate CanLeave(d: Disk, found: Option<seq<byte>>) {
    exists e :: e in d.left && Shows(d, e, found)
  }

  /** Whatever a power cut leaves now, it could have left before, or it is the whole new contents. */
  ghost predicate OldOrNew(d: Disk, before: Disk, contents: seq<byte>) {
    forall found :: CanLeave(d, found) ==> CanLeave(before, found) || found == Some(contents)
  }

  // ---------- File-system calls ----------

  /** A file system whose calls may fail. past lists every state a power cut can hit. */
  class FileSystem {
    var disk: Disk
    var outcomes: seq<Writer.Outcome>
    ghost var past: seq<Disk>

    constructor (disk: Disk, outcomes: seq<Writer.Outcome>)
      requires Valid(disk)
      ensures this.disk == disk && this.outcomes == outcomes && past == []
    {
      this.disk, this.outcomes := disk, outcomes;
      past := [];
    }

    /** Nothing fails from here on. */
    ghost predicate Works()
      reads this
    {
      forall o <- outcomes :: o.Works?
    }

    method NextOutcome() returns (o: Writer.Outcome)
      modifies this`outcomes
      ensures old(Works()) ==> o.Works? && Works()
    {
      o := if outcomes == [] then Writer.Works else outcomes[0];
      outcomes := if outcomes == [] then [] else outcomes[1..];
    }

    method Become(d: Disk)
      modifies this`disk, this`past
      ensures disk == d && past == old(past) + [d]
    {
      disk := d;
      past := past + [d];
    }

    /** Opens the temporary file, new or truncated. */
    method OpenTemp() returns (ok: bool)
      requires Valid(disk)
      modifies this
      ensures old(Works()) ==> ok && Works()
      ensures !ok ==> disk == old(disk) && past == old(past)
      ensures ok ==> past == old(past) + [disk] && disk == Truncated(old(disk))
    {
      var o := NextOutcome();
      ok := o.Works?;
      if ok {
        Become(Truncated(disk));
      }
    }

    /** Writes to the temporary file, perhaps only a part. */
    method WriteTemp(b: seq<byte>) returns (n: nat, ok: bool)
      requires Valid(disk) && disk.now.temp.Some?
      modifies this
      ensures n <= |b| && (ok ==> n == |b|) && (old(Works()) ==> ok && Works())
      ensures past == old(past) + [disk] && disk == WithTemp(old(disk), b[..n], false)
    {
      var o := NextOutcome();
      ok := o.Works?;
      n := if ok || o.written > |b| then |b| else o.written;
      Become(WithTemp(disk, b[..n], false));
    }

    method SyncTemp() returns (ok: bool)
      requires Valid(disk) && disk.now.temp.Some?
      modifies this
      ensures old(Works()) ==> ok && Works()
      ensures !ok ==> disk == old(disk) && past == old(past)
      ensures ok ==> past == old(past) + [disk] && disk == WithTemp(old(disk), TempContents(old(disk)), true)
    {
      var o := NextOutcome();
      ok := o.Works?;
      if ok {
        Become(WithTemp(disk, TempContents(disk), true));
      }
    }

    method CloseTemp() returns (ok: bool)
      modifies this`outcomes
      ensures old(Works()) ==> ok && Works()
    {
      var o := NextOutcome();
      ok := o.Works?;
    }

    method RemoveTemp() returns (ok: bool)
      modifies this
      ensures old(Works()) ==> ok && Works()
      ensures !ok ==> disk == old(disk) && past == old(past)
      ensures ok ==> past == old(past) + [disk] && disk == WithDirectory(old(disk), old(disk).now.(temp := None))
    {
      var o := NextOutcome();
      ok := o.Works?;
      if ok {
        Become(WithDirectory(disk, disk.now.(temp := None)));
      }
    }

    /** Renames the temporary file to the manifest. */
    method Rename() returns (ok: bool)
      modifies this
      ensures old(Works()) ==> ok && Works()
      ensures !ok ==> disk == old(disk) && past == old(past)
      ensures ok ==> past == old(past) + [disk] && disk == WithDirectory(old(disk), Directory(old(disk).now.temp, None))
    {
      var o := NextOutcome();
      ok := o.Works?;
      if ok {
        Become(WithDirectory(disk, Directory(disk.now.temp, None)));
      }
    }

    method SyncDirectory() returns (ok: bool)
      modifies this
      ensures old(Works()) ==> ok && Works()
      ensures !ok ==> disk == old(disk) && past == old(past)
      ensures ok ==> past == old(past) + [disk] && disk == old(disk).(left := {old(disk).now})
    {
      var o := NextOutcome();
      ok := o.Works?;
      if ok {
        Become(disk.(left := {disk.now}));
      }
    }
  }

  function WithDirectory(d: Disk, e: Directory): Disk {
    d.(now := e, left := d.left + {e})
  }

  function Truncated(d: Disk): Disk
  {
    if d.now.temp.Some? then d.(inodes := d.inodes[d.now.temp.value := Inode([], false)])
    else
      WithDirectory(d.(inodes := d.inodes[d.next := Inode([], false)], next := d.next + 1), d.now.(temp := Some(d.next)))
  }

  function WithTemp(d: Disk, contents: seq<byte>, synced: bool): Disk
    requires d.now.temp.Some?
  {
    d.(inodes := d.inodes[d.now.temp.value := Inode(contents, synced)])
  }

  function TempContents(d: Disk): seq<byte>
    requires Valid(d) && d.now.temp.Some?
  {
    d.inodes[d.now.temp.value].contents
  }

  // ---------- Each call is safe ----------

  /** Programs and power cuts still find what they would have found. */
  ghost predicate SameManifest(d: Disk, before: Disk) {
    Valid(d) && Visible(d) == Visible(before) && forall found :: CanLeave(d, found) ==> CanLeave(before, found)
  }

  /** No directory that can be left has the file as manifest. */
  lemma OtherFile(d: Disk, i: nat, n: Inode, next: nat)
    requires Valid(d) && d.next <= next && i < next && (i in d.inodes || i >= d.next)
    requires forall e :: e in d.left ==> e.target != Some(i)
    requires d.now.temp == Some(i) || i !in d.inodes
    ensures SameManifest(d.(inodes := d.inodes[i := n], next := next), d)
  {
    var d1 := d.(inodes := d.inodes[i := n], next := next);
    forall found | CanLeave(d1, found)
      ensures CanLeave(d, found)
    {
      var e :| e in d1.left && Shows(d1, e, found);
      assert Shows(d, e, found);
    }
  }

  lemma SameTarget(d: Disk, temp: Option<nat>)
    requires Valid(d) && (temp.Some? ==> temp.value in d.inodes && forall e :: e in d.left ==> e.target != temp)
    ensures SameManifest(WithDirectory(d, d.now.(temp := temp)), d)
  {
    var d1 := WithDirectory(d, d.now.(temp := temp));
    forall found | CanLeave(d1, found)
      ensures CanLeave(d, found)
    {
      var e :| e in d1.left && Shows(d1, e, found);
      var e0 := if e in d.left then e else d.now;
      assert e0 in d.left && Shows(d, e0, found);
    }
  }

  lemma SameTrans(a: Disk, b: Disk, c: Disk)
    requires SameManifest(b, a) && SameManifest(c, b)
    ensures SameManifest(c, a)
  {
  }

  lemma TruncatedIsSame(d: Disk)
    requires Valid(d)
    ensures SameManifest(Truncated(d), d) && Truncated(d).now.temp.Some?
  {
    if d.now.temp.Some? {
      OtherFile(d, d.now.temp.value, Inode([], false), d.next);
    } else {
      var d1 := d.(inodes := d.inodes[d.next := Inode([], false)], next := d.next + 1);
      OtherFile(d, d.next, Inode([], false), d.next + 1);
      SameTarget(d1, Some(d.next));
      SameTrans(d, d1, Truncated(d));
    }
  }

  lemma WithTempIsSame(d: Disk, contents: seq<byte>, synced: bool)
    requires Valid(d) && d.now.temp.Some?
    ensures SameManifest(WithTemp(d, contents, synced), d)
  {
    OtherFile(d, d.now.temp.value, Inode(contents, synced), d.next);
  }

  /** After the rename of a synced file a power cut leaves what it could have left before, or the file. Until the
      directory is synced, either can happen. */
  lemma RenamedIsOldOrNew(d: Disk)
    requires Valid(d) && d.now.temp.Some? && d.inodes[d.now.temp.value].synced
    ensures var d1 := WithDirectory(d, Directory(d.now.temp, None));
            Valid(d1) && Visible(d1) == Some(TempContents(d)) && OldOrNew(d1, d, TempContents(d))
            && forall found :: CanLeave(d1, found) <==> CanLeave(d, found) || found == Some(TempContents(d))
  {
    var d1 := WithDirectory(d, Directory(d.now.temp, None));
    forall found
      ensures CanLeave(d1, found) <==> CanLeave(d, found) || found == Some(TempContents(d))
    {
      if CanLeave(d1, found) {
        var e :| e in d1.left && Shows(d1, e, found);
        assert e in d.left ==> Shows(d, e, found);
      }
      if CanLeave(d, found) {
        var e :| e in d.left && Shows(d, e, found);
        assert Shows(d1, e, found);
      }
      if found == Some(TempContents(d)) {
        assert Shows(d1, d1.now, found);
      }
    }
  }

  /** Without the sync of the temporary file, the rename could leave anything at all. */
  lemma UnsyncedRenameLeavesAnything(d: Disk, contents: seq<byte>)
    requires Valid(d) && d.now.temp.Some? && !d.inodes[d.now.temp.value].synced
    ensures CanLeave(WithDirectory(d, Directory(d.now.temp, None)), Some(contents))
  {
    var d1 := WithDirectory(d, Directory(d.now.temp, None));
    assert d1.now in d1.left && Shows(d1, d1.now, Some(contents));
  }

  lemma SyncedIsNew(d: Disk)
    requires Valid(d) && d.now.target.Some? && d.inodes[d.now.target.value].synced
    ensures var d1 := d.(left := {d.now});
            Valid(d1) && Visible(d1) == Visible(d) && forall found :: CanLeave(d1, found) <==> found == Visible(d)
  {
    var d1 := d.(left := {d.now});
    forall found
      ensures CanLeave(d1, found) <==> found == Visible(d)
    {
      if found == Visible(d) {
        assert Shows(d1, d.now, found);
      }
    }
  }

  // ---------- The atomic write ----------

  /** Every state since then is safe to be hit by a power cut. */
  ghost predicate SafeSince(past: seq<Disk>, from: nat, before: Disk, contents: seq<byte>) {
    from <= |past| && forall i :: from <= i < |past| ==> OldOrNew(past[i], before, contents)
  }

  /** Replaces the manifest. At every moment, and whichever step fails, a power cut leaves the whole old or the
      whole new contents; programs see the new contents exactly after success. */
  method AtomicJsonWrite(fs: FileSystem, b: seq<byte>) returns (ok: bool, ghost durable: bool)
    requires Valid(fs.disk)
    modifies fs
    ensures Valid(fs.disk) && old(fs.past) <= fs.past
    ensures Visible(fs.disk) == if ok then Some(b) else Visible(old(fs.disk))
    ensures SafeSince(fs.past, |old(fs.past)|, old(fs.disk), b) && OldOrNew(fs.disk, old(fs.disk), b)
    ensures durable ==> ok && forall found :: CanLeave(fs.disk, found) <==> found == Some(b)
    ensures old(fs.Works()) ==> ok && durable && fs.Works()
  {
    hide CanLeave, Valid, Visible;
    ghost var before, from := fs.disk, |fs.past|;
    durable := false;
    ok := fs.OpenTemp();
    if !ok {
      return;
    }
    TruncatedIsSame(before);
    var n;
    n, ok := fs.WriteTemp(b);
    WithTempIsSame(Truncated(before), b[..n], false);
    SameTrans(before, Truncated(before), fs.disk);
    if !ok {
      Discard(fs, before, from, b);
      return;
    }
    WholePrefix(b);
    ok := fs.SyncTemp();
    if !ok {
      Discard(fs, before, from, b);
      return;
    }
    WithTempIsSame(WithTemp(Truncated(before), b, false), b, true);
    SameTrans(before, WithTemp(Truncated(before), b, false), fs.disk);
    ok := fs.CloseTemp();
    if !ok {
      Discard(fs, before, from, b);
      return;
    }
    ghost var written := fs.disk;
    ok := fs.Rename();
    if !ok {
      Discard(fs, before, from, b);
      return;
    }
    RenamedIsOldOrNew(written);
    durable := SyncParent(fs, before, from, b);
  }

  /** Closes and removes the temporary file after a failed step. */
  method Discard(fs: FileSystem, ghost before: Disk, ghost from: nat, ghost b: seq<byte>)
    requires SameManifest(fs.disk, before) && SafeSince(fs.past, from, before, b)
    modifies fs
    ensures SameManifest(fs.disk, before) && SafeSince(fs.past, from, before, b) && old(fs.past) <= fs.past
  {
    var _ := fs.CloseTemp();
    SameTarget(fs.disk, None);
    SameTrans(before, fs.disk, WithDirectory(fs.disk, fs.disk.now.(temp := None)));
    var _ := fs.RemoveTemp();
  }

  /** Syncs the directory, if that works. */
  method SyncParent(fs: FileSystem, ghost before: Disk, ghost from: nat, ghost b: seq<byte>) returns (ghost durable: bool)
    requires Valid(fs.disk) && fs.disk.now.target.Some? && fs.disk.inodes[fs.disk.now.target.value] == Inode(b, true)
    requires SafeSince(fs.past, from, before, b) && OldOrNew(fs.disk, before, b)
    modifies fs
    ensures Valid(fs.disk) && Visible(fs.disk) == Some(b) && old(fs.past) <= fs.past
    ensures SafeSince(fs.past, from, before, b) && OldOrNew(fs.disk, before, b)
    ensures durable ==> forall found :: CanLeave(fs.disk, found) <==> found == Some(b)
    ensures old(fs.Works()) ==> durable && fs.Works()
  {
    SyncedIsNew(fs.disk);
    var ok := fs.SyncDirectory();
    durable := ok;
  }

  // ---------- Erase updates ----------

  datatype FlightController = FlightController(variant: string, uid: string, apiVersion: string, blackboxDevice: int)

  datatype CopiedFile = CopiedFile(name: string, sha256: string, bytes: int)

  /** An empty timing map is the same as none. */
  datatype Record = Record(version: int, createdUtc: string, fc: FlightController, file: CopiedFile,
                           eraseAttempted: bool, eraseCompleted: bool, timing: map<string, real>)

  /** Marshalling, which may fail, and unmarshalling. */
  type Print = Record -> Option<seq<byte>>
  type Parse = seq<byte> -> Option<Record>

  ghost predicate Inverts(parse: Parse, print_: Print) {
    forall m: Record :: print_(m).Some? ==> parse(print_(m).value) == Some(m)
  }

  /** The record in the manifest, as far as there is one. */
  function Loaded(parse: Parse, contents: Option<seq<byte>>): Option<Record> {
    if contents.None? then None else parse(contents.value)
  }

  function WithErase(m: Record, eraseCompleted: bool, timing: Option<map<string, real>>): Record {
    m.(eraseAttempted := true, eraseCompleted := eraseCompleted, timing := if timing.Some? then timing.value else m.timing)
  }

  /** Marks the erase in the manifest. Success keeps every other field; failure, or a power cut at any moment,
      leaves the whole old manifest or the whole new one. */
  method UpdateManifestErase(fs: FileSystem, parse: Parse, print_: Print, eraseCompleted: bool,
                             timing: Option<map<string, real>>)
    returns (ok: bool)
    requires Valid(fs.disk) && Inverts(parse, print_)
    modifies fs
    ensures Valid(fs.disk) && old(fs.past) <= fs.past
    ensures var m := Loaded(parse, Visible(old(fs.disk))); var m1 := Loaded(parse, Visible(fs.disk));
            if !ok then m1 == m
            else
              && m.Some? && m1.Some? && m1.value.eraseAttempted && m1.value.eraseCompleted == eraseCompleted
              && m1.value.timing == (if timing.Some? then timing.value else m.value.timing)
              && m1.value.version == m.value.version && m1.value.createdUtc == m.value.createdUtc
              && m1.value.fc == m.value.fc && m1.value.file == m.value.file
    ensures var m := Loaded(parse, Visible(old(fs.disk)));
            old(fs.Works()) && m.Some? && print_(WithErase(m.value, eraseCompleted, timing)).Some? ==> ok
    ensures forall i, found :: |old(fs.past)| <= i < |fs.past| && CanLeave(fs.past[i], found) ==>
      CanLeave(old(fs.disk), found)
      || (Loaded(parse, Visible(old(fs.disk))).Some?
          && Loaded(parse, found) == Some(WithErase(Loaded(parse, Visible(old(fs.disk))).value, eraseCompleted, timing)))
  {
    var o := fs.NextOutcome();
    var data := if o.Works? then Visible(fs.disk) else None;
    var m := Loaded(parse, data);
    if m.None? {
      return false;
    }
    var record := m.value.(eraseAttempted := true, eraseCompleted := eraseCompleted);
    if timing.Some? {
      record := record.(timing := timing.value);
    }
    var b := print_(record);
    if b.None? {
      return false;
    }
    ghost var durable;
    ok, durable := AtomicJsonWrite(fs, b.value);
  }
}
