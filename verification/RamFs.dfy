/** The RAM filesystem (`fs/ramfs.c`) from its initialised state on: 64 slots over one data area. */
module RamFs {
  import opened Bits
  import opened Common
  import opened CStrings

  const MAX_FILES := 64
  const MAX_FILE_SIZE := 4096
  const NAME_LIMIT := 255
  const DATA_SIZE := 0x4_0000
  const DEFAULT_MODE := 0x1A4  // 0644

  // ----- The filesystem as a value: files in the order of their creation

  datatype Entry = Entry(name: CString, content: seq<Byte>)

  type Files = seq<Entry>

  function Zeros(n: nat): (r: seq<Byte>)
    ensures |r| == n && forall k :: 0 <= k < n ==> r[k] == 0
  {
    seq(n, _ => 0)
  }

  function IndexOf(fs: Files, name: CString): (r: int)
    ensures -1 <= r < |fs|
    ensures r == -1 <==> forall i :: 0 <= i < |fs| ==> fs[i].name != name
    ensures r != -1 ==> fs[r].name == name && forall i :: 0 <= i < r ==> fs[i].name != name
  {
    First(fs, (e: Entry) => e.name == name)
  }

  predicate Creatable(fs: Files, name: CString, size: nat) {
    size <= MAX_FILE_SIZE && IndexOf(fs, name) == -1 && |fs| < MAX_FILES
  }

  /** A new file's content; without data it is whatever the fresh block holds, all zeros. */
  function Create(fs: Files, name: CString, content: seq<Byte>): Files {
    if Creatable(fs, name, |content|) then fs + [Entry(Truncate(name, NAME_LIMIT), content)] else fs
  }

  function Open(fs: Files, path: CString, create: bool): Files {
    if IndexOf(fs, path) == -1 && create then Create(fs, path, []) else fs
  }

  /** The inode `ramfs_open` answers, or -1. */
  function OpenAnswer(fs: Files, path: CString, create: bool): int {
    var i := IndexOf(Open(fs, path, create), path);
    if i == -1 then -1 else i + 1
  }

  predicate ValidInode(fs: Files, inode: Word) {
    1 <= inode <= |fs|
  }

  /** The bytes a read delivers: those of the range that lie inside the file. */
  function ReadBytes(content: seq<Byte>, offset: nat, count: nat): seq<Byte> {
    if offset >= |content| then [] else content[offset..Min(offset + count, |content|)]
  }

  /** The bytes a copy moves when it is cut to end at `limit`: the sum that decides is taken in 32 bits. */
  function Clamped(count: Word, offset: Word, limit: nat): nat
    requires offset < limit
  {
    if Wrap(offset + count) > limit then limit - offset else count
  }

  /** The cut works exactly when the end of the range does not wrap; then the copy moves what lies
      before the limit, and otherwise it runs past the end of the whole data area. */
  lemma ClampedExactly(count: Word, offset: Word, limit: nat, i: nat)
    requires offset < limit <= MAX_FILE_SIZE && i < MAX_FILES
    ensures offset + Clamped(count, offset, limit) <= limit <==> offset + count < TWO_TO_32
    ensures offset + count < TWO_TO_32 ==> Clamped(count, offset, limit) == Min(count, limit - offset)
    ensures offset + count >= TWO_TO_32 ==> i * MAX_FILE_SIZE + offset + Clamped(count, offset, limit) > DATA_SIZE
  {
    assert i * MAX_FILE_SIZE >= 0;
  }

  /** A read or write of 0xFFFFFFFF bytes at offset 1 is not cut at all. */
  lemma NotClamped(limit: nat)
    requires 1 < limit
    ensures Clamped(0xFFFF_FFFF, 1, limit) == 0xFFFF_FFFF
  {
  }

  /** A read or write at an offset below `limit` stays in its block, and the caller's buffer of `room`
      bytes suffices for what it moves. */
  predicate CopyFits(count: Word, offset: Word, limit: nat, room: nat) {
    offset < limit ==> offset + count < TWO_TO_32 && Min(count, limit - offset) <= room
  }

  /** `bytes` over the content at `offset`; a gap before them reads as zeros. */
  function WriteAt(content: seq<Byte>, offset: nat, bytes: seq<Byte>): seq<Byte> {
    (if offset <= |content| then content[..offset] else content + Zeros(offset - |content|))
    + bytes
    + (if offset + |bytes| <= |content| then content[offset + |bytes|..] else [])
  }

  /** The part of a write that fits the file's block. */
  function Fitting(bytes: seq<Byte>, offset: nat): seq<Byte>
    requires offset < MAX_FILE_SIZE
  {
    bytes[..Min(|bytes|, MAX_FILE_SIZE - offset)]
  }

  function Write(fs: Files, inode: Word, bytes: seq<Byte>, offset: nat): Files {
    if ValidInode(fs, inode) && offset < MAX_FILE_SIZE then
      var e := fs[inode - 1];
      fs[inode - 1 := e.(content := WriteAt(e.content, offset, Fitting(bytes, offset)))]
    else fs
  }

  // ----- The data area

  /** The 4096 bytes of slot `i`. */
  function Block(data: seq<Byte>, i: nat): seq<Byte>
    requires |data| == DATA_SIZE && i < MAX_FILES
  {
    data[i * MAX_FILE_SIZE..(i + 1) * MAX_FILE_SIZE]
  }

  /** `bytes` copied into the area at `pos`. */
  function Patch(data: seq<Byte>, pos: nat, bytes: seq<Byte>): seq<Byte>
    requires pos + |bytes| <= |data|
  {
    data[..pos] + bytes + data[pos + |bytes|..]
  }

  /** A copy that stays inside slot `i` changes that block and no other. */
  lemma PatchBlock(data: seq<Byte>, i: nat, offset: nat, bytes: seq<Byte>, j: nat)
    requires |data| == DATA_SIZE && i < MAX_FILES && j < MAX_FILES && offset + |bytes| <= MAX_FILE_SIZE
    ensures var after := Patch(data, i * MAX_FILE_SIZE + offset, bytes);
      Block(after, j) == if j == i then Patch(Block(data, i), offset, bytes) else Block(data, j)
  {
    var after := Patch(data, i * MAX_FILE_SIZE + offset, bytes);
    if j == i {
      var a, b := Block(after, i), Patch(Block(data, i), offset, bytes);
      forall k | 0 <= k < MAX_FILE_SIZE ensures a[k] == b[k] {
        assert a[k] == after[i * MAX_FILE_SIZE + k];
      }
    } else {
      var a, b := Block(after, j), Block(data, j);
      forall k | 0 <= k < MAX_FILE_SIZE ensures a[k] == b[k] {
        assert a[k] == after[j * MAX_FILE_SIZE + k];
      }
    }
  }

  /** The content a slot shows after a copy into its block and the size update. */
  lemma PatchedContent(block: seq<Byte>, size: nat, offset: nat, bytes: seq<Byte>)
    requires |block| == MAX_FILE_SIZE && size <= MAX_FILE_SIZE && offset + |bytes| <= MAX_FILE_SIZE
    requires ZeroFrom(block, size)
    ensures var size' := if offset + |bytes| > size then offset + |bytes| else size;
      && Patch(block, offset, bytes)[..size'] == WriteAt(block[..size], offset, bytes)
      && ZeroFrom(Patch(block, offset, bytes), size')
  {
  }

  ghost predicate ZeroFrom(block: seq<Byte>, size: nat) {
    forall k :: size <= k < |block| ==> block[k] == 0
  }

  // ----- The slots

  datatype Slot = Slot(name: CString, size: nat, data: nat, inUse: bool, mode: nat)

  const FREE := Slot("", 0, 0, false, DEFAULT_MODE)

  datatype Stat = Stat(inode: nat, size: nat, mode: nat, kind: nat)

  const TYPE_FILE := 1

  class RamDisk {
    const files: array<Slot>
    const fileData: array<Byte>
    ghost var used: nat

    ghost predicate Valid()
      reads this, files, fileData
    {
      && files.Length == MAX_FILES && fileData.Length == DATA_SIZE && used <= MAX_FILES
      && AreaValid(files[..], fileData[..], used)
    }

    ghost function View(): (fs: Files)
      reads this, files, fileData
      requires Valid()
    {
      Entries(files[..], fileData[..], used)
    }

    /** The state after the initialising loop of `ramfs_init`; the heap it draws from is zeroed. */
    constructor ()
      ensures Valid() && fresh(files) && fresh(fileData) && View() == []
    {
      files := new Slot[MAX_FILES](_ => FREE);
      fileData := new Byte[DATA_SIZE](_ => 0);
      used := 0;
    }

    method FindFile(name: CString) returns (i: int)
      requires Valid()
      ensures i == IndexOf(View(), name)
    {
      ghost var fs := View();
      for k := 0 to MAX_FILES
        invariant forall j :: 0 <= j < k && j < used ==> fs[j].name != name
      {
        assert k < used ==> fs[k].name == files[k].name;
        if files[k].inUse && files[k].name == name {
          return k;
        }
      }
      return -1;
    }

    method FindFreeSlot() returns (i: int)
      requires Valid()
      ensures i == if used == MAX_FILES then -1 else used
    {
      for k := 0 to MAX_FILES
        invariant k <= used
      {
        if !files[k].inUse {
          return k;
        }
      }
      return -1;
    }

    method CopyIn(pos: nat, source: array<Byte>, count: nat)
      requires source != fileData && count <= source.Length && pos + count <= fileData.Length
      modifies fileData
      ensures fileData[..] == Patch(old(fileData[..]), pos, source[..count])
    {
      for n := 0 to count
        invariant forall k :: 0 <= k < fileData.Length ==>
          fileData[k] == if pos <= k < pos + n then source[k - pos] else old(fileData[k])
      {
        fileData[pos + n] := source[n];
      }
    }

    method CopyOut(pos: nat, dest: array<Byte>, count: nat)
      requires dest != fileData && count <= dest.Length && pos + count <= fileData.Length
      modifies dest
      ensures dest[..count] == fileData[pos..pos + count] && dest[count..] == old(dest[count..])
    {
      for n := 0 to count
        invariant fileData[..] == old(fileData[..])
        invariant forall k :: 0 <= k < n ==> dest[k] == fileData[pos + k]
        invariant dest[n..] == old(dest[n..])
      {
        dest[n] := fileData[pos + n];
      }
    }

    /** `data` is null when the caller passes no bytes. */
    method CreateFile(name: CString, data: array?<Byte>, size: Word) returns (r: int)
      requires Valid() && (data != null ==> data != fileData && size <= data.Length)
      modifies this, files, fileData
      ensures Valid()
      ensures View() == Create(old(View()), name, if data == null then Zeros(size) else old(data[..size]))
      ensures r == if Creatable(old(View()), name, size) then 0 else -1
    {
      if size > MAX_FILE_SIZE {
        return -1;
      }
      var found := FindFile(name);
      if found != -1 {
        return -1;
      }
      var index := FindFreeSlot();
      if index == -1 {
        return -1;
      }
      ghost var slots, area := files[..], fileData[..];
      var dataOffset := index * MAX_FILE_SIZE;
      files[index] := Slot(Truncate(name, NAME_LIMIT), size, dataOffset, true, DEFAULT_MODE);
      ghost var bytes := [];
      if data != null && size > 0 {
        bytes := data[..size];
        CopyIn(dataOffset, data, size);
      } else {
        PatchNothing(area, dataOffset);
      }
      assert fileData[..] == Patch(area, dataOffset, bytes);
      assert files[..] == slots[index := files[index]];
      CreatedArea(slots, area, index, Truncate(name, NAME_LIMIT), size, bytes);
      ZerosAfter(bytes, size);
      used := used + 1;
      return 0;
    }

    method OpenFile(path: CString, create: bool) returns (r: int)
      requires Valid()
      modifies this, files, fileData
      ensures Valid() && View() == Open(old(View()), path, create)
      ensures r == OpenAnswer(old(View()), path, create)
    {
      var file := FindFile(path);
      if file == -1 {
        if create {
          var c := CreateFile(path, null, 0);
          if c == 0 {
            file := FindFile(path);
          }
        }
        if file == -1 {
          return -1;
        }
      }
      return file + 1;
    }

    method ReadFile(inode: Word, buffer: array?<Byte>, count: Word, offset: Word) returns (r: int)
      requires Valid() && (buffer != null ==> buffer != fileData)
      requires buffer != null && ValidInode(View(), inode) ==>
        CopyFits(count, offset, |View()[inode - 1].content|, buffer.Length)
      modifies buffer
      ensures Valid() && View() == old(View())
      ensures buffer == null || !ValidInode(View(), inode) ==> r == -1
      ensures buffer != null && ValidInode(View(), inode) ==>
        var bytes := ReadBytes(View()[inode - 1].content, offset, count);
        r == |bytes| <= buffer.Length && buffer[..r] == bytes && buffer[r..] == old(buffer[r..])
      ensures buffer != null && r <= 0 ==> buffer[..] == old(buffer[..])
    {
      if buffer == null || inode == 0 || inode > MAX_FILES {
        return -1;
      }
      var file := files[inode - 1];
      if !file.inUse {
        return -1;
      }
      r := Load(inode - 1, buffer, count, offset);
    }

    /** The copy of a read from a file in use. */
    method Load(i: nat, buffer: array<Byte>, count: Word, offset: Word) returns (r: nat)
      requires Valid() && i < used && buffer != fileData
      requires CopyFits(count, offset, |View()[i].content|, buffer.Length)
      modifies buffer
      ensures Valid() && View() == old(View())
      ensures var bytes := ReadBytes(View()[i].content, offset, count);
        r == |bytes| <= buffer.Length && buffer[..r] == bytes && buffer[r..] == old(buffer[r..])
    {
      var file := files[i];
      ghost var content := View()[i].content;
      if offset >= file.size {
        return 0;
      }
      ClampedExactly(count, offset, file.size, i);
      var bytesToRead := count;
      if Wrap(offset + bytesToRead) > file.size {
        bytesToRead := file.size - offset;
      }
      BlockSlice(fileData[..], i, file.size, offset, offset + bytesToRead);
      assert ReadBytes(content, offset, count) == fileData[file.data + offset..file.data + offset + bytesToRead];
      CopyOut(file.data + offset, buffer, bytesToRead);
      return bytesToRead;
    }

    method WriteFile(inode: Word, buffer: array?<Byte>, count: Word, offset: Word) returns (r: int)
      requires Valid() && (buffer != null ==> buffer != fileData)
      requires buffer != null && ValidInode(View(), inode) ==> CopyFits(count, offset, MAX_FILE_SIZE, buffer.Length)
      modifies this, files, fileData
      ensures Valid()
      ensures buffer == null ==> r == -1 && View() == old(View())
      ensures buffer != null ==> View() == Write(old(View()), inode, old(buffer[..Min(count, buffer.Length)]), offset)
      ensures buffer != null ==>
        r == if ValidInode(old(View()), inode) && offset < MAX_FILE_SIZE then Min(count, MAX_FILE_SIZE - offset) else -1
    {
      if buffer == null || inode == 0 || inode > MAX_FILES {
        return -1;
      }
      var file := files[inode - 1];
      if !file.inUse {
        return -1;
      }
      if offset >= MAX_FILE_SIZE {
        return -1;
      }
      ClampedExactly(count, offset, MAX_FILE_SIZE, inode - 1);
      var bytesToWrite := count;
      if Wrap(offset + bytesToWrite) > MAX_FILE_SIZE {
        bytesToWrite := MAX_FILE_SIZE - offset;
      }
      assert buffer[..bytesToWrite] == Fitting(buffer[..Min(count, buffer.Length)], offset);
      Store(inode - 1, buffer, bytesToWrite, offset);
      return bytesToWrite;
    }

    /** The copy and the size update of a write that fits. */
    method Store(i: nat, buffer: array<Byte>, count: nat, offset: nat)
      requires Valid() && i < used && buffer != fileData && count <= buffer.Length && offset + count <= MAX_FILE_SIZE
      modifies files, fileData
      ensures Valid()
      ensures var e := old(View())[i];
        View() == old(View())[i := e.(content := WriteAt(e.content, offset, old(buffer[..count])))]
    {
      ghost var slots, area, bytes := files[..], fileData[..], buffer[..count];
      var file := files[i];
      CopyIn(file.data + offset, buffer, count);
      if offset + count > file.size {
        files[i] := file.(size := offset + count);
      }
      WrittenArea(slots, area, used, i, offset, bytes);
      assert files[..] == slots[i := files[i]];
      assert fileData[..] == Patch(area, i * MAX_FILE_SIZE + offset, bytes);
    }

    method GetStat(path: CString) returns (r: int, stat: Stat)
      requires Valid()
      ensures var i := IndexOf(View(), path);
        if i == -1 then r == -1
        else r == 0 && stat == Stat(i + 1, |View()[i].content|, DEFAULT_MODE, TYPE_FILE)
    {
      stat := Stat(0, 0, 0, 0);
      var i := FindFile(path);
      if i == -1 {
        return -1, stat;
      }
      return 0, Stat(i + 1, files[i].size, files[i].mode, TYPE_FILE);
    }
  }

  lemma PatchNothing(data: seq<Byte>, pos: nat)
    requires pos <= |data|
    ensures Patch(data, pos, []) == data
  {
  }

  lemma PatchBlocks(data: seq<Byte>, i: nat, offset: nat, bytes: seq<Byte>)
    requires |data| == DATA_SIZE && i < MAX_FILES && offset + |bytes| <= MAX_FILE_SIZE
    ensures var after := Patch(data, i * MAX_FILE_SIZE + offset, bytes);
      && Block(after, i) == Patch(Block(data, i), offset, bytes)
      && forall j :: 0 <= j < MAX_FILES && j != i ==> Block(after, j) == Block(data, j)
  {
    forall j | 0 <= j < MAX_FILES
      ensures var after := Patch(data, i * MAX_FILE_SIZE + offset, bytes);
        Block(after, j) == if j == i then Patch(Block(data, i), offset, bytes) else Block(data, j)
    {
      PatchBlock(data, i, offset, bytes, j);
    }
  }

  lemma ZerosAfter(bytes: seq<Byte>, size: nat)
    requires bytes == [] || |bytes| == size
    ensures |bytes| <= size && bytes + Zeros(size - |bytes|) == if |bytes| == size then bytes else Zeros(size)
  {
  }

  lemma BlockSlice(data: seq<Byte>, i: nat, size: nat, a: nat, b: nat)
    requires |data| == DATA_SIZE && i < MAX_FILES && a <= b <= size <= MAX_FILE_SIZE
    ensures Block(data, i)[..size][a..b] == data[i * MAX_FILE_SIZE + a..i * MAX_FILE_SIZE + b]
  {
    var x, y := Block(data, i)[..size][a..b], data[i * MAX_FILE_SIZE + a..i * MAX_FILE_SIZE + b];
    assert |x| == |y| && forall k :: 0 <= k < b - a ==> x[k] == Block(data, i)[a + k] == y[k];
  }

  /** The used slots are the first ones, each with its own block, and no byte beyond a file is set. */
  ghost predicate AreaValid(files: seq<Slot>, data: seq<Byte>, used: nat) {
    && |files| == MAX_FILES && |data| == DATA_SIZE && used <= MAX_FILES
    && (forall i :: 0 <= i < used ==> SlotValid(files[i], i, Block(data, i)))
    && (forall i :: used <= i < MAX_FILES ==> !files[i].inUse && ZeroFrom(Block(data, i), 0))
  }

  /** A new file shows its bytes, or zeros where it was given none; the others are as before. */
  lemma CreatedArea(files: seq<Slot>, data: seq<Byte>, used: nat, name: CString, size: nat, bytes: seq<Byte>)
    requires AreaValid(files, data, used) && used < MAX_FILES && |bytes| <= size <= MAX_FILE_SIZE
    ensures var files' := files[used := Slot(name, size, used * MAX_FILE_SIZE, true, DEFAULT_MODE)];
      var data' := Patch(data, used * MAX_FILE_SIZE, bytes);
      && AreaValid(files', data', used + 1)
      && Entries(files', data', used + 1) == Entries(files, data, used) + [Entry(name, bytes + Zeros(size - |bytes|))]
  {
    PatchBlocks(data, used, 0, bytes);
    var block := Block(data, used);
    FreshContent(block, bytes, size);
    var files' := files[used := Slot(name, size, used * MAX_FILE_SIZE, true, DEFAULT_MODE)];
    var data' := Patch(data, used * MAX_FILE_SIZE, bytes);
    assert Block(data', used) == Patch(block, 0, bytes);
    assert AreaValid(files', data', used + 1);
    var fs, fs' := Entries(files, data, used), Entries(files', data', used + 1);
    assert forall i :: 0 <= i < used ==> fs'[i] == fs[i];
    assert fs'[used] == Entry(name, bytes + Zeros(size - |bytes|));
    assert fs' == fs + [fs'[used]];
  }

  lemma FreshContent(block: seq<Byte>, bytes: seq<Byte>, size: nat)
    requires |block| == MAX_FILE_SIZE && ZeroFrom(block, 0) && |bytes| <= size <= MAX_FILE_SIZE
    ensures Patch(block, 0, bytes)[..size] == bytes + Zeros(size - |bytes|) && ZeroFrom(Patch(block, 0, bytes), size)
  {
    var p, q := Patch(block, 0, bytes)[..size], bytes + Zeros(size - |bytes|);
    forall k | 0 <= k < size ensures p[k] == q[k] {
      assert Patch(block, 0, bytes)[k] == if k < |bytes| then bytes[k] else block[k];
    }
  }

  /** A write changes the content of its own file and of no other. */
  lemma WrittenArea(files: seq<Slot>, data: seq<Byte>, used: nat, i: nat, offset: nat, bytes: seq<Byte>)
    requires AreaValid(files, data, used) && i < used && offset + |bytes| <= MAX_FILE_SIZE
    ensures var s := files[i];
      var files' := files[i := if offset + |bytes| > s.size then s.(size := offset + |bytes|) else s];
      var data' := Patch(data, i * MAX_FILE_SIZE + offset, bytes);
      var e := Entries(files, data, used)[i];
      && AreaValid(files', data', used)
      && Entries(files', data', used) == Entries(files, data, used)[i := e.(content := WriteAt(e.content, offset, bytes))]
  {
    PatchBlocks(data, i, offset, bytes);
    PatchedContent(Block(data, i), files[i].size, offset, bytes);
  }

  ghost predicate SlotValid(s: Slot, i: nat, block: seq<Byte>) {
    s.inUse && s.data == i * MAX_FILE_SIZE && s.size <= MAX_FILE_SIZE && s.mode == DEFAULT_MODE && ZeroFrom(block, s.size)
  }

  ghost function Entries(files: seq<Slot>, data: seq<Byte>, used: nat): (fs: Files)
    requires AreaValid(files, data, used)
    ensures |fs| == used
  {
    seq(used, i requires 0 <= i < used => Entry(files[i].name, Block(data, i)[..files[i].size]))
  }

  // ----- What reads see of writes

  /** Reading back what was written yields exactly those bytes; the size becomes the larger of the old
      one and the end of the write. */
  lemma ReadBack(content: seq<Byte>, offset: nat, bytes: seq<Byte>)
    ensures ReadBytes(WriteAt(content, offset, bytes), offset, |bytes|) == bytes
    ensures |WriteAt(content, offset, bytes)| == if offset + |bytes| > |content| then offset + |bytes| else |content|
  {
  }

  /** Bytes outside the range keep their value; the ones the file did not have before read as zero. */
  lemma OutsideUnchanged(content: seq<Byte>, offset: nat, bytes: seq<Byte>, k: nat)
    requires k < |WriteAt(content, offset, bytes)| && (k < offset || offset + |bytes| <= k)
    ensures WriteAt(content, offset, bytes)[k] == if k < |content| then content[k] else 0
  {
  }

  // ----- What the operations do, byte by byte

  /** A read delivers the bytes of the range as far as the file goes, none from its end on. */
  lemma ReadMeaning(content: seq<Byte>, offset: nat, count: nat)
    ensures var r := ReadBytes(content, offset, count);
      && |r| == (if offset >= |content| then 0 else if offset + count <= |content| then count else |content| - offset)
      && forall k :: 0 <= k < |r| ==> r[k] == content[offset + k]
  {
  }

  /** The end of a write of `count` bytes: the block's end cuts it. */
  function EndOf(offset: nat, count: nat): nat {
    if offset + count <= MAX_FILE_SIZE then offset + count else MAX_FILE_SIZE
  }

  /** The content after a write, position by position: the bytes written, what was there, zeros in a gap. */
  function Overlaid(content: seq<Byte>, offset: nat, bytes: seq<Byte>): (r: seq<Byte>)
    requires offset < MAX_FILE_SIZE
    ensures |r| == if EndOf(offset, |bytes|) > |content| then EndOf(offset, |bytes|) else |content|
    ensures forall k :: offset <= k < EndOf(offset, |bytes|) ==> r[k] == bytes[k - offset]
    ensures forall k :: 0 <= k < |r| && (k < offset || k >= EndOf(offset, |bytes|)) ==>
      r[k] == if k < |content| then content[k] else 0
  {
    var end := EndOf(offset, |bytes|);
    seq(if end > |content| then end else |content|, k requires 0 <= k =>
      if offset <= k < end then bytes[k - offset] else if k < |content| then content[k] else 0)
  }

  lemma OverlaidIs(content: seq<Byte>, offset: nat, bytes: seq<Byte>)
    requires offset < MAX_FILE_SIZE
    ensures WriteAt(content, offset, Fitting(bytes, offset)) == Overlaid(content, offset, bytes)
  {
    var w, fit := WriteAt(content, offset, Fitting(bytes, offset)), Fitting(bytes, offset);
    assert |w| == |Overlaid(content, offset, bytes)|;
    forall k | 0 <= k < |w| ensures w[k] == Overlaid(content, offset, bytes)[k] {
      if offset <= k < offset + |fit| {
        assert w[k] == fit[k - offset];
      } else {
        OutsideUnchanged(content, offset, fit, k);
      }
    }
  }

  /** A write to a file in use: as many of the bytes as fit the block stand in the file from the offset on,
      its size is the larger of the old size and their end, the rest of it and every other file are as
      before. Any other write changes nothing. */
  lemma WriteMeaning(fs: Files, inode: Word, bytes: seq<Byte>, offset: nat)
    ensures var gs := Write(fs, inode, bytes, offset);
      if 1 <= inode <= |fs| && offset < 4096 then
        var n := if offset + |bytes| <= 4096 then |bytes| else 4096 - offset;
        var c := fs[inode - 1].content;
        && |gs| == |fs| && gs[inode - 1].name == fs[inode - 1].name
        && (forall i :: 0 <= i < |fs| && i != inode - 1 ==> gs[i] == fs[i])
        && var d := gs[inode - 1].content;
          && |d| == (if offset + n > |c| then offset + n else |c|)
          && (forall k :: 0 <= k < n ==> d[offset + k] == bytes[k])
          && (forall k :: 0 <= k < |d| && (k < offset || k >= offset + n) ==> d[k] == if k < |c| then c[k] else 0)
      else gs == fs
  {
    if ValidInode(fs, inode) && offset < MAX_FILE_SIZE {
      OverlaidIs(fs[inode - 1].content, offset, bytes);
    }
  }

  /** No event of the run writes to the file. */
  predicate LeftAlone(es: seq<Event>, inode: Word) {
    forall i :: 0 <= i < |es| && es[i].Wrote? ==> es[i].inode != inode
  }

  lemma StepLeaves(fs: Files, e: Event, inode: Word)
    requires 1 <= inode <= |fs| && (e.Wrote? ==> e.inode != inode)
    ensures |Step(fs, e)| >= |fs| && Step(fs, e)[inode - 1] == fs[inode - 1]
  {
  }

  lemma {:induction false} RunLeaves(fs: Files, es: seq<Event>, inode: Word)
    requires 1 <= inode <= |fs| && LeftAlone(es, inode)
    ensures |Run(fs, es)| >= |fs| && Run(fs, es)[inode - 1] == fs[inode - 1]
    decreases es
  {
    if es != [] {
      StepLeaves(fs, es[0], inode);
      RunLeaves(Step(fs, es[0]), es[1..], inode);
    }
  }

  /** However long after a write, as long as the file is not written again, a read of the range delivers
      the bytes the write answered for. */
  lemma ReadAfterWrite(fs: Files, inode: Word, bytes: seq<Byte>, offset: nat, es: seq<Event>)
    requires 1 <= inode <= |fs| && offset < MAX_FILE_SIZE && LeftAlone(es, inode)
    ensures var n := if offset + |bytes| <= 4096 then |bytes| else 4096 - offset;
      var gs := Run(Write(fs, inode, bytes, offset), es);
      && 1 <= inode <= |gs|
      && ReadBytes(gs[inode - 1].content, offset, n) == bytes[..n]
  {
    var n := if offset + |bytes| <= 4096 then |bytes| else 4096 - offset;
    var hs := Write(fs, inode, bytes, offset);
    WriteMeaning(fs, inode, bytes, offset);
    RunLeaves(hs, es, inode);
    ReadMeaning(hs[inode - 1].content, offset, n);
  }

  /** The same through the two calls. */
  method WriteThenRead(disk: RamDisk, inode: Word, source: array<Byte>, dest: array<Byte>, count: Word, offset: Word)
    returns (written: int, read: int)
    requires disk.Valid() && source != disk.fileData && dest != disk.fileData && source != dest
    requires count <= source.Length && count <= dest.Length && offset + count < TWO_TO_32
    modifies disk, disk.files, disk.fileData, dest
    ensures disk.Valid()
    ensures 1 <= inode <= |old(disk.View())| && offset < 4096 ==>
      && written == read == (if offset + count <= 4096 then count else 4096 - offset)
      && dest[..read] == source[..read]
    ensures !(1 <= inode <= |old(disk.View())| && offset < 4096) ==> written == -1 && disk.View() == old(disk.View())
  {
    ghost var fs, bytes := disk.View(), source[..count];
    written := disk.WriteFile(inode, source, count, offset);
    WriteMeaning(fs, inode, bytes, offset);
    if written == -1 {
      return written, 0;
    }
    ReadAfterWrite(fs, inode, bytes, offset, []);
    read := disk.ReadFile(inode, dest, written, offset);
  }

  /** Opening a file that exists answers its inode, one above its slot, and changes nothing. */
  lemma OpenExisting(fs: Files, path: CString, create: bool, i: nat)
    requires i < |fs| && fs[i].name == path && forall j :: 0 <= j < i ==> fs[j].name != path
    ensures OpenAnswer(fs, path, create) == i + 1 && Open(fs, path, create) == fs
  {
  }

  /** Without leave to create, opening a missing file answers -1. */
  lemma OpenMissing(fs: Files, path: CString)
    requires forall i :: 0 <= i < |fs| ==> fs[i].name != path
    ensures OpenAnswer(fs, path, false) == -1 && Open(fs, path, false) == fs
  {
  }

  // ----- A map from names to contents

  ghost predicate Unique(fs: Files) {
    forall i, j :: 0 <= i < j < |fs| ==> fs[i].name != fs[j].name
  }

  /** The directory the files stand for. */
  ghost function Directory(fs: Files): map<CString, seq<Byte>> {
    map n | n in (set i | 0 <= i < |fs| :: fs[i].name) :: (var k := IndexOf(fs, n); if k == -1 then [] else fs[k].content)
  }

  lemma DirectoryIs(fs: Files, name: CString)
    ensures name in Directory(fs) <==> IndexOf(fs, name) != -1
    ensures name in Directory(fs) ==> Directory(fs)[name] == fs[IndexOf(fs, name)].content
  {
    var k := IndexOf(fs, name);
    assert k != -1 ==> fs[k].name == name;
  }

  lemma {:induction false} IndexOfAppend(fs: Files, gs: Files, name: CString)
    ensures IndexOf(fs + gs, name) ==
      (if IndexOf(fs, name) != -1 then IndexOf(fs, name)
       else if IndexOf(gs, name) != -1 then |fs| + IndexOf(gs, name) else -1)
  {
    if fs == [] {
      assert fs + gs == gs;
    } else {
      assert (fs + gs)[1..] == fs[1..] + gs;
      IndexOfAppend(fs[1..], gs, name);
    }
  }

  /** Creating a file adds one entry to the map, under the stored name. */
  lemma CreateRefines(fs: Files, name: CString, content: seq<Byte>)
    requires Creatable(fs, name, |content|) && |name| <= NAME_LIMIT
    ensures Directory(Create(fs, name, content)) == Directory(fs)[name := content]
  {
    var e, gs := Entry(name, content), Create(fs, name, content);
    forall n: CString
      ensures n in Directory(gs) <==> n == name || n in Directory(fs)
      ensures n in Directory(gs) ==> Directory(gs)[n] == if n == name then content else Directory(fs)[n]
    {
      IndexOfAppend(fs, [e], n);
      DirectoryIs(fs, n);
      DirectoryIs(gs, n);
    }
  }

  /** Writing changes the content under one name and under no other. */
  lemma WriteRefines(fs: Files, inode: Word, bytes: seq<Byte>, offset: nat)
    requires Unique(fs) && ValidInode(fs, inode) && offset < MAX_FILE_SIZE
    ensures var e := fs[inode - 1];
      Directory(Write(fs, inode, bytes, offset)) == Directory(fs)[e.name := Overlaid(e.content, offset, bytes)]
  {
    var i := inode - 1;
    var content := Overlaid(fs[i].content, offset, bytes);
    OverlaidIs(fs[i].content, offset, bytes);
    assert Write(fs, inode, bytes, offset) == fs[i := fs[i].(content := content)];
    ContentReplaced(fs, i, content);
  }

  lemma ContentReplaced(fs: Files, i: nat, content: seq<Byte>)
    requires Unique(fs) && i < |fs|
    ensures Directory(fs[i := fs[i].(content := content)]) == Directory(fs)[fs[i].name := content]
  {
    var gs := fs[i := fs[i].(content := content)];
    var c, d := Directory(gs), Directory(fs)[fs[i].name := content];
    forall n: CString ensures SameAt(c, d, n) {
      EntryAfterWrite(fs, gs, i, n);
    }
    SameEverywhere(c, d);
  }

  ghost predicate SameAt(c: map<CString, seq<Byte>>, d: map<CString, seq<Byte>>, name: CString) {
    (name in c <==> name in d) && (name in c ==> c[name] == d[name])
  }

  lemma SameEverywhere(c: map<CString, seq<Byte>>, d: map<CString, seq<Byte>>)
    requires forall n: CString :: SameAt(c, d, n)
    ensures c == d
  {
    assert forall n: CString :: n in c <==> n in d by {
      forall n: CString ensures n in c <==> n in d { assert SameAt(c, d, n); }
    }
    forall n: CString | n in c ensures c[n] == d[n] { assert SameAt(c, d, n); }
  }

  /** Replacing the content of one file leaves the other entries of the directory alone. */
  lemma EntryAfterWrite(fs: Files, gs: Files, i: nat, name: CString)
    requires Unique(fs) && i < |fs| == |gs| && gs == fs[i := fs[i].(content := gs[i].content)]
    ensures name in Directory(gs) <==> name in Directory(fs)
    ensures fs[i].name in Directory(fs)
    ensures name in Directory(gs) ==> Directory(gs)[name] == if name == fs[i].name then gs[i].content else Directory(fs)[name]
  {
    SameNames(fs, gs, name);
    DirectoryIs(fs, name);
    DirectoryIs(gs, name);
    UniqueIndex(fs, i);
    DirectoryIs(fs, fs[i].name);
  }

  lemma UniqueIndex(fs: Files, i: nat)
    requires Unique(fs) && i < |fs|
    ensures IndexOf(fs, fs[i].name) == i
  {
  }

  lemma SameNames(fs: Files, gs: Files, name: CString)
    requires |fs| == |gs| && forall i :: 0 <= i < |fs| ==> fs[i].name == gs[i].name
    ensures IndexOf(gs, name) == IndexOf(fs, name)
  {
  }

  // ----- Runs

  datatype Event =
    | Created(name: CString, content: seq<Byte>)
    | Opened(path: CString, create: bool)
    | Wrote(inode: Word, bytes: seq<Byte>, offset: nat)

  function Step(fs: Files, e: Event): Files {
    match e
    case Created(name, content) => Create(fs, name, content)
    case Opened(path, create) => Open(fs, path, create)
    case Wrote(inode, bytes, offset) => Write(fs, inode, bytes, offset)
  }

  function Run(fs: Files, es: seq<Event>): Files
    decreases es
  {
    if es == [] then fs else Run(Step(fs, es[0]), es[1..])
  }

  predicate ShortName(e: Event) {
    (e.Created? ==> |e.name| <= NAME_LIMIT) && (e.Opened? ==> |e.path| <= NAME_LIMIT)
  }

  ghost predicate Sound(fs: Files) {
    Unique(fs) && |fs| <= MAX_FILES
    && forall i :: 0 <= i < |fs| ==> |fs[i].content| <= MAX_FILE_SIZE && |fs[i].name| <= NAME_LIMIT
  }

  lemma StepKeepsSound(fs: Files, e: Event)
    requires Sound(fs) && ShortName(e)
    ensures Sound(Step(fs, e))
  {
  }

  /** With names that fit, every reachable state has at most 64 files of at most 4096 bytes, all with
      different names. */
  lemma {:induction false} RunKeepsSound(fs: Files, es: seq<Event>)
    requires Sound(fs) && forall i :: 0 <= i < |es| ==> ShortName(es[i])
    ensures Sound(Run(fs, es))
    decreases es
  {
    if es != [] {
      StepKeepsSound(fs, es[0]);
      RunKeepsSound(Step(fs, es[0]), es[1..]);
    }
  }

  // ----- Runs refine a map from names to contents

  /** What users see: the names in the order of their inodes, and what they stand for. */
  datatype Catalog = Catalog(names: seq<CString>, contents: map<CString, seq<Byte>>)

  function Add(c: Catalog, name: CString, content: seq<Byte>): Catalog {
    if |content| <= MAX_FILE_SIZE && name !in c.contents && |c.names| < MAX_FILES
    then Catalog(c.names + [name], c.contents[name := content])
    else c
  }

  /** The inode chooses the name, and the write goes to what that name stands for. */
  function Update(c: Catalog, inode: Word, bytes: seq<Byte>, offset: nat): Catalog {
    if 1 <= inode <= |c.names| && c.names[inode - 1] in c.contents && offset < MAX_FILE_SIZE then
      var n := c.names[inode - 1];
      c.(contents := c.contents[n := Overlaid(c.contents[n], offset, bytes)])
    else c
  }

  function CatalogStep(c: Catalog, e: Event): Catalog {
    match e
    case Created(name, content) => Add(c, name, content)
    case Opened(path, create) => if create then Add(c, path, []) else c
    case Wrote(inode, bytes, offset) => Update(c, inode, bytes, offset)
  }

  function CatalogRun(c: Catalog, es: seq<Event>): Catalog
    decreases es
  {
    if es == [] then c else CatalogRun(CatalogStep(c, es[0]), es[1..])
  }

  function Names(fs: Files): (ns: seq<CString>)
    ensures |ns| == |fs|
  {
    seq(|fs|, i requires 0 <= i < |fs| => fs[i].name)
  }

  ghost function Seen(fs: Files): Catalog {
    Catalog(Names(fs), Directory(fs))
  }

  lemma CreateSeen(fs: Files, name: CString, content: seq<Byte>)
    requires Sound(fs) && |name| <= NAME_LIMIT
    ensures Seen(Create(fs, name, content)) == Add(Seen(fs), name, content)
  {
    DirectoryIs(fs, name);
    if Creatable(fs, name, |content|) {
      CreateRefines(fs, name, content);
      assert Names(Create(fs, name, content)) == Names(fs) + [name];
    }
  }

  lemma OpenSeen(fs: Files, path: CString, create: bool)
    requires Sound(fs) && |path| <= NAME_LIMIT
    ensures Seen(Open(fs, path, create)) == if create then Add(Seen(fs), path, []) else Seen(fs)
  {
    DirectoryIs(fs, path);
    if create {
      CreateSeen(fs, path, []);
    }
  }

  lemma WriteSeen(fs: Files, inode: Word, bytes: seq<Byte>, offset: nat)
    requires Sound(fs)
    ensures Seen(Write(fs, inode, bytes, offset)) == Update(Seen(fs), inode, bytes, offset)
  {
    if ValidInode(fs, inode) && offset < MAX_FILE_SIZE {
      WriteRefines(fs, inode, bytes, offset);
      assert Names(Write(fs, inode, bytes, offset)) == Names(fs);
      Listed(fs, inode - 1);
    }
  }

  lemma Listed(fs: Files, i: nat)
    requires Unique(fs) && i < |fs|
    ensures fs[i].name in Directory(fs) && Directory(fs)[fs[i].name] == fs[i].content
  {
    UniqueIndex(fs, i);
    DirectoryIs(fs, fs[i].name);
  }

  lemma StepRefines(fs: Files, e: Event)
    requires Sound(fs) && ShortName(e)
    ensures Seen(Step(fs, e)) == CatalogStep(Seen(fs), e)
  {
    match e
    case Created(name, content) => CreateSeen(fs, name, content);
    case Opened(path, create) => OpenSeen(fs, path, create);
    case Wrote(inode, bytes, offset) => WriteSeen(fs, inode, bytes, offset);
  }

  /** With names that fit, every run over the slots is the run of the map machine over the same calls,
      refused ones included. */
  lemma {:induction false} RunRefines(fs: Files, es: seq<Event>)
    requires Sound(fs) && forall i :: 0 <= i < |es| ==> ShortName(es[i])
    ensures Seen(Run(fs, es)) == CatalogRun(Seen(fs), es)
    decreases es
  {
    if es != [] {
      StepKeepsSound(fs, es[0]);
      StepRefines(fs, es[0]);
      RunRefines(Step(fs, es[0]), es[1..]);
    }
  }

  /** A name keeps its inode forever, whatever is done with it or with others, long names included. */
  lemma {:induction false} InodeForever(fs: Files, es: seq<Event>, name: CString)
    requires IndexOf(fs, name) != -1
    ensures IndexOf(Run(fs, es), name) == IndexOf(fs, name)
    decreases es
  {
    if es != [] {
      StepKeepsInode(fs, es[0], name);
      InodeForever(Step(fs, es[0]), es[1..], name);
    }
  }

  lemma StepKeepsInode(fs: Files, e: Event, name: CString)
    requires IndexOf(fs, name) != -1
    ensures IndexOf(Step(fs, e), name) == IndexOf(fs, name)
  {
    match e
    case Created(n, content) => IndexOfAppend(fs, [Entry(Truncate(n, NAME_LIMIT), content)], name);
    case Opened(path, _) => IndexOfAppend(fs, [Entry(Truncate(path, NAME_LIMIT), [])], name);
    case Wrote(_, _, _) => SameNames(fs, Step(fs, e), name);
  }

  /** A file just created is found under its name exactly when the name fits its slot. */
  lemma CreatedIsFound(fs: Files, name: CString, content: seq<Byte>)
    requires Creatable(fs, name, |content|) && (forall i :: 0 <= i < |fs| ==> |fs[i].name| <= NAME_LIMIT)
    ensures IndexOf(Create(fs, name, content), name) != -1 <==> |name| <= NAME_LIMIT
    ensures |name| <= NAME_LIMIT ==> IndexOf(Create(fs, name, content), name) == |fs|
  {
    var e := Entry(Truncate(name, NAME_LIMIT), content);
    IndexOfAppend(fs, [e], name);
  }

  /** Opening a missing file for creation answers a new inode exactly when its name fits and there is
      room; a longer name leaves behind a file that no open can reach by it. */
  lemma OpenCreatesExactly(fs: Files, path: CString)
    requires IndexOf(fs, path) == -1 && (forall i :: 0 <= i < |fs| ==> |fs[i].name| <= NAME_LIMIT)
    ensures OpenAnswer(fs, path, true) == |fs| + 1 <==> |path| <= NAME_LIMIT && |fs| < MAX_FILES
    ensures OpenAnswer(fs, path, true) == -1 <==> |path| > NAME_LIMIT || |fs| >= MAX_FILES
    ensures |Open(fs, path, true)| == |fs| + 1 <==> |fs| < MAX_FILES
  {
    if |fs| < MAX_FILES {
      CreatedIsFound(fs, path, []);
    }
  }

  /** The name must fit: creating a longer one twice succeeds twice, under one stored name. */
  lemma LongNameTwice(name: CString)
    requires |name| > NAME_LIMIT
    ensures var fs := Run([], [Created(name, []), Created(name, [])]);
      |fs| == 2 && fs[0].name == fs[1].name && !Unique(fs)
  {
    var e := Created(name, []);
    var one := Create([], name, []);
    CreatedIsFound([], name, []);
    var es := [e, e];
    assert es[1..] == [e] && es[1..][1..] == [];
    assert Run(one, es[1..]) == Create(one, name, []);
  }
}
