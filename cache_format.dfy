/** The on-disk program-binary cache: the table of linked-program binaries
    keyed by program hash, the byte layout Save writes and Load reads, and
    the behaviour of the stream primitives under short reads and writes.

    Layout (little-endian, as an x86/ARM host writes its integers):
      u32 version (PROGRAM_CACHE_VERSION), s32 count,
      then per entry: u64 hash, u32 format, u32 length, length bytes. */
module ProgramCacheFormat {
  import opened Bytes

  const PROGRAM_CACHE_VERSION: u32 := 0x2

  /** `ProgramCacheEntity`: a driver binary-format tag and the binary. */
  datatype ProgramBinary = ProgramBinary(format: u32, binary: seq<byte>)

  type BinaryTable = map<u64, ProgramBinary>

  /** `unordered_map::emplace`: inserts only when the key is absent. */
  function Emplace(t: BinaryTable, h: u64, e: ProgramBinary): (r: BinaryTable)
    ensures r.Keys == t.Keys + {h}
    ensures forall k :: k in t ==> r[k] == t[k]
    ensures h !in t ==> r[h] == e
  {
    if h in t then t else t[h := e]
  }

  /** `order` lists every key of the table exactly once (an iteration order). */
  predicate IsEnumeration(order: seq<u64>, keys: set<u64>) {
    && |order| == |keys|
    && (forall i :: 0 <= i < |order| ==> order[i] in keys)
    && (forall k :: k in keys ==> k in order)
    && (forall i, j :: 0 <= i < j < |order| ==> order[i] != order[j])
  }

  // ---------------------------------------------------------------- writing

  /** The bytes of one entry. The length field is `static_cast<u32>(size)`, and
      exactly that many bytes of the binary follow it. */
  function EncodeEntry(h: u64, e: ProgramBinary): (r: seq<byte>)
    ensures |r| == 16 + |e.binary| % U32_LIMIT
  {
    ModBelow(|e.binary|);
    var length := |e.binary| % U32_LIMIT;
    ToLE(h, 8) + ToLE(e.format, 4) + ToLE(length, 4) + e.binary[..length]
  }

  function EncodeEntries(t: BinaryTable, order: seq<u64>): (r: seq<byte>)
    requires forall i :: 0 <= i < |order| ==> order[i] in t
    ensures |r| >= 16 * |order|
  {
    if order == [] then [] else EncodeEntry(order[0], t[order[0]]) + EncodeEntries(t, order[1..])
  }

  /** Where the entry at index `i` of `order` ends, counted from the first entry. */
  function EntriesEnd(m: BinaryTable, order: seq<u64>, i: nat): nat
    requires forall j :: 0 <= j < |order| ==> order[j] in m
    requires i < |order|
  {
    |EncodeEntries(m, order[..i + 1])|
  }

  /** Version, then `static_cast<s32>(binary_cache.size())` as its four bytes. */
  function SaveHeader(t: BinaryTable): (r: seq<byte>)
    ensures |r| == 8
  {
    ToLE(PROGRAM_CACHE_VERSION, 4) + ToLE(|t| % U32_LIMIT, 4)
  }

  /** Everything Save writes for table `t` iterated in `order`. */
  function SaveImage(t: BinaryTable, order: seq<u64>): (r: seq<byte>)
    requires forall i :: 0 <= i < |order| ==> order[i] in t
    ensures |r| >= 8 + 16 * |order| && r[..8] == SaveHeader(t)
  {
    SaveHeader(t) + EncodeEntries(t, order)
  }

  /** An output file that accepts at most `capacity` bytes in all; a write
      that does not go through whole marks the stream bad for good. */
  datatype Writer = Writer(written: seq<byte>, capacity: nat, good: bool)

  function WriteBytes(w: Writer, bytes: seq<byte>): (r: Writer)
    requires |w.written| <= w.capacity
    ensures r.capacity == w.capacity && |r.written| <= r.capacity
    // the file keeps what it held and gains the longest prefix of `bytes` that fits
    ensures r.good <==> w.good && |w.written| + |bytes| <= w.capacity
  {
    var k := Min(|bytes|, w.capacity - |w.written|);
    Writer(w.written + bytes[..k], w.capacity, w.good && k == |bytes|)
  }

  /** A write keeps what the file held and adds the longest prefix of
      `bytes` that fits. */
  lemma WriteBytesContents(w: Writer, bytes: seq<byte>)
    requires |w.written| <= w.capacity
    ensures var r := WriteBytes(w, bytes);
      && w.written <= r.written <= w.written + bytes
      && |r.written| == Min(|w.written| + |bytes|, w.capacity)
  {
    var k := Min(|bytes|, w.capacity - |w.written|);
    assert bytes[..k] <= bytes;
  }

  /** The writer after the whole `stream` was offered to a fresh file. */
  function WriterAfter(stream: seq<byte>, capacity: nat): (w: Writer)
    ensures w.capacity == capacity && w.written <= stream && |w.written| == Min(|stream|, capacity)
    ensures w.good <==> |stream| <= capacity
  {
    Writer(if |stream| <= capacity then stream else stream[..capacity], capacity, |stream| <= capacity)
  }

  /** Writing piecewise is writing the concatenation: the file holds the
      longest prefix of the stream that fits, and is good iff all of it fits. */
  lemma WriteBytesAfter(stream: seq<byte>, bytes: seq<byte>, capacity: nat)
    ensures WriteBytes(WriterAfter(stream, capacity), bytes) == WriterAfter(stream + bytes, capacity)
  {
    var w := WriterAfter(stream, capacity);
    var k := Min(|bytes|, capacity - |w.written|);
    if |stream| <= capacity && |stream| + |bytes| > capacity {
      assert w.written + bytes[..k] == (stream + bytes)[..capacity];
    } else if |stream| > capacity {
      assert (stream + bytes)[..capacity] == stream[..capacity];
    }
  }

  lemma {:induction false} EncodeEntriesAppend(t: BinaryTable, order: seq<u64>, h: u64)
    requires forall i :: 0 <= i < |order| ==> order[i] in t
    requires h in t
    ensures EncodeEntries(t, order + [h]) == EncodeEntries(t, order) + EncodeEntry(h, t[h])
  {
    if order == [] {
      assert [h][1..] == [];
    } else {
      assert (order + [h])[1..] == order[1..] + [h];
      EncodeEntriesAppend(t, order[1..], h);
    }
  }

  /** The entries of a prefix of `order` are a prefix of its entries. */
  lemma {:induction false} EncodeEntriesPrefix(t: BinaryTable, order: seq<u64>, k: nat)
    requires forall i :: 0 <= i < |order| ==> order[i] in t
    requires k <= |order|
    ensures |EncodeEntries(t, order[..k])| <= |EncodeEntries(t, order)|
  {
    if k > 0 {
      EncodeEntriesPrefix(t, order[1..], k - 1);
      assert order[..k][1..] == order[1..][..k - 1];
    }
  }

  /** One pass of Save's loop writes the next entry of the image. */
  lemma SaveEntryStep(t: BinaryTable, order: seq<u64>, i: nat)
    requires forall j :: 0 <= j < |order| ==> order[j] in t
    requires i < |order|
    ensures var e := t[order[i]];
      var length := |e.binary| % U32_LIMIT;
      SaveHeader(t) + EncodeEntries(t, order[..i]) + ToLE(order[i], 8) + ToLE(e.format, 4) + ToLE(length, 4) + e.binary[..length]
        == SaveHeader(t) + EncodeEntries(t, order[..i + 1])
  {
    assert order[..i + 1] == order[..i] + [order[i]];
    EncodeEntriesAppend(t, order[..i], order[i]);
  }

  /** Save's two header writes to a fresh file give the image of the header. */
  lemma SaveHeaderWrites(t: BinaryTable, capacity: nat)
    ensures WriteBytes(WriteBytes(Writer([], capacity, true), ToLE(PROGRAM_CACHE_VERSION, 4)), ToLE(|t| % U32_LIMIT, 4))
         == WriterAfter(SaveHeader(t) + EncodeEntries(t, []), capacity)
  {
    var vb := ToLE(PROGRAM_CACHE_VERSION, 4);
    assert Writer([], capacity, true) == WriterAfter([], capacity);
    WriteBytesAfter([], vb, capacity);
    assert [] + vb == vb;
    WriteBytesAfter(vb, ToLE(|t| % U32_LIMIT, 4), capacity);
    assert SaveHeader(t) + EncodeEntries(t, []) == SaveHeader(t);
  }

  /** Save's four writes of the entry at index `i` take the file from the
      image up to that entry to the image up to the next one. */
  lemma SaveEntryWrites(t: BinaryTable, order: seq<u64>, i: nat, capacity: nat)
    requires forall j :: 0 <= j < |order| ==> order[j] in t
    requires i < |order|
    ensures var e := t[order[i]];
      var length := |e.binary| % U32_LIMIT;
      var w := WriterAfter(SaveHeader(t) + EncodeEntries(t, order[..i]), capacity);
      WriteBytes(WriteBytes(WriteBytes(WriteBytes(w, ToLE(order[i], 8)), ToLE(e.format, 4)), ToLE(length, 4)), e.binary[..length])
        == WriterAfter(SaveHeader(t) + EncodeEntries(t, order[..i + 1]), capacity)
  {
    var e := t[order[i]];
    var length := |e.binary| % U32_LIMIT;
    var s0 := SaveHeader(t) + EncodeEntries(t, order[..i]);
    var hb, fb, lb, bin := ToLE(order[i], 8), ToLE(e.format, 4), ToLE(length, 4), e.binary[..length];
    WriteBytesAfter(s0, hb, capacity);
    WriteBytesAfter(s0 + hb, fb, capacity);
    WriteBytesAfter(s0 + hb + fb, lb, capacity);
    WriteBytesAfter(s0 + hb + fb + lb, bin, capacity);
    SaveEntryStep(t, order, i);
  }

  /** A prefix of the entries that does not fit means the image does not fit. */
  lemma SaveTooLarge(t: BinaryTable, order: seq<u64>, k: nat, capacity: nat)
    requires forall j :: 0 <= j < |order| ==> order[j] in t
    requires k <= |order| && |SaveHeader(t) + EncodeEntries(t, order[..k])| > capacity
    ensures |SaveImage(t, order)| > capacity
  {
    EncodeEntriesPrefix(t, order, k);
  }

  // ---------------------------------------------------------------- reading

  /** An input file read front to back. `good` turns false at the first read
      that delivers fewer bytes than asked for, and stays false. */
  datatype Reader = Reader(data: seq<byte>, pos: nat, good: bool)

  datatype Read = Read(reader: Reader, bytes: seq<byte>)

  /** `IOFile::ReadBytes`: delivers what is left, up to `n` bytes. */
  function ReadBytes(r: Reader, n: nat): (res: Read)
    requires r.pos <= |r.data|
    ensures res.reader.data == r.data && r.pos <= res.reader.pos <= |r.data|
    ensures res.bytes == r.data[r.pos..res.reader.pos] && |res.bytes| <= n
    ensures |res.bytes| < n ==> res.reader.pos == |r.data|
    ensures res.reader.good <==> r.good && |res.bytes| == n
  {
    var k := Min(n, |r.data| - r.pos);
    Read(Reader(r.data, r.pos + k, r.good && k == n), r.data[r.pos..r.pos + k])
  }

  /** `file.ReadBytes(&x, sizeof(x))` into a variable whose bytes are `prev`:
      as many bytes as it holds are asked for, and those that arrive
      overwrite its start. */
  function ReadInto(r: Reader, prev: seq<byte>): (res: Read)
    requires r.pos <= |r.data|
    ensures res.reader.data == r.data && r.pos <= res.reader.pos <= |r.data| && |res.bytes| == |prev|
    ensures res.reader.good <==> r.good && r.pos + |prev| <= |r.data|
    ensures r.pos + |prev| <= |r.data| ==> res.reader.pos == r.pos + |prev|
    ensures r.pos + |prev| <= |r.data| ==> res.bytes == r.data[r.pos..r.pos + |prev|]
  {
    var x := ReadBytes(r, |prev|);
    Read(x.reader, Overlay(prev, x.bytes))
  }

  /** The loop's variables `hash`, `format`, `length` and `binary`, which keep
      their values from one entry to the next. The entry's constructor copies
      `binary` from its rvalue-reference parameter, so the local keeps the
      bytes of the entry just emplaced. */
  datatype Scratch = Scratch(hash: u64, format: u32, length: u32, binary: seq<byte>)

  const FreshScratch: Scratch := Scratch(0, 0, 0, [])

  datatype Step = Step(reader: Reader, scratch: Scratch)

  /** One loop iteration's reads. A short read overwrites only the start of its
      variable; `binary` is resized to the length read and then overwritten
      from the front. */
  function ReadEntry(r: Reader, s: Scratch): (st: Step)
    requires r.pos <= |r.data|
    ensures st.reader.data == r.data && st.reader.pos <= |r.data|
    ensures st.reader.good ==> r.good
  {
    var a := ReadInto(r, ToLE(s.hash, 8));
    var b := ReadInto(a.reader, ToLE(s.format, 4));
    var c := ReadInto(b.reader, ToLE(s.length, 4));
    var length := DecodeU32(c.bytes);
    var d := ReadInto(c.reader, Resize(s.binary, length));
    Step(d.reader, Scratch(DecodeU64(a.bytes), DecodeU32(b.bytes), length, d.bytes))
  }

  /** ReadEntry as the loop's four reads, one variable after the other. */
  lemma ReadEntryReads(r: Reader, s: Scratch, a: Read, b: Read, c: Read, d: Read)
    requires r.pos <= |r.data|
    requires a == ReadInto(r, ToLE(s.hash, 8))
    requires b == ReadInto(a.reader, ToLE(s.format, 4))
    requires c == ReadInto(b.reader, ToLE(s.length, 4))
    requires d == ReadInto(c.reader, Resize(s.binary, DecodeU32(c.bytes)))
    ensures ReadEntry(r, s) == Step(d.reader, Scratch(DecodeU64(a.bytes), DecodeU32(b.bytes), DecodeU32(c.bytes), d.bytes))
  {
  }

  /** What a load leaves behind: the table, and whether the file gets deleted. */
  datatype LoadResult = LoadResult(table: BinaryTable, deleteFile: bool)

  /** The `while (count > 0)` loop: every entry read is emplaced, then a bad
      stream deletes the file and stops the loop. The next pass starts from
      the values this one read. */
  function LoadEntries(r: Reader, count: int, s: Scratch, t: BinaryTable): (res: LoadResult)
    requires r.pos <= |r.data|
    ensures t.Keys <= res.table.Keys
    decreases if count > 0 then count else 0
  {
    if count <= 0 then LoadResult(t, false)
    else
      var st := ReadEntry(r, s);
      var t' := Emplace(t, st.scratch.hash, ProgramBinary(st.scratch.format, st.scratch.binary));
      if !st.reader.good then LoadResult(t', true)
      else LoadEntries(st.reader, count - 1, st.scratch, t')
  }

  /** One pass of the loop, as the loop body performs it: `left` passes
      remain after it, and `t'` is the table after its emplace. */
  lemma LoadEntriesPass(r: Reader, left: int, s: Scratch, t: BinaryTable, next: Reader, sc: Scratch, t': BinaryTable)
    requires r.pos <= |r.data| && left >= 0 && ReadEntry(r, s) == Step(next, sc)
    requires t' == Emplace(t, sc.hash, ProgramBinary(sc.format, sc.binary))
    ensures next.pos <= |next.data|
    ensures next.good ==> LoadEntries(r, left + 1, s, t) == LoadEntries(next, left, sc, t')
    ensures !next.good ==> LoadEntries(r, left + 1, s, t) == LoadResult(t', true)
  {
  }

  /** Loading the bytes `image` of an existing file on top of table `t`. */
  function LoadImage(image: seq<byte>, t: BinaryTable): (res: LoadResult)
    ensures t.Keys <= res.table.Keys
  {
    var v := ReadInto(Reader(image, 0, true), ToLE(0, 4));
    if DecodeU32(v.bytes) != PROGRAM_CACHE_VERSION then LoadResult(t, true)
    else
      var c := ReadInto(v.reader, ToLE(0, 4));
      LoadEntries(c.reader, AsS32(DecodeU32(c.bytes)), FreshScratch, t)
  }

  /** Whether a file exists at the cache path, and what it holds. */
  datatype FileState = FileState(present: bool, contents: seq<byte>)

  /** LoadImage as Load's two header reads followed by its loop. */
  lemma LoadImageReads(image: seq<byte>, t: BinaryTable, v: Read, c: Read)
    requires v == ReadInto(Reader(image, 0, true), ToLE(0, 4))
    requires c == ReadInto(v.reader, ToLE(0, 4))
    ensures DecodeU32(v.bytes) != PROGRAM_CACHE_VERSION ==> LoadImage(image, t) == LoadResult(t, true)
    ensures DecodeU32(v.bytes) == PROGRAM_CACHE_VERSION ==>
      LoadImage(image, t) == LoadEntries(c.reader, AsS32(DecodeU32(c.bytes)), Scratch(0, 0, 0, []), t)
  {
  }

  /** The file on disk at the cache path. */
  class CacheFile {
    var present: bool
    var contents: seq<byte>

    constructor (present: bool, contents: seq<byte>)
      ensures this.present == present && this.contents == contents
    {
      this.present := present;
      this.contents := contents;
    }

    function State(): FileState
      reads this
    {
      FileState(present, contents)
    }
  }

  /** What Save leaves at the cache path, `openOk` telling whether the file
      could be opened for writing and `capacity` how many bytes the disk
      takes. The stream is checked only after each entry, so a table with no
      entries never leads to a delete. */
  function AfterSave(before: FileState, t: BinaryTable, order: seq<u64>, openOk: bool, capacity: nat): (r: FileState)
    requires forall i :: 0 <= i < |order| ==> order[i] in t
    ensures !openOk ==> r == before
    ensures openOk && |SaveImage(t, order)| <= capacity ==> r == FileState(true, SaveImage(t, order))
    ensures openOk && order != [] && |SaveImage(t, order)| > capacity ==> r == FileState(false, [])
    ensures openOk && order == [] ==> r == FileState(true, WriterAfter(SaveHeader(t), capacity).written)
  {
    if !openOk then before
    else
      var w := WriterAfter(SaveImage(t, order), capacity);
      if order != [] && !w.good then FileState(false, []) else FileState(true, w.written)
  }

  /** What Load leaves at the cache path and in the table `t` it fills. */
  function AfterLoad(before: FileState, t: BinaryTable): (r: (FileState, BinaryTable))
    // no file: nothing happens
    ensures !before.present ==> r == (before, t)
    // Load never writes the file; at most it deletes it
    ensures r.0 == before || r.0 == FileState(false, [])
    // Load never removes or overwrites an entry of the table it fills
    ensures forall k :: k in t ==> k in r.1 && r.1[k] == t[k]
    // a file of another version is deleted and contributes nothing
    ensures before.present && |before.contents| >= 4 && DecodeU32(before.contents[..4]) != PROGRAM_CACHE_VERSION ==>
      r == (FileState(false, []), t)
  {
    if !before.present then (before, t)
    else
      var res := LoadImage(before.contents, t);
      LoadImageKeeps(before.contents, t);
      (if res.deleteFile then FileState(false, []) else before, res.table)
  }

  // ------------------------------------------------------- what Load promises

  /** Load never removes or overwrites an entry it finds in the table: entries
      read before a failure, and the one read in the failing pass, stay. */
  lemma {:induction false} LoadEntriesKeeps(r: Reader, count: int, s: Scratch, t: BinaryTable)
    requires r.pos <= |r.data|
    ensures var res := LoadEntries(r, count, s, t);
      forall k :: k in t ==> k in res.table && res.table[k] == t[k]
    decreases if count > 0 then count else 0
  {
    if count > 0 {
      var st := ReadEntry(r, s);
      var t' := Emplace(t, st.scratch.hash, ProgramBinary(st.scratch.format, st.scratch.binary));
      if st.reader.good {
        LoadEntriesKeeps(st.reader, count - 1, st.scratch, t');
      }
    }
  }

  lemma LoadImageKeeps(image: seq<byte>, t: BinaryTable)
    ensures var res := LoadImage(image, t);
      forall k :: k in t ==> k in res.table && res.table[k] == t[k]
  {
    var v := ReadInto(Reader(image, 0, true), ToLE(0, 4));
    var c := ReadInto(v.reader, ToLE(0, 4));
    LoadEntriesKeeps(c.reader, AsS32(DecodeU32(c.bytes)), FreshScratch, t);
  }

  /** A file whose version field is not PROGRAM_CACHE_VERSION is deleted and
      contributes nothing. */
  lemma VersionMismatchDeletes(image: seq<byte>, t: BinaryTable)
    requires |image| >= 4 && DecodeU32(image[..4]) != PROGRAM_CACHE_VERSION
    ensures LoadImage(image, t) == LoadResult(t, true)
  {
    assert image[0..4] == image[..4];
  }

  /** The table after inserting the entries of `m` listed in `order` into `t`. */
  function Extend(t: BinaryTable, m: BinaryTable, order: seq<u64>): (r: BinaryTable)
    requires forall i :: 0 <= i < |order| ==> order[i] in m
    ensures forall k :: k in r <==> k in t || k in order
    ensures forall k :: k in r ==> r[k] == if k in order then m[k] else t[k]
    decreases |order|
  {
    if order == [] then t else Extend(t[order[0] := m[order[0]]], m, order[1..])
  }

  lemma ExtendAll(m: BinaryTable, order: seq<u64>)
    requires IsEnumeration(order, m.Keys)
    ensures Extend(map[], m, order) == m
  {
    var r := Extend(map[], m, order);
    assert r.Keys == m.Keys;
  }

  /** `data[pos..]` starts with `x`: reading into a variable of |x| bytes from
      a good stream at `pos` delivers `x` and leaves the stream good. */
  lemma ReadIntoExact(data: seq<byte>, pos: nat, prev: seq<byte>, x: seq<byte>, rest: seq<byte>)
    requires |prev| == |x| && pos <= |data| && data[pos..] == x + rest
    ensures ReadInto(Reader(data, pos, true), prev) == Read(Reader(data, pos + |x|, true), x)
    ensures data[pos + |x|..] == rest
  {
    assert data[pos..pos + |x|] == data[pos..][..|x|];
    assert data[pos + |x|..] == data[pos..][|x|..];
  }

  /** An entry whose four fields are all there is read field by field. */
  lemma ReadEntryOfFields(data: seq<byte>, pos: nat, s: Scratch, hb: seq<byte>, fb: seq<byte>, lb: seq<byte>, bin: seq<byte>, rest: seq<byte>)
    requires |hb| == 8 && |fb| == 4 && |lb| == 4 && |bin| == DecodeU32(lb)
    requires pos <= |data| && data[pos..] == hb + (fb + (lb + (bin + rest)))
    ensures ReadEntry(Reader(data, pos, true), s)
         == Step(Reader(data, pos + 16 + |bin|, true), Scratch(DecodeU64(hb), DecodeU32(fb), DecodeU32(lb), bin))
    ensures data[pos + 16 + |bin|..] == rest
  {
    ReadIntoExact(data, pos, ToLE(s.hash, 8), hb, fb + (lb + (bin + rest)));
    ReadIntoExact(data, pos + 8, ToLE(s.format, 4), fb, lb + (bin + rest));
    ReadIntoExact(data, pos + 12, ToLE(s.length, 4), lb, bin + rest);
    ReadIntoExact(data, pos + 16, Resize(s.binary, |bin|), bin, rest);
  }

  /** An entry written whole is read back whole, whatever the loop variables
      held before. */
  lemma ReadEntryOfImage(data: seq<byte>, pos: nat, h: u64, e: ProgramBinary, rest: seq<byte>, s: Scratch)
    requires |e.binary| < U32_LIMIT
    requires pos <= |data| && data[pos..] == EncodeEntry(h, e) + rest
    ensures ReadEntry(Reader(data, pos, true), s)
         == Step(Reader(data, pos + |EncodeEntry(h, e)|, true), Scratch(h, e.format, |e.binary|, e.binary))
    ensures data[pos + |EncodeEntry(h, e)|..] == rest
  {
    var len := |e.binary|;
    ModSmall(len);
    assert e.binary[..len] == e.binary;
    var hb, fb, lb := ToLE(h, 8), ToLE(e.format, 4), ToLE(len, 4);
    assert EncodeEntry(h, e) + rest == hb + (fb + (lb + (e.binary + rest)));
    DecodeToLE32(len);
    DecodeToLE64(h);
    DecodeToLE32(e.format);
    ReadEntryOfFields(data, pos, s, hb, fb, lb, e.binary, rest);
  }

  predicate EntriesFit(m: BinaryTable) {
    forall h :: h in m ==> |m[h].binary| < U32_LIMIT
  }

  predicate Distinct(order: seq<u64>) {
    forall i, j :: 0 <= i < j < |order| ==> order[i] != order[j]
  }

  /** A pass of the loop that leaves the stream bad ends the load and
      deletes the file. */
  lemma LoadEntriesBadStep(r: Reader, count: int, s: Scratch, t: BinaryTable)
    requires r.pos <= |r.data| && count > 0
    requires !ReadEntry(r, s).reader.good
    ensures LoadEntries(r, count, s, t).deleteFile
  {
  }

  /** One pass of the loop that leaves the stream good. */
  lemma LoadEntriesStep(r: Reader, count: int, s: Scratch, t: BinaryTable, next: Reader, sc: Scratch)
    requires r.pos <= |r.data| && count > 0
    requires ReadEntry(r, s) == Step(next, sc) && next.good
    ensures next.pos <= |next.data|
    ensures LoadEntries(r, count, s, t)
         == LoadEntries(next, count - 1, sc, Emplace(t, sc.hash, ProgramBinary(sc.format, sc.binary)))
  {
  }

  /** The loop's first pass over an entry written whole: it reads the entry
      back and inserts it. */
  lemma LoadFirstEntry(h: u64, e: ProgramBinary, rest: seq<byte>, data: seq<byte>, pos: nat, count: int, s: Scratch, t: BinaryTable)
      returns (next: nat)
    requires |e.binary| < U32_LIMIT && h !in t && count > 0
    requires pos <= |data| && data[pos..] == EncodeEntry(h, e) + rest
    ensures next <= |data| && data[next..] == rest
    ensures LoadEntries(Reader(data, pos, true), count, s, t)
         == LoadEntries(Reader(data, next, true), count - 1, Scratch(h, e.format, |e.binary|, e.binary), t[h := e])
  {
    ReadEntryOfImage(data, pos, h, e, rest, s);
    next := pos + |EncodeEntry(h, e)|;
    var sc := Scratch(h, e.format, |e.binary|, e.binary);
    assert Emplace(t, h, ProgramBinary(sc.format, sc.binary)) == t[h := e];
    LoadEntriesStep(Reader(data, pos, true), count, s, t, Reader(data, next, true), sc);
  }

  /** After the first listed key is inserted, the rest are still new. */
  lemma TailFresh(order: seq<u64>, m: BinaryTable, t: BinaryTable)
    requires order != [] && Distinct(order)
    requires forall i :: 0 <= i < |order| ==> order[i] in m && order[i] !in t
    ensures Distinct(order[1..])
    ensures forall i :: 0 <= i < |order[1..]| ==> order[1..][i] in m && order[1..][i] !in t[order[0] := m[order[0]]]
  {
    forall i | 0 <= i < |order[1..]|
      ensures order[1..][i] in m && order[1..][i] !in t[order[0] := m[order[0]]]
    {
      assert order[1..][i] == order[i + 1];
    }
  }

  lemma {:induction false} LoadEntriesOfImage(m: BinaryTable, order: seq<u64>, data: seq<byte>, pos: nat, s: Scratch, t: BinaryTable)
    requires EntriesFit(m) && Distinct(order)
    requires forall i :: 0 <= i < |order| ==> order[i] in m && order[i] !in t
    requires pos <= |data| && data[pos..] == EncodeEntries(m, order)
    ensures LoadEntries(Reader(data, pos, true), |order|, s, t) == LoadResult(Extend(t, m, order), false)
  {
    if order != [] {
      var h, rest := order[0], order[1..];
      var next := LoadFirstEntry(h, m[h], EncodeEntries(m, rest), data, pos, |order|, s, t);
      TailFresh(order, m, t);
      LoadEntriesOfImage(m, rest, data, next, Scratch(h, m[h].format, |m[h].binary|, m[h].binary), t[h := m[h]]);
    }
  }

  /** A file that starts with a whole version and count field: Load checks
      the version and then runs its loop on what follows the count. */
  lemma LoadOfHeaderFields(image: seq<byte>, vb: seq<byte>, cb: seq<byte>, rest: seq<byte>, t: BinaryTable)
    requires |vb| == 4 && |cb| == 4 && image == vb + cb + rest
    requires DecodeU32(vb) == PROGRAM_CACHE_VERSION
    ensures LoadImage(image, t) == LoadEntries(Reader(image, 8, true), AsS32(DecodeU32(cb)), FreshScratch, t)
  {
    assert image[0..] == vb + (cb + rest);
    ReadIntoExact(image, 0, ToLE(0, 4), vb, cb + rest);
    ReadIntoExact(image, 4, ToLE(0, 4), cb, rest);
    var v := ReadInto(Reader(image, 0, true), ToLE(0, 4));
    var c := ReadInto(v.reader, ToLE(0, 4));
    LoadImageReads(image, t, v, c);
  }
  /** A file that starts with the header Save writes passes Load's version
      check and yields the table's size as the count. */
  lemma LoadHeaderOfImage(m: BinaryTable, image: seq<byte>, t: BinaryTable)
    requires |m| < 0x8000_0000
    requires |image| >= 8 && image[..8] == SaveHeader(m)
    ensures LoadImage(image, t) == LoadEntries(Reader(image, 8, true), |m|, FreshScratch, t)
  {
    var vb, cb := ToLE(PROGRAM_CACHE_VERSION, 4), ToLE(|m| % U32_LIMIT, 4);
    assert image == vb + cb + image[8..] by {
      assert image == image[..8] + image[8..];
    }
    DecodeToLE32(PROGRAM_CACHE_VERSION);
    ModSmall(|m|);
    DecodeToLE32(|m|);
    LoadOfHeaderFields(image, vb, cb, image[8..], t);
  }

  /** Load of what Save wrote reproduces the saved table and keeps the file,
      provided the count and every length fit their fields. */
  lemma SaveLoadRoundTrip(m: BinaryTable, order: seq<u64>)
    requires IsEnumeration(order, m.Keys)
    requires |m| < 0x8000_0000 && EntriesFit(m)
    ensures LoadImage(SaveImage(m, order), map[]) == LoadResult(m, false)
  {
    var image := SaveImage(m, order);
    assert image[..8] == SaveHeader(m) && image[8..] == EncodeEntries(m, order);
    LoadHeaderOfImage(m, image, map[]);
    LoadEntriesOfImage(m, order, image, 8, FreshScratch, map[]);
    ExtendAll(m, order);
  }

  /** A read that cannot complete an entry leaves the stream bad. */
  lemma ReadEntryOfCut(data: seq<byte>, pos: nat, h: u64, e: ProgramBinary, s: Scratch)
    requires |e.binary| < U32_LIMIT
    requires pos <= |data| && |data| - pos < |EncodeEntry(h, e)|
    requires data[pos..] == EncodeEntry(h, e)[..|data| - pos]
    ensures !ReadEntry(Reader(data, pos, true), s).reader.good
  {
    var avail, len := |data| - pos, |e.binary|;
    var r := Reader(data, pos, true);
    var a := ReadInto(r, ToLE(s.hash, 8));
    var b := ReadInto(a.reader, ToLE(s.format, 4));
    var c := ReadInto(b.reader, ToLE(s.length, 4));
    if avail >= 16 {
      var image, lb := EncodeEntry(h, e), ToLE(len, 4);
      assert e.binary[..len] == e.binary;
      ModSmall(len);
      assert image[12..16] == lb by {
        assert image == ToLE(h, 8) + ToLE(e.format, 4) + lb + e.binary;
      }
      assert c.bytes == lb by {
        assert c.bytes == data[pos..][12..16] == image[..avail][12..16];
      }
      DecodeToLE32(len);
    }
  }

  lemma EncodeEntriesCons(t: BinaryTable, order: seq<u64>, i: nat)
    requires forall j :: 0 <= j < |order| ==> order[j] in t
    requires i < |order|
    ensures EncodeEntries(t, order[..i + 1])
         == EncodeEntry(order[0], t[order[0]]) + EncodeEntries(t, order[1..][..i])
  {
    assert order[..i + 1][1..] == order[1..][..i];
  }

  /** The first entry is cut: the pass reads it short, and the file goes. */
  lemma LoadEntriesOfCutFirst(m: BinaryTable, order: seq<u64>, data: seq<byte>, pos: nat, lost: seq<byte>, s: Scratch, t: BinaryTable)
    requires EntriesFit(m) && order != []
    requires forall i :: 0 <= i < |order| ==> order[i] in m
    requires pos <= |data| && |data| - pos < |EncodeEntry(order[0], m[order[0]])|
    requires data[pos..] + lost == EncodeEntries(m, order)
    ensures LoadEntries(Reader(data, pos, true), |order|, s, t).deleteFile
  {
    var h, avail := order[0], |data| - pos;
    var first, later := EncodeEntry(h, m[h]), EncodeEntries(m, order[1..]);
    assert data[pos..] == first[..avail] by {
      assert data[pos..] == (data[pos..] + lost)[..avail];
      assert (first + later)[..avail] == first[..avail];
    }
    ReadEntryOfCut(data, pos, h, m[h], s);
    LoadEntriesBadStep(Reader(data, pos, true), |order|, s, t);
  }

  /** Every prefix of the entries holds the first entry whole. */
  lemma FirstEntryBound(m: BinaryTable, order: seq<u64>, i: nat)
    requires forall j :: 0 <= j < |order| ==> order[j] in m
    requires i < |order|
    ensures EntriesEnd(m, order, i) >= |EncodeEntry(order[0], m[order[0]])|
  {
    EncodeEntriesCons(m, order, i);
  }

  /** When the first entry is cut, no prefix of the entries is whole. */
  lemma NoWholeEntry(m: BinaryTable, order: seq<u64>, avail: nat)
    requires forall j :: 0 <= j < |order| ==> order[j] in m
    requires order != [] && avail < |EncodeEntry(order[0], m[order[0]])|
    ensures forall i :: 0 <= i < |order| ==> EntriesEnd(m, order, i) > avail
  {
    forall i | 0 <= i < |order|
      ensures EntriesEnd(m, order, i) > avail
    {
      FirstEntryBound(m, order, i);
    }
  }

  /** The entries wholly before the cut are the first one and those of the
      rest wholly before the shifted cut. */
  lemma WholeEntriesKept(m: BinaryTable, order: seq<u64>, avail: nat, availRest: nat, table: BinaryTable)
    requires forall j :: 0 <= j < |order| ==> order[j] in m
    requires order != [] && availRest == avail - |EncodeEntry(order[0], m[order[0]])|
    requires order[0] in table && table[order[0]] == m[order[0]]
    requires forall i :: 0 <= i < |order[1..]| && EntriesEnd(m, order[1..], i) <= availRest ==>
      order[1..][i] in table && table[order[1..][i]] == m[order[1..][i]]
    ensures forall i :: 0 <= i < |order| && EntriesEnd(m, order, i) <= avail ==>
      order[i] in table && table[order[i]] == m[order[i]]
  {
    forall i | 0 <= i < |order| && EntriesEnd(m, order, i) <= avail
      ensures order[i] in table && table[order[i]] == m[order[i]]
    {
      if i > 0 {
        ShiftWholeEntry(m, order, i, avail, availRest);
      }
    }
  }


  /** Entries wholly before the cut are in the table the loop leaves; `lost`
      is what the cut took off the end of the entries. */
  lemma {:induction false} LoadEntriesOfCut(m: BinaryTable, order: seq<u64>, data: seq<byte>, pos: nat, lost: seq<byte>, s: Scratch, t: BinaryTable)
    requires EntriesFit(m) && Distinct(order)
    requires forall i :: 0 <= i < |order| ==> order[i] in m && order[i] !in t
    requires pos <= |data| && lost != [] && data[pos..] + lost == EncodeEntries(m, order)
    ensures var res := LoadEntries(Reader(data, pos, true), |order|, s, t);
      && res.deleteFile
      && forall i :: 0 <= i < |order| && EntriesEnd(m, order, i) <= |data| - pos ==>
           order[i] in res.table && res.table[order[i]] == m[order[i]]
    decreases |order|, 1
  {
    var h := order[0];
    if |data| - pos < |EncodeEntry(h, m[h])| {
      LoadEntriesOfCutFirst(m, order, data, pos, lost, s, t);
      NoWholeEntry(m, order, |data| - pos);
    } else {
      LoadEntriesOfCutLater(m, order, data, pos, lost, s, t);
    }
  }

  /** The cut lies past the first entry: that entry is loaded whole, and the
      loop goes on over the rest of the entries, cut at the same place. */
  lemma {:induction false} LoadEntriesOfCutLater(m: BinaryTable, order: seq<u64>, data: seq<byte>, pos: nat, lost: seq<byte>, s: Scratch, t: BinaryTable)
    requires EntriesFit(m) && Distinct(order)
    requires forall i :: 0 <= i < |order| ==> order[i] in m && order[i] !in t
    requires pos <= |data| && lost != [] && data[pos..] + lost == EncodeEntries(m, order)
    requires |EncodeEntry(order[0], m[order[0]])| <= |data| - pos
    ensures var res := LoadEntries(Reader(data, pos, true), |order|, s, t);
      && res.deleteFile
      && forall i :: 0 <= i < |order| && EntriesEnd(m, order, i) <= |data| - pos ==>
           order[i] in res.table && res.table[order[i]] == m[order[i]]
    decreases |order|, 0
  {
    var h, rest := order[0], order[1..];
    var next := CutLoadFirst(h, m[h], EncodeEntries(m, rest), lost, data, pos, |order|, s, t);
    var sc, t' := Scratch(h, m[h].format, |m[h].binary|, m[h].binary), t[h := m[h]];
    TailFresh(order, m, t);
    LoadEntriesOfCut(m, rest, data, next, lost, sc, t');
    LoadEntriesKeeps(Reader(data, next, true), |rest|, sc, t');
    var tail := LoadEntries(Reader(data, next, true), |rest|, sc, t');
    WholeEntriesKept(m, order, |data| - pos, |data| - next, tail.table);
  }

  /** `a` followed by `lost` is `first` followed by `later`, and `a` is at
      least as long as `first`. */
  lemma SplitPrefix(a: seq<byte>, lost: seq<byte>, first: seq<byte>, later: seq<byte>)
    requires a + lost == first + later && |first| <= |a|
    ensures a == first + a[|first|..] && a[|first|..] + lost == later
  {
    assert a[..|first|] == (a + lost)[..|first|] == (first + later)[..|first|] == first;
    assert a == a[..|first|] + a[|first|..];
    assert (first + later)[|first|..] == later;
    assert (a + lost)[|first|..] == a[|first|..] + lost;
  }

  /** The loop's first pass when the cut lies past the first entry, `later`
      being the bytes written after it: the entry is loaded whole, and what
      is left is `later` less what the cut took. */
  lemma CutLoadFirst(h: u64, e: ProgramBinary, later: seq<byte>, lost: seq<byte>, data: seq<byte>, pos: nat, count: int, s: Scratch, t: BinaryTable)
      returns (next: nat)
    requires |e.binary| < U32_LIMIT && h !in t && count > 0
    requires pos <= |data| && |EncodeEntry(h, e)| <= |data| - pos
    requires data[pos..] + lost == EncodeEntry(h, e) + later
    ensures next <= |data| && |data| - next == |data| - pos - |EncodeEntry(h, e)|
    ensures data[next..] + lost == later
    ensures LoadEntries(Reader(data, pos, true), count, s, t)
         == LoadEntries(Reader(data, next, true), count - 1, Scratch(h, e.format, |e.binary|, e.binary), t[h := e])
  {
    var first := EncodeEntry(h, e);
    SplitPrefix(data[pos..], lost, first, later);
    next := LoadFirstEntry(h, e, data[pos..][|first|..], data, pos, count, s, t);
  }

  /** Index bookkeeping: an entry of `order` wholly before the cut, other
      than the first, is an entry of `order[1..]` wholly before the cut
      shifted past the first entry. */
  lemma ShiftWholeEntry(m: BinaryTable, order: seq<u64>, i: nat, avail: nat, availRest: nat)
    requires forall j :: 0 <= j < |order| ==> order[j] in m
    requires 1 <= i < |order| && EntriesEnd(m, order, i) <= avail
    requires availRest == avail - |EncodeEntry(order[0], m[order[0]])|
    ensures order[1..][i - 1] == order[i]
    ensures EntriesEnd(m, order[1..], i - 1) <= availRest
  {
    EncodeEntriesCons(m, order, i);
    assert order[1..][..i - 1 + 1] == order[1..][..i];
  }


  /** A pass that reads a whole hash field takes the entry's key from it. */
  lemma ReadEntryHashOfCut(data: seq<byte>, pos: nat, h: u64, s: Scratch)
    requires pos + 8 <= |data| && data[pos..pos + 8] == ToLE(h, 8)
    ensures ReadEntry(Reader(data, pos, true), s).scratch.hash == h
  {
    DecodeToLE64(h);
  }

  /** The first entry is cut after its hash field: the failing pass still
      emplaces an entry under the first key. */
  lemma LoadEntriesCutFirstKey(m: BinaryTable, order: seq<u64>, data: seq<byte>, pos: nat, lost: seq<byte>, s: Scratch, t: BinaryTable)
    requires EntriesFit(m) && order != []
    requires forall i :: 0 <= i < |order| ==> order[i] in m
    requires pos + 8 <= |data| && |data| - pos < |EncodeEntry(order[0], m[order[0]])|
    requires data[pos..] + lost == EncodeEntries(m, order)
    ensures order[0] in LoadEntries(Reader(data, pos, true), |order|, s, t).table
  {
    var h, avail := order[0], |data| - pos;
    var first, later := EncodeEntry(h, m[h]), EncodeEntries(m, order[1..]);
    assert data[pos..] == first[..avail] by {
      assert data[pos..] == (data[pos..] + lost)[..avail];
      assert (first + later)[..avail] == first[..avail];
    }
    assert data[pos..pos + 8] == ToLE(h, 8) by {
      assert data[pos..pos + 8] == data[pos..][..8] == first[..8];
    }
    ReadEntryOfCut(data, pos, h, m[h], s);
    ReadEntryHashOfCut(data, pos, h, s);
  }

  /** Where the record of order[i] starts in the encoded entries. */
  function EntryStart(m: BinaryTable, order: seq<u64>, i: nat): nat
    requires forall j :: 0 <= j < |order| ==> order[j] in m
    requires i <= |order|
  {
    |EncodeEntries(m, order[..i])|
  }

  /** A record after the first one starts past the whole first record. */
  lemma LaterEntryStart(m: BinaryTable, order: seq<u64>, i: nat)
    requires forall j :: 0 <= j < |order| ==> order[j] in m
    requires 0 < i < |order|
    ensures EntryStart(m, order, i)
         == |EncodeEntry(order[0], m[order[0]])| + EntryStart(m, order[1..], i - 1)
  {
    EncodeEntriesCons(m, order, i - 1);
    assert order[..i - 1 + 1] == order[..i];
  }

  /** Keys of the rest whose hash fields arrived, with the first key, are
      the keys of the whole order whose hash fields arrived. */
  lemma ArrivedKeysKept(m: BinaryTable, order: seq<u64>, avail: nat, availRest: nat, table: BinaryTable)
    requires forall j :: 0 <= j < |order| ==> order[j] in m
    requires order != [] && availRest == avail - |EncodeEntry(order[0], m[order[0]])|
    requires order[0] in table
    requires forall i :: 0 <= i < |order[1..]| && EntryStart(m, order[1..], i) + 8 <= availRest ==>
      order[1..][i] in table
    ensures forall i :: 0 <= i < |order| && EntryStart(m, order, i) + 8 <= avail ==> order[i] in table
  {
    forall i | 0 <= i < |order| && EntryStart(m, order, i) + 8 <= avail
      ensures order[i] in table
    {
      if i > 0 {
        LaterEntryStart(m, order, i);
        assert order[1..][i - 1] == order[i];
      }
    }
  }

  /** Cut inside the first record: only the first key can have arrived. */
  lemma LoadEntriesOfCutFirstKeys(m: BinaryTable, order: seq<u64>, data: seq<byte>, pos: nat, lost: seq<byte>, s: Scratch, t: BinaryTable)
    requires EntriesFit(m) && order != []
    requires forall i :: 0 <= i < |order| ==> order[i] in m
    requires pos <= |data| && |data| - pos < |EncodeEntry(order[0], m[order[0]])|
    requires data[pos..] + lost == EncodeEntries(m, order)
    ensures var res := LoadEntries(Reader(data, pos, true), |order|, s, t);
      forall i :: 0 <= i < |order| && EntryStart(m, order, i) + 8 <= |data| - pos ==> order[i] in res.table
  {
    if |data| - pos >= 8 {
      LoadEntriesCutFirstKey(m, order, data, pos, lost, s, t);
    }
    assert order[..0] == [];
  }

  /** Every key whose hash field lies wholly before the cut is in the table
      the loop leaves, the key of the failing pass included, whatever its
      format and binary were read as. */
  lemma {:induction false} LoadEntriesOfCutKeys(m: BinaryTable, order: seq<u64>, data: seq<byte>, pos: nat, lost: seq<byte>, s: Scratch, t: BinaryTable)
    requires EntriesFit(m) && Distinct(order)
    requires forall i :: 0 <= i < |order| ==> order[i] in m && order[i] !in t
    requires pos <= |data| && lost != [] && data[pos..] + lost == EncodeEntries(m, order)
    ensures var res := LoadEntries(Reader(data, pos, true), |order|, s, t);
      forall i :: 0 <= i < |order| && EntryStart(m, order, i) + 8 <= |data| - pos ==> order[i] in res.table
    decreases |order|, 1
  {
    var h := order[0];
    if |data| - pos < |EncodeEntry(h, m[h])| {
      LoadEntriesOfCutFirstKeys(m, order, data, pos, lost, s, t);
    } else {
      LoadEntriesOfCutLaterKeys(m, order, data, pos, lost, s, t);
    }
  }

  lemma {:induction false} LoadEntriesOfCutLaterKeys(m: BinaryTable, order: seq<u64>, data: seq<byte>, pos: nat, lost: seq<byte>, s: Scratch, t: BinaryTable)
    requires EntriesFit(m) && Distinct(order)
    requires forall i :: 0 <= i < |order| ==> order[i] in m && order[i] !in t
    requires pos <= |data| && lost != [] && data[pos..] + lost == EncodeEntries(m, order)
    requires |EncodeEntry(order[0], m[order[0]])| <= |data| - pos
    ensures var res := LoadEntries(Reader(data, pos, true), |order|, s, t);
      forall i :: 0 <= i < |order| && EntryStart(m, order, i) + 8 <= |data| - pos ==> order[i] in res.table
    decreases |order|, 0
  {
    var h, rest := order[0], order[1..];
    var next := CutLoadFirst(h, m[h], EncodeEntries(m, rest), lost, data, pos, |order|, s, t);
    var sc, t' := Scratch(h, m[h].format, |m[h].binary|, m[h].binary), t[h := m[h]];
    TailFresh(order, m, t);
    LoadEntriesOfCutKeys(m, rest, data, next, lost, sc, t');
    LoadEntriesKeeps(Reader(data, next, true), |rest|, sc, t');
    var tail := LoadEntries(Reader(data, next, true), |rest|, sc, t');
    ArrivedKeysKept(m, order, |data| - pos, |data| - next, tail.table);
  }

  /** A file cut short after its header is deleted by Load, and every entry
      that lies wholly before the cut has been loaded with its saved value.
      The entry the cut falls in is loaded too once its hash field is
      whole, with whatever its other fields were read as. */
  lemma LoadOfTruncatedImage(m: BinaryTable, order: seq<u64>, n: nat)
    requires IsEnumeration(order, m.Keys)
    requires |m| < 0x8000_0000 && EntriesFit(m)
    requires 8 <= n < |SaveImage(m, order)|
    ensures var res := LoadImage(SaveImage(m, order)[..n], map[]);
      && res.deleteFile
      && (forall i :: 0 <= i < |order| && 8 + EntriesEnd(m, order, i) <= n ==>
           order[i] in res.table && res.table[order[i]] == m[order[i]])
      && (forall i :: 0 <= i < |order| && 8 + EntryStart(m, order, i) + 8 <= n ==> order[i] in res.table)
  {
    var image := SaveImage(m, order);
    var header, entries := SaveHeader(m), EncodeEntries(m, order);
    var cut := image[..n];
    assert cut[..8] == header by {
      assert cut[..8] == image[..8] == (header + entries)[..8];
    }
    assert cut[8..] + image[n..] == entries by {
      assert image == cut + image[n..];
      assert image[8..] == entries;
      assert image[8..] == cut[8..] + image[n..];
    }
    LoadHeaderOfImage(m, cut, map[]);
    LoadEntriesOfCut(m, order, cut, 8, image[n..], FreshScratch, map[]);
    LoadEntriesOfCutKeys(m, order, cut, 8, image[n..], FreshScratch, map[]);
  }

  /** A pass whose hash, format and length fields are whole but whose binary
      is cut: the bytes that arrived overwrite the start of the resized
      binary, and the stream is left bad. */
  lemma ReadEntryOfBinaryCut(data: seq<byte>, pos: nat, s: Scratch, hb: seq<byte>, fb: seq<byte>, lb: seq<byte>, part: seq<byte>)
    requires |hb| == 8 && |fb| == 4 && |lb| == 4 && |part| < DecodeU32(lb)
    requires pos <= |data| && data[pos..] == hb + (fb + (lb + part))
    ensures ReadEntry(Reader(data, pos, true), s)
         == Step(Reader(data, |data|, false),
                 Scratch(DecodeU64(hb), DecodeU32(fb), DecodeU32(lb), Overlay(Resize(s.binary, DecodeU32(lb)), part)))
  {
    var r := Reader(data, pos, true);
    ReadIntoExact(data, pos, ToLE(s.hash, 8), hb, fb + (lb + part));
    var a := Read(Reader(data, pos + 8, true), hb);
    ReadIntoExact(data, pos + 8, ToLE(s.format, 4), fb, lb + part);
    var b := Read(Reader(data, pos + 12, true), fb);
    ReadIntoExact(data, pos + 12, ToLE(s.length, 4), lb, part);
    var c := Read(Reader(data, pos + 16, true), lb);
    var bin := Resize(s.binary, DecodeU32(lb));
    ReadIntoShort(data, pos + 16, true, bin);
    var d := Read(Reader(data, |data|, false), Overlay(bin, part));
    ReadEntryReads(r, s, a, b, c, d);
  }

  /** The entries of a one-key order are that key's record. */
  lemma EncodeEntriesOne(m: BinaryTable, h: u64)
    requires h in m
    ensures EncodeEntries(m, [h]) == EncodeEntry(h, m[h])
  {
    assert [h][1..] == [];
  }

  /** A record whose binary fits its length field, field by field. */
  lemma EncodeEntryFields(h: u64, e: ProgramBinary)
    requires |e.binary| < U32_LIMIT
    ensures EncodeEntry(h, e) == ToLE(h, 8) + (ToLE(e.format, 4) + (ToLE(|e.binary|, 4) + e.binary))
  {
    ModSmall(|e.binary|);
    assert e.binary[..|e.binary|] == e.binary;
  }

  /** The image of a table of one entry, field by field. */
  lemma SaveImageOfOne(h: u64, e: ProgramBinary)
    requires |e.binary| < U32_LIMIT
    ensures SaveImage(map[h := e], [h])
         == SaveHeader(map[h := e]) + (ToLE(h, 8) + (ToLE(e.format, 4) + (ToLE(|e.binary|, 4) + e.binary)))
  {
    EncodeEntriesOne(map[h := e], h);
    EncodeEntryFields(h, e);
  }

  /** Cutting a header and one record `k` bytes into its binary. */
  lemma CutOfFields(header: seq<byte>, hb: seq<byte>, fb: seq<byte>, lb: seq<byte>, bin: seq<byte>, k: nat)
    requires |header| == 8 && |hb| == 8 && |fb| == 4 && |lb| == 4 && k <= |bin|
    ensures var cut := (header + (hb + (fb + (lb + bin))))[..24 + k];
      cut[..8] == header && cut[8..] == hb + (fb + (lb + bin[..k]))
  {
  }

  /** Where the fields lie in a one-entry image cut `k` bytes into its binary. */
  lemma CutInBinaryLayout(h: u64, e: ProgramBinary, k: nat)
    requires k < |e.binary| < U32_LIMIT
    ensures |SaveImage(map[h := e], [h])| == 24 + |e.binary|
    ensures var cut := SaveImage(map[h := e], [h])[..24 + k];
      && cut[..8] == SaveHeader(map[h := e])
      && cut[8..] == ToLE(h, 8) + (ToLE(e.format, 4) + (ToLE(|e.binary|, 4) + e.binary[..k]))
  {
    SaveImageOfOne(h, e);
    CutOfFields(SaveHeader(map[h := e]), ToLE(h, 8), ToLE(e.format, 4), ToLE(|e.binary|, 4), e.binary, k);
  }

  /** A header for one entry followed by a record cut inside its binary
      loads that one record and deletes the file. */
  lemma LoadOfOneCutRecord(m: BinaryTable, cut: seq<byte>, hb: seq<byte>, fb: seq<byte>, lb: seq<byte>, part: seq<byte>)
    requires |m| == 1 && |cut| >= 8 && cut[..8] == SaveHeader(m)
    requires |hb| == 8 && |fb| == 4 && |lb| == 4 && |part| < DecodeU32(lb)
    requires cut[8..] == hb + (fb + (lb + part))
    ensures LoadImage(cut, map[])
         == LoadResult(map[DecodeU64(hb) := ProgramBinary(DecodeU32(fb), Overlay(Resize([], DecodeU32(lb)), part))], true)
  {
    LoadHeaderOfImage(m, cut, map[]);
    ReadEntryOfBinaryCut(cut, 8, FreshScratch, hb, fb, lb, part);
    var sc := Scratch(DecodeU64(hb), DecodeU32(fb), DecodeU32(lb), Overlay(Resize([], DecodeU32(lb)), part));
    LoadEntriesPass(Reader(cut, 8, true), 0, FreshScratch, map[], Reader(cut, |cut|, false), sc,
                    map[sc.hash := ProgramBinary(sc.format, sc.binary)]);
  }

  /** A file of one entry cut inside its binary: the entry is loaded under
      its own key and format, with the bytes that arrived followed by zeroes
      where the rest was missing, and then the file is deleted. */
  lemma SingleEntryCutInBinary(h: u64, e: ProgramBinary, k: nat)
    requires k < |e.binary| < U32_LIMIT
    ensures |SaveImage(map[h := e], [h])| == 24 + |e.binary|
    ensures LoadImage(SaveImage(map[h := e], [h])[..24 + k], map[])
         == LoadResult(map[h := ProgramBinary(e.format, e.binary[..k] + seq(|e.binary| - k, _ => 0))], true)
  {
    var m := map[h := e];
    CutInBinaryLayout(h, e, k);
    var cut := SaveImage(m, [h])[..24 + k];
    DecodeToLE64(h);
    DecodeToLE32(e.format);
    DecodeToLE32(|e.binary|);
    assert |m| == 1;
    LoadOfOneCutRecord(m, cut, ToLE(h, 8), ToLE(e.format, 4), ToLE(|e.binary|, 4), e.binary[..k]);
    assert Overlay(Resize([], |e.binary|), e.binary[..k]) == e.binary[..k] + seq(|e.binary| - k, _ => 0);
  }

  /** The entries of a two-key order are the two records one after the other. */
  lemma EncodeEntriesTwo(m: BinaryTable, h1: u64, h2: u64)
    requires h1 in m && h2 in m
    ensures EncodeEntries(m, [h1, h2]) == EncodeEntry(h1, m[h1]) + EncodeEntry(h2, m[h2])
  {
    assert [h1, h2][1..] == [h2];
    EncodeEntriesOne(m, h2);
  }

  /** Cutting a header, a whole record and a second record `k` bytes into
      its binary. */
  lemma CutOfSecondFields(header: seq<byte>, first: seq<byte>, hb: seq<byte>, fb: seq<byte>, lb: seq<byte>, bin: seq<byte>, k: nat)
    requires |header| == 8 && |hb| == 8 && |fb| == 4 && |lb| == 4 && k <= |bin|
    ensures var cut := (header + (first + (hb + (fb + (lb + bin)))))[..24 + |first| + k];
      cut[..8] == header && cut[8..] == first + (hb + (fb + (lb + bin[..k])))
  {
  }

  /** Where the fields lie in a two-entry image cut `k` bytes into the
      second binary. */
  lemma TwoEntryCutLayout(h1: u64, e1: ProgramBinary, h2: u64, e2: ProgramBinary, k: nat)
    requires h1 != h2 && |e1.binary| < U32_LIMIT && k < |e2.binary| < U32_LIMIT
    ensures |SaveImage(map[h1 := e1, h2 := e2], [h1, h2])| == 40 + |e1.binary| + |e2.binary|
    ensures var cut := SaveImage(map[h1 := e1, h2 := e2], [h1, h2])[..40 + |e1.binary| + k];
      && cut[..8] == SaveHeader(map[h1 := e1, h2 := e2])
      && cut[8..] == EncodeEntry(h1, e1) + (ToLE(h2, 8) + (ToLE(e2.format, 4) + (ToLE(|e2.binary|, 4) + e2.binary[..k])))
  {
    var m := map[h1 := e1, h2 := e2];
    assert m[h1] == e1 && m[h2] == e2;
    EncodeEntriesTwo(m, h1, h2);
    EncodeEntryFields(h1, e1);
    EncodeEntryFields(h2, e2);
    CutOfSecondFields(SaveHeader(m), EncodeEntry(h1, e1), ToLE(h2, 8), ToLE(e2.format, 4), ToLE(|e2.binary|, 4), e2.binary, k);
  }

  /** The last pass of the loop over a record cut inside its binary emplaces
      the record with the bytes that arrived over the front of the resized
      `binary`, and ends the load with the file deleted. */
  lemma LoadLastCutRecord(data: seq<byte>, pos: nat, s: Scratch, t: BinaryTable, hb: seq<byte>, fb: seq<byte>, lb: seq<byte>, part: seq<byte>)
    requires |hb| == 8 && |fb| == 4 && |lb| == 4 && |part| < DecodeU32(lb)
    requires pos <= |data| && data[pos..] == hb + (fb + (lb + part))
    ensures LoadEntries(Reader(data, pos, true), 1, s, t)
         == LoadResult(Emplace(t, DecodeU64(hb), ProgramBinary(DecodeU32(fb), Overlay(Resize(s.binary, DecodeU32(lb)), part))), true)
  {
    ReadEntryOfBinaryCut(data, pos, s, hb, fb, lb, part);
    var sc := Scratch(DecodeU64(hb), DecodeU32(fb), DecodeU32(lb), Overlay(Resize(s.binary, DecodeU32(lb)), part));
    LoadEntriesPass(Reader(data, pos, true), 0, s, t, Reader(data, |data|, false), sc,
                    Emplace(t, sc.hash, ProgramBinary(sc.format, sc.binary)));
  }

  /** A header for two entries followed by a whole record: Load emplaces
      that record and runs one more pass from the loop variables it read. */
  lemma LoadAfterFirstRecord(m: BinaryTable, cut: seq<byte>, h1: u64, e1: ProgramBinary, rest: seq<byte>)
      returns (next: nat)
    requires |m| == 2 && |cut| >= 8 && cut[..8] == SaveHeader(m) && |e1.binary| < U32_LIMIT
    requires cut[8..] == EncodeEntry(h1, e1) + rest
    ensures next <= |cut| && cut[next..] == rest
    ensures LoadImage(cut, map[])
         == LoadEntries(Reader(cut, next, true), 1, Scratch(h1, e1.format, |e1.binary|, e1.binary), map[h1 := e1])
  {
    LoadHeaderOfImage(m, cut, map[]);
    next := LoadFirstEntry(h1, e1, rest, cut, 8, |m|, FreshScratch, map[]);
    assert map[][h1 := e1] == map[h1 := e1];
  }

  /** A header for two entries, one whole record and a second record cut
      inside its binary: the first record is loaded, then the second with
      the bytes that arrived over the front of the first record's binary
      resized to the second's length, and the file is deleted. */
  lemma LoadOfSecondCutRecord(m: BinaryTable, cut: seq<byte>, h1: u64, e1: ProgramBinary, hb: seq<byte>, fb: seq<byte>, lb: seq<byte>, part: seq<byte>)
    requires |m| == 2 && |cut| >= 8 && cut[..8] == SaveHeader(m) && |e1.binary| < U32_LIMIT
    requires |hb| == 8 && |fb| == 4 && |lb| == 4 && |part| < DecodeU32(lb) && DecodeU64(hb) != h1
    requires cut[8..] == EncodeEntry(h1, e1) + (hb + (fb + (lb + part)))
    ensures LoadImage(cut, map[])
         == LoadResult(map[h1 := e1][DecodeU64(hb) := ProgramBinary(DecodeU32(fb), Overlay(Resize(e1.binary, DecodeU32(lb)), part))], true)
  {
    var next := LoadAfterFirstRecord(m, cut, h1, e1, hb + (fb + (lb + part)));
    LoadLastCutRecord(cut, next, Scratch(h1, e1.format, |e1.binary|, e1.binary), map[h1 := e1], hb, fb, lb, part);
  }

  /** A file of two entries cut `k` bytes into the second binary: the first
      entry is loaded whole, and the second under its own key and format.
      Its binary holds the `k` bytes that arrived, then the first binary's
      bytes at the same positions, left in `binary` from the pass before,
      then zeros. The file is deleted. */
  lemma TwoEntryCutInBinary(h1: u64, e1: ProgramBinary, h2: u64, e2: ProgramBinary, k: nat)
    requires h1 != h2 && |e1.binary| < U32_LIMIT && k < |e2.binary| < U32_LIMIT
    ensures |SaveImage(map[h1 := e1, h2 := e2], [h1, h2])| == 40 + |e1.binary| + |e2.binary|
    ensures var res := LoadImage(SaveImage(map[h1 := e1, h2 := e2], [h1, h2])[..40 + |e1.binary| + k], map[]);
      && res.deleteFile && res.table.Keys == {h1, h2} && res.table[h1] == e1
      && res.table[h2].format == e2.format && |res.table[h2].binary| == |e2.binary|
      && forall i :: 0 <= i < |e2.binary| ==>
           res.table[h2].binary[i] == (if i < k then e2.binary[i] else if i < |e1.binary| then e1.binary[i] else 0)
  {
    var m := map[h1 := e1, h2 := e2];
    TwoEntryCutLayout(h1, e1, h2, e2, k);
    var cut := SaveImage(m, [h1, h2])[..40 + |e1.binary| + k];
    DecodeToLE64(h2);
    DecodeToLE32(e2.format);
    DecodeToLE32(|e2.binary|);
    assert |m| == 2;
    LoadOfSecondCutRecord(m, cut, h1, e1, ToLE(h2, 8), ToLE(e2.format, 4), ToLE(|e2.binary|, 4), e2.binary[..k]);
  }


  // ------------------------------------------- a file cut inside its header

  // Load checks the stream only inside its loop, so the two header reads
  // never delete the file by themselves: a short read leaves the rest of
  // the variable at the 0 it was initialised with.

  /** A read from an exhausted stream delivers nothing: the variable keeps
      its bytes, and the stream stays good only for an empty variable. */
  lemma ReadIntoAtEnd(data: seq<byte>, good: bool, prev: seq<byte>)
    ensures ReadInto(Reader(data, |data|, good), prev) == Read(Reader(data, |data|, good && prev == []), prev)
  {
    assert data[|data|..|data|] == [];
    assert Overlay(prev, []) == prev;
  }

  /** The loop's first pass on an exhausted stream reads nothing: the
      variables keep the zeros the model starts them with, and the stream
      turns bad. */
  lemma ReadEntryAtEnd(data: seq<byte>, good: bool)
    ensures ReadEntry(Reader(data, |data|, good), FreshScratch) == Step(Reader(data, |data|, false), FreshScratch)
  {
    var r := Reader(data, |data|, good);
    var a := ReadInto(r, ToLE(0, 8));
    ReadIntoAtEnd(data, good, ToLE(0, 8));
    var b := ReadInto(a.reader, ToLE(0, 4));
    ReadIntoAtEnd(data, false, ToLE(0, 4));
    var c := ReadInto(b.reader, ToLE(0, 4));
    DecodeToLE64(0);
    DecodeToLE32(0);
    assert Resize([], DecodeU32(c.bytes)) == [];
    var d := ReadInto(c.reader, []);
    ReadIntoAtEnd(data, false, []);
    ReadEntryReads(r, FreshScratch, a, b, c, d);
  }

  /** A read that runs into the end of the file delivers what is left over
      the start of the variable and leaves the stream bad. */
  lemma ReadIntoShort(data: seq<byte>, pos: nat, good: bool, prev: seq<byte>)
    requires pos <= |data| && |data| - pos < |prev|
    ensures ReadInto(Reader(data, pos, good), prev) == Read(Reader(data, |data|, false), Overlay(prev, data[pos..]))
  {
    assert data[pos..|data|] == data[pos..];
  }

  /** A file shorter than its version field: the bytes present, read as a
      number, are compared with the version. An empty file is deleted; a
      cut-short version 0x2 passes, the count reads as 0, and the file is
      kept with nothing loaded. */
  lemma LoadOfCutVersion(image: seq<byte>, t: BinaryTable)
    requires |image| < 4
    ensures FromLE(image) != PROGRAM_CACHE_VERSION ==> LoadImage(image, t) == LoadResult(t, true)
    ensures FromLE(image) == PROGRAM_CACHE_VERSION ==> LoadImage(image, t) == LoadResult(t, false)
  {
    var v := ReadInto(Reader(image, 0, true), ToLE(0, 4));
    ReadIntoShort(image, 0, true, ToLE(0, 4));
    assert image[0..] == image;
    OverlayZeros(image, 4);
    var c := ReadInto(v.reader, ToLE(0, 4));
    ReadIntoAtEnd(image, false, ToLE(0, 4));
    DecodeToLE32(0);
    LoadImageReads(image, t, v, c);
  }

  /** A file cut inside its count field, after a whole version 0x2: a count
      that reads as 0 keeps the file and loads nothing; any other count runs
      one pass of the loop on the exhausted stream, which emplaces the loop
      variables as they were before the file is deleted. Those variables are
      uninitialised in the code; here they start at hash 0, format 0 and no
      bytes. */
  lemma LoadOfCutCount(image: seq<byte>, t: BinaryTable)
    requires 4 <= |image| < 8 && DecodeU32(image[..4]) == PROGRAM_CACHE_VERSION
    ensures FromLE(image[4..]) == 0 ==> LoadImage(image, t) == LoadResult(t, false)
    ensures FromLE(image[4..]) != 0 ==>
      LoadImage(image, t) == LoadResult(Emplace(t, 0, ProgramBinary(0, [])), true)
  {
    var v := ReadInto(Reader(image, 0, true), ToLE(0, 4));
    ReadIntoExact(image, 0, ToLE(0, 4), image[..4], image[4..]);
    assert image[0..] == image[..4] + image[4..];
    var c := ReadInto(v.reader, ToLE(0, 4));
    ReadIntoShort(image, 4, true, ToLE(0, 4));
    OverlayZeros(image[4..], 4);
    ShortFieldBound(image[4..]);
    var count := AsS32(DecodeU32(c.bytes));
    assert count == FromLE(image[4..]);
    LoadImageReads(image, t, v, c);
    ReadEntryAtEnd(image, false);
  }

  /** The first bytes of every saved image are those of its header. */
  lemma SaveImageStart(t: BinaryTable, order: seq<u64>, n: nat)
    requires forall i :: 0 <= i < |order| ==> order[i] in t
    requires n <= 8
    ensures SaveImage(t, order)[..n] == SaveHeader(t)[..n]
  {
  }

  /** A single-entry image cut to 3 bytes is kept and loads nothing. */
  lemma SingleEntryCutInVersion(h: u64, e: ProgramBinary)
    ensures LoadImage(SaveImage(map[h := e], [h])[..3], map[]) == LoadResult(map[], false)
  {
    var cut := SaveImage(map[h := e], [h])[..3];
    SaveImageStart(map[h := e], [h], 3);
    assert cut == [2, 0, 0] && cut[1..] == [0, 0];
    FromLEZeros(cut[1..]);
    assert FromLE(cut) == 2;
    LoadOfCutVersion(cut, map[]);
  }

  /** A single-entry image cut to 5 bytes is deleted, after a bogus entry
      was loaded from the loop variables, which start at 0 here. */
  lemma SingleEntryCutInCount(h: u64, e: ProgramBinary)
    ensures LoadImage(SaveImage(map[h := e], [h])[..5], map[]) == LoadResult(map[0 := ProgramBinary(0, [])], true)
  {
    var cut := SaveImage(map[h := e], [h])[..5];
    SaveImageStart(map[h := e], [h], 5);
    assert |map[h := e]| == 1;
    assert cut == [2, 0, 0, 0, 1];
    assert cut[..4] == ToLE(PROGRAM_CACHE_VERSION, 4) && cut[4..] == [1];
    DecodeToLE32(PROGRAM_CACHE_VERSION);
    LoadOfCutCount(cut, map[]);
  }

  // ------------------------------------------------- Save, then Load, on disk

  /** A table saved to a disk with room for its image is read back whole by
      the next Load, and the file stays. */
  lemma SaveThenLoad(before: FileState, m: BinaryTable, order: seq<u64>, capacity: nat)
    requires IsEnumeration(order, m.Keys)
    requires |m| < 0x8000_0000 && EntriesFit(m)
    requires |SaveImage(m, order)| <= capacity
    ensures AfterLoad(AfterSave(before, m, order, true, capacity), map[]) == (FileState(true, SaveImage(m, order)), m)
  {
    SaveLoadRoundTrip(m, order);
  }

  /** A non-empty table that does not fit leaves no file, so the next Load
      starts from an empty table. */
  lemma SaveOverflowThenLoad(before: FileState, m: BinaryTable, order: seq<u64>, capacity: nat)
    requires IsEnumeration(order, m.Keys) && m != map[]
    requires |SaveImage(m, order)| > capacity
    ensures AfterLoad(AfterSave(before, m, order, true, capacity), map[]) == (FileState(false, []), map[])
  {
    assert order != [] by {
      var k :| k in m;
      assert k in order;
    }
  }

  /** The image of a table with a single entry, and what Load makes of it. */
  lemma SingleEntryRoundTrip(h: u64, e: ProgramBinary)
    requires |e.binary| < U32_LIMIT
    ensures IsEnumeration([h], map[h := e].Keys)
    ensures |SaveImage(map[h := e], [h])| == 24 + |e.binary|
    ensures LoadImage(SaveImage(map[h := e], [h]), map[]) == LoadResult(map[h := e], false)
  {
    var m := map[h := e];
    assert IsEnumeration([h], m.Keys);
    assert EncodeEntries(m, [h]) == EncodeEntry(h, e) + EncodeEntries(m, []) by {
      assert [h][1..] == [];
    }
    ModSmall(|e.binary|);
    assert |EncodeEntry(h, e)| == 16 + |e.binary|;
    SaveLoadRoundTrip(m, [h]);
  }
}
