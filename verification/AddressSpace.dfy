/** Byte-addressed memory made of slices (address_space.c), on a little-endian host. */
module AddressSpace {
  import opened Bytes
  import opened Options
  import Bits

  const MAX_ADDRESS_SLICES := 4

  // ----- memory as a value

  /** What a slice covers and holds; data[k] is the byte at address begin + k. The end of a region that
      reaches the end of the address space wraps below its begin. */
  datatype Region = Region(begin: word, end: word, readOnly: bool, data: seq<byte>)

  type Memory = seq<Region>

  ghost predicate WellFormed(m: Memory) {
    forall i :: 0 <= i < |m| ==> m[i].begin <= m[i].end ==> |m[i].data| == m[i].end - m[i].begin
  }

  /** The slice test of the source, with the wrap-around of its unsigned arithmetic. */
  predicate Covers(r: Region, address: word, length: nat) {
    address >= r.begin && Wrap(address + length - 1) < r.end
  }

  /** The first slice that covers the access. */
  function Find(m: Memory, address: word, length: nat): Option<nat> {
    FindFrom(m, address, length, 0)
  }

  function FindFrom(m: Memory, address: word, length: nat, i: nat): (r: Option<nat>)
    ensures r.Some? ==> i <= r.value < |m| && Covers(m[r.value], address, length)
    decreases |m| - i
  {
    if i >= |m| then None else if Covers(m[i], address, length) then Some(i) else FindFrom(m, address, length, i + 1)
  }

  /** Whether the access reaches a slice. An access that wraps past the end of the address space
      leaves the slice it starts in: the C code has no defined behaviour for it, and here it finds
      nothing. */
  function Target(m: Memory, address: word, length: nat): Option<nat> {
    if address + length <= 0x1_0000_0000 && length > 0 then Find(m, address, length) else None
  }

  lemma TargetInside(m: Memory, address: word, length: nat)
    requires WellFormed(m) && Target(m, address, length).Some?
    ensures var i := Target(m, address, length).value;
      i < |m| && m[i].begin <= address && address + length <= m[i].end && address - m[i].begin + length <= |m[i].data|
  {
  }

  function Read(m: Memory, address: word, length: nat): nat
    requires WellFormed(m)
  {
    match Target(m, address, length)
    case None => 0
    case Some(i) =>
      TargetInside(m, address, length);
      FromLittleEndian(m[i].data[address - m[i].begin..][..length])
  }

  function Put(data: seq<byte>, offset: nat, bytes: seq<byte>): (r: seq<byte>)
    requires offset + |bytes| <= |data|
    ensures |r| == |data|
  {
    data[..offset] + bytes + data[offset + |bytes|..]
  }

  function PutBytes(m: Memory, i: nat, address: word, bytes: seq<byte>): Memory
    requires i < |m| && m[i].begin <= address && address - m[i].begin + |bytes| <= |m[i].data|
  {
    m[i := m[i].(data := Put(m[i].data, address - m[i].begin, bytes))]
  }

  /** Reads of unmapped memory give 0; writes to unmapped or read-only memory change nothing. */
  function Write(m: Memory, address: word, length: nat, value: word): Memory
    requires WellFormed(m)
  {
    match Target(m, address, length)
    case None => m
    case Some(i) =>
      TargetInside(m, address, length);
      if m[i].readOnly then m else PutBytes(m, i, address, LittleEndian(value, length))
  }

  // ----- what writing keeps

  ghost predicate SameLayout(m: Memory, n: Memory) {
    && |m| == |n|
    && forall i :: 0 <= i < |m| ==>
         m[i].begin == n[i].begin && m[i].end == n[i].end && m[i].readOnly == n[i].readOnly
  }

  ghost predicate ReadOnlyKept(m: Memory, n: Memory) {
    SameLayout(m, n) && forall i :: 0 <= i < |m| && m[i].readOnly ==> n[i].data == m[i].data
  }

  lemma WriteKeeps(m: Memory, address: word, length: nat, value: word)
    requires WellFormed(m)
    ensures var n := Write(m, address, length, value); WellFormed(n) && ReadOnlyKept(m, n)
  {
    if Target(m, address, length).Some? { TargetInside(m, address, length); }
  }

  lemma {:induction false} FindLayout(m: Memory, n: Memory, address: word, length: nat, i: nat)
    requires SameLayout(m, n)
    ensures FindFrom(m, address, length, i) == FindFrom(n, address, length, i)
    decreases |m| - i
  {
    if i < |m| { FindLayout(m, n, address, length, i + 1); }
  }

  lemma TargetLayout(m: Memory, n: Memory, address: word, length: nat)
    requires SameLayout(m, n)
    ensures Target(m, address, length) == Target(n, address, length)
  {
    FindLayout(m, n, address, length, 0);
  }

  // ----- refinement of a flat byte map

  ghost predicate Disjoint(m: Memory) {
    forall i, j :: 0 <= i < j < |m| ==> m[i].end <= m[j].begin || m[j].end <= m[i].begin
  }

  lemma DisjointLayout(m: Memory, n: Memory)
    requires SameLayout(m, n) && Disjoint(m)
    ensures Disjoint(n)
  {
  }

  /** The byte at an address, if a slice holds it. */
  function ByteAt(m: Memory, a: word): Option<byte>
    requires WellFormed(m)
  {
    match Target(m, a, 1)
    case None => None
    case Some(i) =>
      TargetInside(m, a, 1);
      Some(m[i].data[a - m[i].begin])
  }

  lemma {:induction false} FindUnique(m: Memory, address: word, length: nat, i: nat, from: nat)
    requires WellFormed(m) && Disjoint(m) && from <= i < |m|
    requires length > 0 && m[i].begin <= address && address + length <= m[i].end
    ensures FindFrom(m, address, length, from) == Some(i)
    decreases i - from
  {
    if from < i {
      FindUnique(m, address, length, i, from + 1);
    }
  }

  /** In disjoint slices an access that lies in slice i targets slice i. */
  lemma TargetUnique(m: Memory, address: word, length: nat, i: nat)
    requires WellFormed(m) && Disjoint(m) && i < |m|
    requires length > 0 && m[i].begin <= address && address + length <= m[i].end
    ensures Target(m, address, length) == Some(i)
  {
    FindUnique(m, address, length, i, 0);
  }

  /** A read that reaches a slice is the little-endian number of the flat bytes. */
  lemma ReadIsFlat(m: Memory, address: word, bytes: seq<byte>)
    requires WellFormed(m) && Disjoint(m) && Target(m, address, |bytes|).Some?
    requires forall k :: 0 <= k < |bytes| && address + k < 0x1_0000_0000 ==> ByteAt(m, address + k) == Some(bytes[k])
    ensures Read(m, address, |bytes|) == FromLittleEndian(bytes)
  {
    var i := Target(m, address, |bytes|).value;
    TargetInside(m, address, |bytes|);
    var stored := m[i].data[address - m[i].begin..][..|bytes|];
    forall k | 0 <= k < |bytes| ensures stored[k] == bytes[k] {
      TargetUnique(m, address + k, 1, i);
      assert ByteAt(m, address + k) == Some(bytes[k]);
    }
    assert stored == bytes;
  }

  /** Whether a write takes effect; only the layout decides. */
  predicate Effective(m: Memory, address: word, length: nat) {
    Target(m, address, length).Some? && !m[Target(m, address, length).value].readOnly
  }

  /** A write changes exactly the bytes it names, to the bytes of the value. */
  lemma WriteIsFlat(m: Memory, address: word, length: nat, value: word, a: word)
    requires WellFormed(m) && Disjoint(m)
    ensures WellFormed(Write(m, address, length, value))
    ensures ByteAt(Write(m, address, length, value), a) ==
      if Effective(m, address, length) && address <= a < address + length
      then Some(LittleEndian(value, length)[a - address]) else ByteAt(m, a)
  {
    hide LittleEndian, FindFrom;
    WriteKeeps(m, address, length, value);
    if Effective(m, address, length) {
      TargetInside(m, address, length);
      PutIsFlat(m, Target(m, address, length).value, address, LittleEndian(value, length), a);
    }
  }

  lemma PutIsFlat(m: Memory, i: nat, address: word, bytes: seq<byte>, a: word)
    requires WellFormed(m) && Disjoint(m)
    requires i < |m| && m[i].begin <= address && address + |bytes| <= m[i].end
    ensures WellFormed(PutBytes(m, i, address, bytes))
    ensures ByteAt(PutBytes(m, i, address, bytes), a) ==
      if address <= a < address + |bytes| then Some(bytes[a - address]) else ByteAt(m, a)
  {
    hide FindFrom;
    var n := PutBytes(m, i, address, bytes);
    TargetLayout(m, n, a, 1);
    if address <= a < address + |bytes| { TargetUnique(m, a, 1, i); }
    if Target(m, a, 1).Some? { TargetInside(m, a, 1); }
  }

  datatype Access = Access(address: word, length: nat, value: word)

  function WriteAll(m: Memory, log: seq<Access>): (n: Memory)
    requires WellFormed(m)
    ensures WellFormed(n) && ReadOnlyKept(m, n)
  {
    if log == [] then m
    else
      var (before, w) := (WriteAll(m, log[..|log| - 1]), log[|log| - 1]);
      WriteKeeps(before, w.address, w.length, w.value);
      Write(before, w.address, w.length, w.value)
  }

  /** The byte the last effective write of the log left at a, or the initial one. */
  function LastWritten(m: Memory, log: seq<Access>, a: word): Option<byte>
    requires WellFormed(m)
  {
    if log == [] then ByteAt(m, a)
    else
      var w := log[|log| - 1];
      if Effective(m, w.address, w.length) && w.address <= a < w.address + w.length
      then Some(LittleEndian(w.value, w.length)[a - w.address])
      else LastWritten(m, log[..|log| - 1], a)
  }

  lemma {:induction false} MemoryIsLastWritten(m: Memory, log: seq<Access>, a: word)
    requires WellFormed(m) && Disjoint(m)
    ensures ByteAt(WriteAll(m, log), a) == LastWritten(m, log, a)
  {
    if log != [] {
      var (before, w) := (WriteAll(m, log[..|log| - 1]), log[|log| - 1]);
      MemoryIsLastWritten(m, log[..|log| - 1], a);
      TargetLayout(m, before, w.address, w.length);
      DisjointLayout(m, before);
      WriteIsFlat(before, w.address, w.length, w.value, a);
    }
  }

  /** A read of any width after any mix of 8, 16 and 32-bit writes gives the bytes last written. */
  lemma ReadAfterWrites(m: Memory, log: seq<Access>, address: word, bytes: seq<byte>)
    requires WellFormed(m) && Disjoint(m) && Target(m, address, |bytes|).Some?
    requires forall k :: 0 <= k < |bytes| && address + k < 0x1_0000_0000 ==>
      LastWritten(m, log, address + k) == Some(bytes[k])
    ensures Read(WriteAll(m, log), address, |bytes|) == FromLittleEndian(bytes)
  {
    var n := WriteAll(m, log);
    TargetLayout(m, n, address, |bytes|);
    DisjointLayout(m, n);
    forall k | 0 <= k < |bytes| && address + k < 0x1_0000_0000 ensures ByteAt(n, address + k) == Some(bytes[k]) {
      MemoryIsLastWritten(m, log, address + k);
    }
    ReadIsFlat(n, address, bytes);
  }

  /** 256 to the power of n. */
  function ByteRange(n: nat): (r: nat)
    ensures r > 0
  {
    if n == 0 then 1 else 256 * ByteRange(n - 1)
  }

  lemma {:induction false} CutToBytes(x: nat, n: nat)
    ensures FromLittleEndian(LittleEndian(x, n)) == x % ByteRange(n)
  {
    if n > 0 {
      CutToBytes(x / 256, n - 1);
      ByteAtATime(x, n - 1);
      SplitModulus(x, ByteRange(n - 1));
    }
  }

  lemma SplitModulus(x: nat, r: nat)
    requires r > 0
    ensures x % (256 * r) == x % 256 + 256 * (x / 256 % r)
  {
    var (q, low, high) := (x / 256 / r, x % 256, x / 256 % r);
    assert x / 256 == r * q + high;
    assert x == (256 * r) * q + (low + 256 * high) by {
      assert 256 * (r * q) == (256 * r) * q;
    }
    assert low + 256 * high < 256 * r;
    Bits.Quotient(x, 256 * r, q, low + 256 * high);
  }

  /** What was stored is loaded again, cut to the width of the access. */
  lemma ReadAfterWrite(m: Memory, address: word, length: nat, value: word)
    requires WellFormed(m) && Disjoint(m) && Effective(m, address, length)
    ensures WellFormed(Write(m, address, length, value))
    ensures Read(Write(m, address, length, value), address, length) == value % ByteRange(length)
  {
    hide LittleEndian, FromLittleEndian, FindFrom, ByteAt, Write;
    var (n, bytes) := (Write(m, address, length, value), LittleEndian(value, length));
    WriteKeeps(m, address, length, value);
    TargetLayout(m, n, address, length);
    DisjointLayout(m, n);
    forall k | 0 <= k < length && address + k < 0x1_0000_0000 ensures ByteAt(n, address + k) == Some(bytes[k]) {
      WriteIsFlat(m, address, length, value, address + k);
    }
    ReadIsFlat(n, address, bytes);
    CutToBytes(value, length);
  }

  /** The region that `addrspace_add_region` makes. */
  function Added(start: word, length: word, readOnly: bool, data: seq<byte>): Region {
    Region(start, Wrap(start + length), readOnly, data)
  }

  /** An added region serves the accesses that lie in it, unless it reaches the end of the address space:
      then it serves none. */
  lemma AddedServesIff(start: word, length: word, readOnly: bool, data: seq<byte>, address: word, width: nat)
    requires width > 0 && |data| == length
    ensures Target([Added(start, length, readOnly, data)], address, width).Some? <==>
      start <= address && address + width <= start + length < 0x1_0000_0000
  {
    assert FindFrom([Added(start, length, readOnly, data)], address, width, 1) == None;
  }

  // ----- the objects

  datatype Slice = Slice(begin: word, end: word, data: array<byte>, readOnly: bool, shadowMapping: bool, name: string)

  class AddrSpace {
    var slices: seq<Slice>

    constructor ()
      ensures slices == [] && Valid() && Contents() == []
    {
      slices := [];
    }

    ghost function Buffers(): set<array<byte>>
      reads this
    {
      set i | 0 <= i < |slices| :: slices[i].data
    }

    /** Only read-only slices share a buffer. */
    ghost predicate Valid()
      reads this
    {
      && |slices| <= MAX_ADDRESS_SLICES
      && (forall i :: 0 <= i < |slices| ==>
            slices[i].begin <= slices[i].end ==> slices[i].data.Length == slices[i].end - slices[i].begin)
      && (forall i, j :: 0 <= i < j < |slices| && slices[i].data == slices[j].data ==>
            slices[i].readOnly && slices[j].readOnly)
    }

    ghost function Contents(): (m: Memory)
      requires Valid()
      reads this, Buffers()
      ensures WellFormed(m) && |m| == |slices|
    {
      seq(|slices|, i requires 0 <= i < |slices| reads this, Buffers() =>
        Region(slices[i].begin, slices[i].end, slices[i].readOnly, slices[i].data[..]))
    }

    method GetSlice(address: word, length: nat) returns (r: Option<nat>)
      requires Valid()
      ensures r == Find(Contents(), address, length)
    {
      for i := 0 to |slices|
        invariant Find(Contents(), address, length) == FindFrom(Contents(), address, length, i)
      {
        if address >= slices[i].begin && Wrap(address + length - 1) < slices[i].end { return Some(i); }
      }
      return None;
    }

    method ReadN(address: word, length: nat) returns (value: nat)
      requires Valid() && length in {1, 2, 4}
      ensures value == Read(Contents(), address, length)
    {
      var slice := GetSlice(address, length);
      value := 0;
      if slice.Some? && address + length <= 0x1_0000_0000 {
        var s := slices[slice.value];
        var at := address - s.begin;
        TargetInside(Contents(), address, length);
        var bytes := s.data[..];
        value := FromLittleEndian(bytes[at..][..length]);
      }
    }

    method WriteN(address: word, length: nat, value: word)
      requires Valid() && length in {1, 2, 4}
      modifies Buffers()
      ensures Valid() && slices == old(slices)
      ensures Contents() == Write(old(Contents()), address, length, value)
    {
      hide LittleEndian;
      var slice := GetSlice(address, length);
      if slice.Some? && address + length <= 0x1_0000_0000 {
        TargetInside(Contents(), address, length);
        if !slices[slice.value].readOnly { StoreBytes(slice.value, address, LittleEndian(value, length)); }
      }
    }

    /** The assignment through the slice's data pointer. */
    method StoreBytes(i: nat, address: word, bytes: seq<byte>)
      requires Valid() && i < |slices| && !slices[i].readOnly
      requires slices[i].begin <= address && address + |bytes| <= slices[i].end
      modifies slices[i].data
      ensures Valid() && slices == old(slices)
      ensures Contents() == PutBytes(old(Contents()), i, address, bytes)
    {
      var (data, at) := (slices[i].data, address - slices[i].begin);
      forall k | 0 <= k < |bytes| { data[at + k] := bytes[k]; }
      assert data[..] == Put(old(data[..]), at, bytes);
      ghost var written := PutBytes(old(Contents()), i, address, bytes);
      forall j | 0 <= j < |slices| ensures Contents()[j] == written[j] {
        if j != i { assert slices[j].data != data; }
      }
    }

    /** False is the exit when all slices are taken. */
    method AddRegion(name: string, start: word, length: word, data: array<byte>, readOnly: bool, shadow: bool)
      returns (ok: bool)
      requires Valid() && data.Length == length
      requires forall i :: 0 <= i < |slices| && slices[i].data == data ==> slices[i].readOnly && readOnly
      modifies this
      ensures Valid() && ok == (old(|slices|) < MAX_ADDRESS_SLICES)
      ensures Contents() == old(Contents()) + if ok then [Added(start, length, readOnly, data[..])] else []
    {
      if |slices| == MAX_ADDRESS_SLICES { return false; }
      slices := slices + [Slice(start, Wrap(start + length), data, readOnly, shadow, name)];
      return true;
    }
  }
}
