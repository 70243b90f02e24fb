/** Aligned allocation over a base allocator: where payloads are placed, the header
    stashed in front of each, and what is handed back on freeing. Memory is bytes. */
module Allocation {
  import opened Wrappers
  import opened Bits

  const HEADER_SIZE: nat := 16

  // ----- words in memory -----

  type Memory = map<nat, nat>

  function ReadByte(mem: Memory, a: nat): nat
  {
    if a in mem then mem[a] % 256 else 0
  }

  function Write(mem: Memory, a: nat, n: nat, x: nat): Memory
    decreases n
  {
    if n == 0 then mem else Write(mem[a := x % 256], a + 1, n - 1, x / 256)
  }

  function Read(mem: Memory, a: nat, n: nat): nat
    decreases n
  {
    if n == 0 then 0 else ReadByte(mem, a) + 256 * Read(mem, a + 1, n - 1)
  }

  lemma {:induction false} WriteStaysInside(mem: Memory, a: nat, n: nat, x: nat, b: nat)
    requires b < a || a + n <= b
    ensures ReadByte(Write(mem, a, n, x), b) == ReadByte(mem, b)
    decreases n
  {
    if n > 0 { WriteStaysInside(mem[a := x % 256], a + 1, n - 1, x / 256, b); }
  }

  lemma {:induction false} ReadBack(mem: Memory, a: nat, n: nat, x: nat)
    requires x < Pow2(8 * n)
    ensures Read(Write(mem, a, n, x), a, n) == x
    decreases n
  {
    if n > 0 {
      hide Pow2;
      PowerOfByte(8 * (n - 1));
      assert x / 256 < Pow2(8 * (n - 1));
      ReadBack(mem[a := x % 256], a + 1, n - 1, x / 256);
      WriteStaysInside(mem[a := x % 256], a + 1, n - 1, x / 256, a);
    }
  }

  lemma PowerOfByte(k: nat)
    ensures Pow2(k + 8) == 256 * Pow2(k)
  {
    assert Pow2(k + 2) == 2 * Pow2(k + 1) == 4 * Pow2(k);
    assert Pow2(k + 4) == 2 * Pow2(k + 3) == 4 * Pow2(k + 2);
    assert Pow2(k + 6) == 2 * Pow2(k + 5) == 4 * Pow2(k + 4);
    assert Pow2(k + 8) == 2 * Pow2(k + 7) == 4 * Pow2(k + 6);
  }

  lemma {:induction false} ReadDependsOnBytes(m: Memory, m': Memory, a: nat, n: nat)
    requires forall b | a <= b < a + n :: ReadByte(m, b) == ReadByte(m', b)
    ensures Read(m, a, n) == Read(m', a, n)
    decreases n
  {
    if n > 0 { ReadDependsOnBytes(m, m', a + 1, n - 1); }
  }

  // ----- platforms -----

  datatype Platform = Generic | X86 | RiscV

  function Alignment(p: Platform): nat { if p.RiscV? then 4096 else 128 }

  /** Addresses further apart than this may alias; payloads are spread over it. */
  function Alias(p: Platform): nat
  {
    match p
    case Generic => 128
    case X86 => 1024
    case RiscV => 4096
  }

  function AliasBits(p: Platform): nat
  {
    match p
    case Generic => 7
    case X86 => 10
    case RiscV => 12
  }

  lemma SmallPowers()
    ensures Pow2(0) == 1 && Pow2(7) == 128 && Pow2(10) == 1024 && Pow2(12) == 4096
  {
    assert Pow2(4) == 16;
    assert Pow2(8) == 256;
  }

  lemma AliasIsPower(p: Platform)
    ensures Alias(p) == Pow2(AliasBits(p)) && Pow2(64) == WORD
  {
    SmallPowers();
    hide Pow2;
    PowerOfByte(0); PowerOfByte(8); PowerOfByte(16); PowerOfByte(24);
    PowerOfByte(32); PowerOfByte(40); PowerOfByte(48); PowerOfByte(56);
  }

  // ----- placement -----

  /** What the base allocator gave for one payload. */
  datatype Block = Block(start: nat, length: nat, payloadSize: nat)

  predicate Apart(a: Block, b: Block)
  {
    a.start + a.length <= b.start || b.start + b.length <= a.start
  }

  /** Header and payload lie inside the block, and the payload is aligned. */
  predicate Placed(platform: Platform, p: nat, b: Block)
  {
    && 0 < b.start && b.start + b.length <= WORD && 0 < b.payloadSize
    && p % Alignment(platform) == 0
    && b.start + HEADER_SIZE <= p && p + b.payloadSize <= b.start + b.length
  }

  predicate HeaderHolds(mem: Memory, p: nat, b: Block)
    requires p >= HEADER_SIZE
  {
    Read(mem, p - 16, 8) == b.start && Read(mem, p - 8, 8) == b.payloadSize
  }

  /** Rounds up past `base` to a multiple of the alias distance. */
  function AlignedUp(platform: Platform, base: nat): nat
    requires Alias(platform) <= Pow2(64)
  {
    And(base + Alias(platform), Complement(64, Alias(platform) - 1))
  }

  lemma AlignedUpMeaning(platform: Platform, base: nat)
    requires base + Alias(platform) < WORD
    ensures Alias(platform) <= Pow2(64)
    ensures var a := AlignedUp(platform, base);
      base < a <= base + Alias(platform) && a % Alias(platform) == 0
  {
    hide Pow2, And, Alias;
    AliasIsPower(platform);
    var w := base + Alias(platform);
    AndHighMask(w, 64, AliasBits(platform));
    LargestMultiple(w, Alias(platform));
  }

  lemma SumOfMultiples(a: nat, b: nat, m: nat, n: nat)
    requires m > 0 && n > 0 && m % n == 0 && a % m == 0 && b % n == 0
    ensures (a + b) % n == 0
  {
    var i, j, k := a / m, b / n, m / n;
    assert a == i * m && b == j * n && m == k * n;
    assert a + b == (i * k + j) * n;
    ModuloUnique(a + b, n, i * k + j, 0);
  }

  /** Aborted is a failed assertion in the original, Null a null pointer. */
  datatype Outcome = Aborted | Null | Payload(address: nat)

  /** Bytes to ask the base allocator for, and where the payload then starts. */
  function PayloadAddress(platform: Platform, base: nat, offset: nat): nat
    requires Alias(platform) <= Pow2(64)
  {
    AlignedUp(platform, base) + offset
  }

  lemma PayloadIsPlaced(platform: Platform, base: nat, offset: nat, payloadSize: nat)
    requires 0 < base && 0 < payloadSize && base + Alias(platform) + offset + payloadSize <= WORD
    requires offset % Alignment(platform) == 0 && offset >= HEADER_SIZE
    ensures Alias(platform) <= Pow2(64)
    ensures Placed(platform, PayloadAddress(platform, base, offset),
                   Block(base, Alias(platform) + offset + payloadSize, payloadSize))
  {
    hide Pow2, And, AlignedUp;
    AlignedUpMeaning(platform, base);
    SumOfMultiples(AlignedUp(platform, base), offset, Alias(platform), Alignment(platform));
  }

  /** Everything handed out is placed, apart, and has an intact header. */
  ghost predicate Sound(platform: Platform, mem: Memory, live: map<nat, Block>)
  {
    && (forall p | p in live :: Placed(platform, p, live[p]) && HeaderHolds(mem, p, live[p]))
    && (forall p, q | p in live && q in live && p != q :: Apart(live[p], live[q]))
  }

  /** Headers survive writes outside them. */
  lemma HeaderStays(m: Memory, m': Memory, p: nat, b: Block)
    requires p >= HEADER_SIZE && HeaderHolds(m, p, b)
    requires forall a | p - 16 <= a < p :: ReadByte(m, a) == ReadByte(m', a)
    ensures HeaderHolds(m', p, b)
  {
    ReadDependsOnBytes(m, m', p - 16, 8);
    ReadDependsOnBytes(m, m', p - 8, 8);
  }

  function WithHeader(mem: Memory, p: nat, b: Block): Memory
    requires p >= HEADER_SIZE
  {
    Write(Write(mem, p - 16, 8, b.start), p - 8, 8, b.payloadSize)
  }

  lemma HeaderWritten(mem: Memory, p: nat, b: Block)
    requires p >= HEADER_SIZE && b.start < WORD && b.payloadSize < WORD
    ensures HeaderHolds(WithHeader(mem, p, b), p, b)
    ensures forall a: nat | a < p - 16 || p <= a :: ReadByte(WithHeader(mem, p, b), a) == ReadByte(mem, a)
  {
    hide Read, Write, ReadByte;
    AliasIsPower(Generic);
    var m1 := Write(mem, p - 16, 8, b.start);
    ReadBack(mem, p - 16, 8, b.start);
    ReadBack(m1, p - 8, 8, b.payloadSize);
    forall a: nat | a < p - 8 || p <= a ensures ReadByte(WithHeader(mem, p, b), a) == ReadByte(m1, a) {
      WriteStaysInside(m1, p - 8, 8, b.payloadSize, a);
    }
    ReadDependsOnBytes(m1, WithHeader(mem, p, b), p - 16, 8);
    forall a: nat | a < p - 16 || p <= a ensures ReadByte(WithHeader(mem, p, b), a) == ReadByte(mem, a) {
      WriteStaysInside(mem, p - 16, 8, b.start, a);
    }
  }

  lemma SoundWithOneMore(platform: Platform, mem: Memory, live: map<nat, Block>, p: nat, b: Block)
    requires Sound(platform, mem, live) && Placed(platform, p, b)
    requires forall q | q in live :: Apart(live[q], b)
    ensures p !in live && Sound(platform, WithHeader(mem, p, b), live[p := b])
  {
    hide Read, Write, ReadByte;
    assert p >= HEADER_SIZE && b.payloadSize < WORD && b.start < WORD;
    HeaderWritten(mem, p, b);
    forall q | q in live ensures q != p && HeaderHolds(WithHeader(mem, p, b), q, live[q]) {
      assert Apart(live[q], b);
      HeaderStays(mem, WithHeader(mem, p, b), q, live[q]);
    }
  }

  /** No payload handed out earlier has lost a byte. */
  ghost predicate PayloadsKept(live: map<nat, Block>, m: Memory, m': Memory)
  {
    forall q, a | q in live && q <= a < q + live[q].payloadSize :: ReadByte(m', a) == ReadByte(m, a)
  }

  lemma OtherPayloadsStay(platform: Platform, mem: Memory, live: map<nat, Block>, p: nat, b: Block)
    requires Sound(platform, mem, live) && Placed(platform, p, b)
    requires forall q | q in live :: Apart(live[q], b)
    ensures PayloadsKept(live, mem, WithHeader(mem, p, b))
  {
    hide Read, Write, ReadByte, WithHeader;
    HeaderWritten(mem, p, b);
    forall q, a | q in live && q <= a < q + live[q].payloadSize
      ensures ReadByte(WithHeader(mem, p, b), a) == ReadByte(mem, a)
    {
      assert Apart(live[q], b) && Placed(platform, q, live[q]);
    }
  }

  lemma SoundAfterPayloadWrite(platform: Platform, mem: Memory, live: map<nat, Block>, p: nat, a: nat, byte: nat)
    requires Sound(platform, mem, live) && p in live && p <= a < p + live[p].payloadSize
    ensures Sound(platform, mem[a := byte], live)
  {
    forall q | q in live ensures HeaderHolds(mem[a := byte], q, live[q]) {
      if q != p { assert Apart(live[q], live[p]); }
      HeaderStays(mem, mem[a := byte], q, live[q]);
    }
  }

  /** Where the `next`th payload goes within the alias distance: each aligned place in turn. */
  function CyclicOffset(platform: Platform, next: nat): nat
  {
    Alignment(platform) * (next % (Alias(platform) / Alignment(platform)))
  }

  /** What the build asserts of its constants, and how many places there are. */
  lemma PlatformConstants(platform: Platform)
    ensures Alignment(platform) == (if platform.RiscV? then 4096 else 128) > HEADER_SIZE
    ensures Alias(platform) == (if platform.X86? then 8 else 1) * Alignment(platform) < WORD / 4
    ensures IsPowerOfTwo(Alias(platform))
  {
    AliasIsPower(platform);
    PowerOfTwoTest(Alias(platform));
  }

  predicate AlignedPlace(platform: Platform, offset: nat)
  {
    offset < Alias(platform) && offset % Alignment(platform) == 0
  }

  /** The next aligned place, or the first one again once that would reach the alias distance. */
  predicate NextPlace(platform: Platform, offset: nat, next: nat)
  {
    next == if offset + Alignment(platform) < Alias(platform) then offset + Alignment(platform) else 0
  }

  predicate InTurn(platform: Platform, offsets: seq<nat>)
  {
    && (forall i | 0 <= i < |offsets| :: AlignedPlace(platform, offsets[i]))
    && (forall i | 0 < i < |offsets| :: NextPlace(platform, offsets[i - 1], offsets[i]))
  }

  /** The counter gives the places in turn, and wraps around without disturbing the turn. */
  lemma NextInTurn(platform: Platform, next: nat)
    requires next < WORD
    ensures AlignedPlace(platform, CyclicOffset(platform, next)) && CyclicOffset(platform, 0) == 0
    ensures NextPlace(platform, CyclicOffset(platform, next), CyclicOffset(platform, (next + 1) % WORD))
  {
    if platform.X86? { EightPlaces(next); }
  }

  lemma EightPlaces(next: nat)
    requires next < WORD
    ensures 128 * (next % 8) < 1024 && 128 * (next % 8) % 128 == 0
    ensures 128 * ((next + 1) % WORD % 8) == if 128 * (next % 8) + 128 < 1024 then 128 * (next % 8) + 128 else 0
  {
    StepOfEight(next);
    assert WORD % 8 == 0;
  }

  lemma StepOfEight(x: nat)
    ensures 128 * ((x + 1) % 8) == if 128 * (x % 8) + 128 < 1024 then 128 * (x % 8) + 128 else 0
  {
  }

  lemma PlaceNumber(first: nat, place: nat, i: nat)
    requires first < 8 && place < 8 && i < 8
    ensures (first + i) % 8 == place <==> i == (place + 8 - first) % 8
  {
  }

  lemma {:induction false} PlaceOf(offsets: seq<nat>, i: nat)
    requires InTurn(X86, offsets) && i < |offsets|
    ensures offsets[i] == 128 * ((offsets[0] / 128 + i) % 8)
  {
    if i > 0 {
      PlaceOf(offsets, i - 1);
      StepOfEight(offsets[0] / 128 + i - 1);
    }
  }

  /** As many calls as there are places use each of them exactly once. */
  lemma EachPlaceOnce(platform: Platform, offsets: seq<nat>, place: nat) returns (at: nat)
    requires InTurn(platform, offsets) && |offsets| == Alias(platform) / Alignment(platform)
    requires AlignedPlace(platform, place)
    ensures at < |offsets| && forall i | 0 <= i < |offsets| :: offsets[i] == place <==> i == at
  {
    at := 0;
    if platform.X86? {
      at := (place / 128 + 8 - offsets[0] / 128) % 8;
      forall i | 0 <= i < |offsets| ensures offsets[i] == place <==> i == at {
        PlaceOf(offsets, i);
        PlaceNumber(offsets[0] / 128, place / 128, i);
      }
    }
  }

  /** What is asked of the base allocator: room for the header, also if the offset is
      zero, and for moving the payload anywhere within the alias distance. */
  function RequestSize(platform: Platform, next: nat, payloadSize: nat): nat
  {
    Alias(platform) + Gap(platform, next) + payloadSize
  }

  /** How far behind the aligned address the payload starts. */
  function Gap(platform: Platform, next: nat): nat
  {
    var offset := CyclicOffset(platform, next);
    if offset == 0 then Alignment(platform) else offset
  }

  lemma SizeFits(platform: Platform, next: nat, payloadSize: nat)
    requires payloadSize < SIZE_MAX / 2
    ensures RequestSize(platform, next, payloadSize) < WORD
    ensures Alignment(platform) >= HEADER_SIZE
    ensures (HEADER_SIZE + Alignment(platform) - 1) / Alignment(platform) * Alignment(platform) == Alignment(platform)
  {
  }

  /** What a request for `payloadSize` bytes comes to, if the base allocator is asked for `n`. */
  ghost predicate Handled(r: Outcome, payloadSize: nat, n: nat, alloc: nat -> Option<nat>,
                          before: map<nat, Block>, after: map<nat, Block>)
  {
    if payloadSize == 0 then r.Aborted? && after == before
    else if payloadSize >= SIZE_MAX / 2 || alloc(n).None? then r.Null? && after == before
    else r.Payload? && r.address !in before && after == before[r.address := Block(alloc(n).value, n, payloadSize)]
  }

  /** The block has room for the alias distance, an aligned gap and the payload. The
      payload is behind the first alias boundary after the block's start by that gap:
      the next place in turn, or one alignment where that is zero. */
  ghost predicate PlacedAsAsked(platform: Platform, next: nat, payloadSize: nat, p: nat, b: Block)
  {
    var k := next % (Alias(platform) / Alignment(platform));
    var gap := Alignment(platform) * if k == 0 then 1 else k;
    && b.length == Alias(platform) + gap + payloadSize && b.payloadSize == payloadSize && gap <= p
    && (p - gap) % Alias(platform) == 0 && b.start < p - gap <= b.start + Alias(platform)
  }

  lemma GapIsNextPlace(platform: Platform, next: nat)
    ensures var k := next % (Alias(platform) / Alignment(platform));
      Gap(platform, next) == Alignment(platform) * if k == 0 then 1 else k
  {
    if platform.X86? { assert 128 * (next % 8) == 0 <==> next % 8 == 0; }
  }

  lemma AddressAsAsked(platform: Platform, base: nat, next: nat, payloadSize: nat)
    requires 0 < base && base + RequestSize(platform, next, payloadSize) <= WORD && 0 < payloadSize
    ensures Alias(platform) <= Pow2(64)
    ensures PlacedAsAsked(platform, next, payloadSize, PayloadAddress(platform, base, Gap(platform, next)),
                          Block(base, RequestSize(platform, next, payloadSize), payloadSize))
  {
    hide Pow2, AlignedUp, Gap, Alias, Alignment;
    AlignedUpMeaning(platform, base);
    GapIsNextPlace(platform, next);
  }

  class AlignedAllocator {
    const platform: Platform
    var next: nat
    var memory: Memory
    /** The payloads handed out and not yet freed. */
    ghost var live: map<nat, Block>

    ghost predicate Valid()
      reads this
    {
      next < WORD && Sound(platform, memory, live)
    }

    constructor (platform: Platform, memory: Memory)
      ensures Valid() && this.platform == platform && this.memory == memory && live == map[]
    {
      this.platform := platform;
      this.memory := memory;
      next, live := 0, map[];
    }

    /** A cyclic offset that spreads payloads over the alias distance. */
    method NextAlignedOffset() returns (offset: nat)
      requires next < WORD
      modifies this`next
      ensures next < WORD
      ensures offset % Alignment(platform) == 0 && offset < Alias(platform)
      ensures offset == CyclicOffset(platform, old(next)) && next == (old(next) + 1) % WORD
      ensures NextPlace(platform, offset, CyclicOffset(platform, next)) && (old(next) == 0 ==> offset == 0)
    {
      NextInTurn(platform, next);
      var groups := Alias(platform) / Alignment(platform);
      var group := next % groups;
      next := (next + 1) % WORD;
      offset := Alignment(platform) * group;
    }

    /** Any run of calls: the offsets come in turn, from zero if the counter starts there. */
    method NextAlignedOffsets(count: nat) returns (offsets: seq<nat>)
      requires next < WORD
      modifies this`next
      ensures next < WORD && |offsets| == count && InTurn(platform, offsets)
      ensures old(next) == 0 && count > 0 ==> offsets[0] == 0
    {
      hide CyclicOffset;
      offsets := [];
      for i := 0 to count
        invariant next < WORD && |offsets| == i && InTurn(platform, offsets)
        invariant i == 0 ==> next == old(next)
        invariant i > 0 ==> NextPlace(platform, offsets[i - 1], CyclicOffset(platform, next))
        invariant old(next) == 0 && i > 0 ==> offsets[0] == 0
      {
        var offset := NextAlignedOffset();
        offsets := offsets + [offset];
      }
    }

    /** The base allocator's promise: a block inside memory, apart from those in use. */
    ghost predicate GoodBase(alloc: nat -> Option<nat>)
      reads this
    {
      forall n | alloc(n).Some? ::
        0 < alloc(n).value && alloc(n).value + n <= WORD &&
        forall p | p in live :: Apart(live[p], Block(alloc(n).value, n, 0))
    }

    method AllocateAlignedBytes(payloadSize: nat, alloc: nat -> Option<nat>) returns (r: Outcome)
      requires Valid() && payloadSize <= SIZE_MAX && GoodBase(alloc)
      modifies this
      ensures Valid()
      ensures Handled(r, payloadSize, RequestSize(platform, old(next), payloadSize), alloc, old(live), live)
      ensures !r.Payload? ==> memory == old(memory)
      ensures PayloadsKept(old(live), old(memory), memory)
      ensures r.Payload? ==> PlacedAsAsked(platform, old(next), payloadSize, r.address, live[r.address])
    {
      hide Pow2, AlignedUp, PayloadAddress, WithHeader, Sound, ReadByte, PlacedAsAsked;
      if payloadSize == 0 { return Aborted; }
      if payloadSize >= SIZE_MAX / 2 { return Null; }
      SizeFits(platform, next, payloadSize);
      var offset := NextAlignedOffset();
      if offset == 0 {
        offset := (HEADER_SIZE + Alignment(platform) - 1) / Alignment(platform) * Alignment(platform);
      }
      var size := (Alias(platform) + offset + payloadSize) % WORD;
      var base := alloc(size);
      if base.None? { return Null; }
      PayloadIsPlaced(platform, base.value, offset, payloadSize);
      AddressAsAsked(platform, base.value, old(next), payloadSize);
      var payload := PayloadAddress(platform, base.value, offset);
      var block := Block(base.value, size, payloadSize);
      SoundWithOneMore(platform, memory, live, payload, block);
      OtherPayloadsStay(platform, memory, live, payload, block);
      memory := WithHeader(memory, payload, block);
      live := live[payload := block];
      return Payload(payload);
    }

    /** Room for `items` items of `size` bytes, unless that many bytes cannot be counted. */
    method AllocateAlignedItems(items: nat, size: nat, alloc: nat -> Option<nat>) returns (r: Outcome)
      requires Valid() && items <= SIZE_MAX && 0 < size && GoodBase(alloc)
      modifies this
      ensures Valid()
      ensures items * size > SIZE_MAX ==> r.Null? && live == old(live)
      ensures items * size <= SIZE_MAX ==>
                Handled(r, items * size, RequestSize(platform, old(next), items * size), alloc, old(live), live)
      ensures !r.Payload? ==> memory == old(memory)
      ensures PayloadsKept(old(live), old(memory), memory)
      ensures r.Payload? ==> PlacedAsAsked(platform, old(next), items * size, r.address, live[r.address])
    {
      ItemCheckIsExact(items, size);
      var bytes := ItemBytes(items, size);
      if ItemsBack(bytes, size) != items { return Null; }
      r := AllocateAlignedBytes(bytes, alloc);
    }

    /** The user writes one byte of a payload. */
    method WritePayload(p: nat, a: nat, byte: nat)
      requires Valid() && p in live && p <= a < p + live[p].payloadSize
      modifies this`memory
      ensures Valid() && ReadByte(memory, a) == byte % 256
      ensures forall b | b != a :: ReadByte(memory, b) == ReadByte(old(memory), b)
    {
      hide Sound;
      SoundAfterPayloadWrite(platform, memory, live, p, a, byte);
      memory := memory[a := byte];
    }

    /** Frees a payload: the base block that goes back and the size a deleter is told
        are read from the header, and are those of the allocation. */
    method FreeAlignedBytes(p: Option<nat>) returns (freed: Option<nat>, deleted: nat)
      requires Valid() && (p.Some? ==> p.value in live)
      modifies this`live
      ensures Valid()
      ensures p.None? ==> freed.None? && live == old(live)
      ensures p.Some? ==> freed == Some(old(live)[p.value].start) && deleted == old(live)[p.value].payloadSize
      ensures p.Some? ==> live == old(live) - {p.value}
    {
      if p.None? { return None, 0; }
      freed := Some(Read(memory, p.value - 16, 8));
      deleted := Read(memory, p.value - 8, 8);
      live := live - {p.value};
    }
  }

  // ----- counting items -----

  /** The size in bytes as computed: by a shift if the item size is a power of two. */
  function ItemBytes(items: nat, size: nat): nat
    requires size > 0
  {
    (if IsPowerOfTwo(size) then items * Pow2(ShiftCount(size)) else items * size) % WORD
  }

  function ItemsBack(bytes: nat, size: nat): nat
    requires size > 0
  {
    hide IsPowerOfTwo, ShiftCount, Pow2;
    var divisor := if IsPowerOfTwo(size) then Pow2(ShiftCount(size)) else size;
    bytes / divisor
  }

  /** Dividing back detects every overflow and nothing else. */
  lemma ItemCheckIsExact(items: nat, size: nat)
    requires 0 < size && items <= SIZE_MAX
    ensures ItemsBack(ItemBytes(items, size), size) == items <==> items * size <= SIZE_MAX
    ensures items * size <= SIZE_MAX ==> ItemBytes(items, size) == items * size
  {
    PowerOfTwoTest(size);
    var bytes := (items * size) % WORD;
    if items * size <= SIZE_MAX {
      ModuloUnique(items * size, WORD, 0, items * size);
      ModuloUnique(items * size, size, items, 0);
    } else {
      var q := bytes / size;
      assert bytes == q * size + bytes % size;
      if q >= items { MulMonotone(size, items, q); }
    }
  }
}
