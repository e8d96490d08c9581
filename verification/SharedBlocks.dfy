/** The shared-memory block allocator: headers live in the segment they describe and a zero
    size marks the frontier (paperplane/src/pp_base/pp_shared_tag.c). */
module SharedBlocks {
  import opened Options

  /** 1 MiB, counted in 4-byte words */
  const SEGMENT_WORDS: nat := 0x4_0000
  const SEGMENT_BYTES: nat := 0x10_0000

  // ---------------------------------------------------------------- the header word

  /** header.alloc is bit 0 and header.size the top 12 bits of a 32-bit word. */
  function AllocBit(word: nat): bool {
    word % 2 == 1
  }

  function SizeField(word: nat): nat {
    word / 0x10_0000 % 0x1000
  }

  function SetAlloc(word: nat, alloc: bool): nat {
    word - word % 2 + if alloc then 1 else 0
  }

  /** Stores the low 12 bits of size. */
  function SetSize(word: nat, size: nat): nat {
    word % 0x10_0000 + size % 0x1000 * 0x10_0000
  }

  lemma SetAllocKeepsSize(word: nat, alloc: bool)
    ensures AllocBit(SetAlloc(word, alloc)) == alloc && SizeField(SetAlloc(word, alloc)) == SizeField(word)
  {
    var half := word / 2;
    var bit := if alloc then 1 else 0;
    assert word == 2 * half + word % 2 && SetAlloc(word, alloc) == 2 * half + bit;
    assert (2 * half + bit) / 0x10_0000 == half / 0x8_0000 == word / 0x10_0000;
  }

  lemma FieldsApart(low: nat, high: nat)
    requires low < 0x10_0000
    ensures (low + high * 0x10_0000) / 0x10_0000 == high
  {
  }

  lemma ParityIsLow(low: nat, high: nat)
    ensures (low + high * 0x10_0000) % 2 == low % 2
  {
    assert low + high * 0x10_0000 == low + 2 * (high * 0x8_0000);
  }

  lemma SetSizeKeepsAlloc(word: nat, size: nat)
    ensures AllocBit(SetSize(word, size)) == AllocBit(word) && SizeField(SetSize(word, size)) == size % 0x1000
  {
    FieldsApart(word % 0x10_0000, size % 0x1000);
    ParityIsLow(word % 0x10_0000, size % 0x1000);
    ParityIsLow(word % 0x10_0000, word / 0x10_0000);
  }

  /** Data words of a block of size bytes */
  function DataWords(size: nat): (w: nat)
    ensures size <= 4 * w < size + 4
  {
    (size + 3) / 4
  }

  // ---------------------------------------------------------------- tiling

  datatype Block = Block(pos: nat, size: nat, alloc: bool)

  function End(b: Block): nat {
    b.pos + 1 + DataWords(b.size)
  }

  /** From word p on the segment holds exactly these blocks, one after the other, and then
      zeros. */
  ghost predicate Tiled(words: seq<nat>, p: nat, blocks: seq<Block>)
    decreases |blocks|
  {
    if |blocks| == 0 then p <= |words| && forall i :: p <= i < |words| ==> words[i] == 0
    else
      var b := blocks[0];
      && b.pos == p < |words|
      && b.size == SizeField(words[p]) && b.alloc == AllocBit(words[p])
      && b.size > 0
      && End(b) <= |words|
      && Tiled(words, End(b), blocks[1..])
  }

  function Frontier(p: nat, blocks: seq<Block>): nat
    decreases |blocks|
  {
    if |blocks| == 0 then p else Frontier(End(blocks[0]), blocks[1..])
  }

  /** The first free block with as many data words as asked for, or |blocks| */
  function FirstFit(blocks: seq<Block>, w: nat): (i: nat)
    ensures i <= |blocks|
    ensures i < |blocks| ==> !blocks[i].alloc && DataWords(blocks[i].size) == w
    ensures forall k :: 0 <= k < i ==> blocks[k].alloc || DataWords(blocks[k].size) != w
  {
    if |blocks| == 0 then 0
    else if !blocks[0].alloc && DataWords(blocks[0].size) == w then 0
    else FirstFit(blocks[1..], w) + 1
  }

  function FitPosition(p: nat, blocks: seq<Block>, w: nat): nat {
    var i := FirstFit(blocks, w);
    if i < |blocks| then blocks[i].pos else Frontier(p, blocks)
  }

  /** Blocks lie in order, inside the segment, and do not overlap: after a header of 4 bytes comes
      the data, and less than 4 bytes after that the next header. */
  lemma {:induction false} BlocksAreDisjoint(words: seq<nat>, p: nat, blocks: seq<Block>, i: nat, j: nat)
    requires Tiled(words, p, blocks) && i < j < |blocks|
    ensures p <= blocks[i].pos < End(blocks[i]) <= blocks[j].pos < End(blocks[j]) <= Frontier(p, blocks) <= |words|
    ensures 4 * blocks[i].pos + 4 + blocks[i].size <= 4 * blocks[j].pos
    ensures 4 * blocks[j].pos + 4 + blocks[j].size <= 4 * |words|
    ensures j == i + 1 ==> 4 * blocks[j].pos < 4 * blocks[i].pos + 4 + blocks[i].size + 4
    decreases |blocks|
  {
    if i == 0 {
      BlockIsInside(words, End(blocks[0]), blocks[1..], j - 1);
    } else {
      BlocksAreDisjoint(words, End(blocks[0]), blocks[1..], i - 1, j - 1);
    }
  }

  lemma {:induction false} BlockIsInside(words: seq<nat>, p: nat, blocks: seq<Block>, i: nat)
    requires Tiled(words, p, blocks) && i < |blocks|
    ensures p <= blocks[i].pos < End(blocks[i]) <= Frontier(p, blocks) <= |words|
    ensures SizeField(words[blocks[i].pos]) == blocks[i].size > 0
    ensures AllocBit(words[blocks[i].pos]) == blocks[i].alloc
    decreases |blocks|
  {
    FrontierIsInside(words, End(blocks[0]), blocks[1..]);
    if i > 0 {
      BlockIsInside(words, End(blocks[0]), blocks[1..], i - 1);
    }
  }

  /** The first free word comes less than 4 bytes after the data of the last block. */
  lemma {:induction false} FrontierFollows(words: seq<nat>, p: nat, blocks: seq<Block>)
    requires Tiled(words, p, blocks) && |blocks| > 0
    ensures var last, f := blocks[|blocks| - 1], Frontier(p, blocks);
      4 * last.pos + 4 + last.size <= 4 * f < 4 * last.pos + 4 + last.size + 4
    decreases |blocks|
  {
    if |blocks| > 1 {
      FrontierFollows(words, End(blocks[0]), blocks[1..]);
    }
  }

  lemma {:induction false} FrontierIsInside(words: seq<nat>, p: nat, blocks: seq<Block>)
    requires Tiled(words, p, blocks)
    ensures p <= Frontier(p, blocks) <= |words|
    ensures forall i :: Frontier(p, blocks) <= i < |words| ==> words[i] == 0
    decreases |blocks|
  {
    if |blocks| > 0 {
      FrontierIsInside(words, End(blocks[0]), blocks[1..]);
    }
  }

  /** A header rewritten with the same number of data words */
  lemma {:induction false} Rewritten(words: seq<nat>, p: nat, blocks: seq<Block>, i: nat, word: nat)
    requires Tiled(words, p, blocks) && i < |blocks| && blocks[i].pos < |words|
    requires SizeField(word) > 0 && DataWords(SizeField(word)) == DataWords(blocks[i].size)
    ensures Tiled(words[blocks[i].pos := word], p, blocks[i := Block(blocks[i].pos, SizeField(word), AllocBit(word))])
    decreases |blocks|
  {
    var u := words[blocks[i].pos := word];
    var c := blocks[i := Block(blocks[i].pos, SizeField(word), AllocBit(word))];
    if i == 0 {
      assert c[1..] == blocks[1..];
      SameFrom(words, u, End(blocks[0]), blocks[1..]);
    } else {
      BlockIsInside(words, End(blocks[0]), blocks[1..], i - 1);
      Rewritten(words, End(blocks[0]), blocks[1..], i - 1, word);
      assert c[1..] == blocks[1..][i - 1 := c[i]];
    }
  }

  lemma {:induction false} SameFrom(words: seq<nat>, u: seq<nat>, p: nat, blocks: seq<Block>)
    requires Tiled(words, p, blocks) && |u| == |words| && forall i :: p <= i < |words| ==> u[i] == words[i]
    ensures Tiled(u, p, blocks)
    decreases |blocks|
  {
    if |blocks| > 0 {
      SameFrom(words, u, End(blocks[0]), blocks[1..]);
    }
  }

  /** A new header at the frontier */
  lemma {:induction false} Extended(words: seq<nat>, p: nat, blocks: seq<Block>, word: nat)
    requires Tiled(words, p, blocks)
    requires var f := Frontier(p, blocks); SizeField(word) > 0 && f + 1 + DataWords(SizeField(word)) <= |words|
    ensures var f := Frontier(p, blocks);
      f < |words| && Tiled(words[f := word], p, blocks + [Block(f, SizeField(word), AllocBit(word))])
    decreases |blocks|
  {
    var f := Frontier(p, blocks);
    var b := Block(f, SizeField(word), AllocBit(word));
    if |blocks| == 0 {
      assert (blocks + [b])[1..] == [];
      assert Tiled(words[f := word], End(b), []);
    } else {
      Extended(words, End(blocks[0]), blocks[1..], word);
      FrontierIsInside(words, End(blocks[0]), blocks[1..]);
      assert (blocks + [b])[1..] == blocks[1..] + [b];
    }
  }

  /** Writing into the data of a block disturbs no header. */
  lemma {:induction false} DataWritten(words: seq<nat>, p: nat, blocks: seq<Block>, i: nat, k: nat, value: nat)
    requires Tiled(words, p, blocks) && i < |blocks| && k < DataWords(blocks[i].size)
    ensures blocks[i].pos + 1 + k < |words|
    ensures Tiled(words[blocks[i].pos + 1 + k := value], p, blocks)
    decreases |blocks|
  {
    BlockIsInside(words, p, blocks, i);
    var u := words[blocks[i].pos + 1 + k := value];
    if i == 0 {
      SameFrom(words, u, End(blocks[0]), blocks[1..]);
    } else {
      BlockIsInside(words, End(blocks[0]), blocks[1..], i - 1);
      DataWritten(words, End(blocks[0]), blocks[1..], i - 1, k, value);
    }
  }

  // ---------------------------------------------------------------- one segment

  /** The test before a block is handed out: the aligned size is scaled by the 8-byte block
      header, so room for eight times the data is asked for. */
  predicate Fits(pos: nat, w: nat) {
    4 * pos + 8 * (4 * w) <= SEGMENT_BYTES - 1
  }

  ghost predicate Roomy(blocks: seq<Block>) {
    forall i :: 0 <= i < |blocks| ==> Fits(blocks[i].pos, DataWords(blocks[i].size))
  }

  /** The block handed out for size bytes */
  function Taken(blocks: seq<Block>, size: nat): seq<Block> {
    var i := FirstFit(blocks, DataWords(size));
    if i < |blocks| then blocks[i := Block(blocks[i].pos, size, true)]
    else blocks + [Block(Frontier(0, blocks), size, true)]
  }

  predicate HasRoom(blocks: seq<Block>, size: nat) {
    FirstFit(blocks, DataWords(size)) < |blocks| || Fits(Frontier(0, blocks), DataWords(size))
  }

  lemma TakenIsTiled(words: seq<nat>, blocks: seq<Block>, size: nat, word: nat)
    requires |words| == SEGMENT_WORDS && Tiled(words, 0, blocks) && Roomy(blocks)
    requires HasRoom(blocks, size) && size > 0 && SizeField(word) == size && AllocBit(word)
    ensures var pos := FitPosition(0, blocks, DataWords(size));
      pos < |words| && Tiled(words[pos := word], 0, Taken(blocks, size)) && Roomy(Taken(blocks, size))
  {
    var i := FirstFit(blocks, DataWords(size));
    if i < |blocks| {
      BlockIsInside(words, 0, blocks, i);
      Rewritten(words, 0, blocks, i, word);
    } else {
      Extended(words, 0, blocks, word);
    }
  }

  /** There is room when a free block of as many words exists or, behind the last block, eight times
      the rounded size still fits into the mebibyte. */
  lemma RoomCondition(words: seq<nat>, blocks: seq<Block>, size: nat)
    requires Tiled(words, 0, blocks)
    ensures var f := Frontier(0, blocks);
      HasRoom(blocks, size) <==>
        || (exists b <- blocks :: !b.alloc && (b.size + 3) / 4 == (size + 3) / 4)
        || 4 * f + (size + 3) / 4 * 32 < 0x10_0000
    ensures |blocks| == 0 ==> (HasRoom(blocks, size) <==> size <= 131068)
  {
    var i := FirstFit(blocks, DataWords(size));
    if i < |blocks| {
      assert blocks[i] in blocks;
    }
  }

  /** The block handed out is the first free one of as many words or lies behind all others; its
      header and its data are inside the segment and overlap no other block, and the other blocks
      stay what they are. */
  lemma HandedOut(words: seq<nat>, blocks: seq<Block>, size: nat)
    requires |words| == SEGMENT_WORDS && Tiled(words, 0, blocks) && Roomy(blocks)
    requires HasRoom(blocks, size) && size > 0
    ensures var pos, taken := FitPosition(0, blocks, DataWords(size)), Taken(blocks, size);
      && Block(pos, size, true) in taken && 4 * pos + 4 + size <= 0x10_0000
      && (forall b <- taken :: b != Block(pos, size, true) ==>
            b in blocks && (4 * b.pos + 4 + b.size <= 4 * pos || 4 * pos + 4 + size <= 4 * b.pos))
      && (forall b <- blocks :: b.pos != pos ==> b in taken)
    ensures var pos := FitPosition(0, blocks, DataWords(size));
      && (forall b <- blocks :: b.pos == pos ==> !b.alloc && (b.size + 3) / 4 == (size + 3) / 4)
      && (forall b <- blocks :: !b.alloc && (b.size + 3) / 4 == (size + 3) / 4 ==> pos <= b.pos)
      && ((forall b <- blocks :: b.pos != pos) ==> forall b <- blocks :: 4 * b.pos + 4 + b.size <= 4 * pos)
  {
    var pos, taken := FitPosition(0, blocks, DataWords(size)), Taken(blocks, size);
    var i := FirstFit(blocks, DataWords(size));
    forall k | 0 <= k < |blocks|
      ensures k != i ==> blocks[k].pos != pos
      ensures k != i ==> 4 * blocks[k].pos + 4 + blocks[k].size <= 4 * pos || 4 * pos + 4 + size <= 4 * blocks[k].pos
      ensures i == |blocks| ==> 4 * blocks[k].pos + 4 + blocks[k].size <= 4 * pos
      ensures k > i ==> pos < blocks[k].pos
    {
      BlockIsInside(words, 0, blocks, k);
      if k < i < |blocks| {
        BlocksAreDisjoint(words, 0, blocks, k, i);
      } else if i < k {
        BlocksAreDisjoint(words, 0, blocks, i, k);
      }
    }
    assert taken[i] == Block(pos, size, true);
    if i < |blocks| {
      BlockIsInside(words, 0, blocks, i);
    }
    forall k | 0 <= k < |taken| && k != i
      ensures taken[k] == blocks[k]
    {
    }
  }

  predicate IsHeader(word: nat, size: nat) {
    AllocBit(word) && SizeField(word) == size % 0x1000
  }

  /** No header says a size of more than twelve bits. */
  lemma TooBigIsNotTiled(words: seq<nat>, blocks: seq<Block>, size: nat)
    requires size >= 0x1000
    ensures !Tiled(words, 0, Taken(blocks, size))
  {
    var i, taken := FirstFit(blocks, DataWords(size)), Taken(blocks, size);
    if Tiled(words, 0, taken) {
      BlockIsInside(words, 0, taken, i);
    }
  }

  class Segment {
    /** 0 until the segment is attached */
    var start: nat
    var end: nat
    const words: array<nat>
    ghost var blocks: seq<Block>

    ghost predicate Valid()
      reads this, words
    {
      && words.Length == SEGMENT_WORDS
      && (start == 0 ==> end == 0 && blocks == [])
      && (start != 0 ==> end == start + SEGMENT_BYTES - 1 && Tiled(words[..], 0, blocks) && Roomy(blocks))
    }

    constructor ()
      ensures Valid() && fresh(words) && start == 0
    {
      start, end, blocks := 0, 0, [];
      words := new nat[SEGMENT_WORDS];
    }

    /** place is where the system put the segment, or 0 when it could not. */
    method Attach(place: nat)
      requires Valid() && start == 0
      modifies this, words
      ensures Valid() && start == place && blocks == []
    {
      if place == 0 {
        return;
      }
      start, end := place, place + SEGMENT_BYTES - 1;
      forall i | 0 <= i < words.Length {
        words[i] := 0;
      }
    }

    /** The position of the block handed out, if one is. The header keeps twelve bits of the size:
        the segment stays tiled by the blocks handed out exactly when they suffice. */
    method Alloc(size: int, place: nat) returns (r: Option<nat>)
      requires Valid()
      modifies this, words
      ensures Valid() <==> r.None? || size < 0x1000
      ensures (start == if size <= 0 || old(start) != 0 then old(start) else place)
      ensures r.Some? <==> size > 0 && start != 0 && HasRoom(old(blocks), size)
      ensures r.None? ==> blocks == old(blocks) && (old(start) != 0 ==> words[..] == old(words[..]))
      ensures r.Some? ==> r.value == FitPosition(0, old(blocks), DataWords(size)) && blocks == Taken(old(blocks), size)
      ensures r.Some? ==> Block(r.value, size, true) in blocks && 4 * r.value + 4 + size <= 0x10_0000
      ensures r.Some? ==> forall b <- blocks :: b != Block(r.value, size, true) ==>
        b in old(blocks) && (4 * b.pos + 4 + b.size <= 4 * r.value || 4 * r.value + 4 + size <= 4 * b.pos)
      ensures r.Some? ==> forall b <- old(blocks) :: b.pos != r.value ==> b in blocks
      ensures r.Some? ==> forall b <- old(blocks) :: b.pos == r.value ==> !b.alloc && (b.size + 3) / 4 == (size + 3) / 4
      ensures r.Some? ==> forall b <- old(blocks) :: !b.alloc && (b.size + 3) / 4 == (size + 3) / 4 ==> r.value <= b.pos
      ensures r.Some? ==> r.value < words.Length == SEGMENT_WORDS && IsHeader(words[r.value], size)
      ensures r.Some? ==> words[r.value] % 2 == 1 && words[r.value] / 0x10_0000 % 0x1000 == size % 0x1000
      ensures r.Some? && old(start) != 0 ==> words[..] == old(words[..])[r.value := words[r.value]]
    {
      hide Tiled, Frontier, FirstFit, DataWords, HasRoom, Taken, FitPosition;
      if size <= 0 {
        return None;
      }
      if start == 0 {
        Attach(place);
      }
      if start == 0 {
        return None;
      }
      var found, p := FindFit(size);
      if !found || !Fits(p, DataWords(size)) {
        return None;
      }
      assert HasRoom(blocks, size) && p == FitPosition(0, blocks, DataWords(size));
      HandedOut(words[..], blocks, size);
      Claim(p, size);
      return Some(p);
    }

    /** Writes the header of the block handed out. */
    method Claim(p: nat, size: nat)
      requires Valid() && start != 0 && 0 < size && HasRoom(blocks, size)
      requires p == FitPosition(0, blocks, DataWords(size)) < SEGMENT_WORDS
      modifies `blocks, words
      ensures Valid() <==> size < 0x1000
      ensures blocks == Taken(old(blocks), size) && IsHeader(words[p], size)
      ensures words[..] == old(words[..])[p := words[p]]
    {
      hide Tiled, Frontier, FirstFit, DataWords, AllocBit, SizeField, SetAlloc, SetSize, HasRoom, Taken, FitPosition;
      ghost var word := SetSize(SetAlloc(words[p], true), size);
      ghost var u := words[..][p := word];
      SetAllocKeepsSize(words[p], true);
      SetSizeKeepsAlloc(SetAlloc(words[p], true), size);
      if size < 0x1000 {
        TakenIsTiled(words[..], blocks, size, word);
      } else {
        TooBigIsNotTiled(u, blocks, size);
      }
      words[p] := SetAlloc(words[p], true);
      words[p] := SetSize(words[p], size);
      blocks := Taken(blocks, size);
      assert words[..] == u;
    }

    /** The walk, block by block, to the first free block of the right number of words or to
        the frontier; found is false when it runs off the segment. */
    method FindFit(size: nat) returns (found: bool, p: nat)
      requires Valid() && start != 0 && 0 < size
      ensures found && Fits(p, DataWords(size)) <==> HasRoom(blocks, size)
      ensures found ==> p < SEGMENT_WORDS && p == FitPosition(0, blocks, DataWords(size))
    {
      ghost var i := 0;
      p := 0;
      while true
        invariant i <= |blocks| && Tiled(words[..], p, blocks[i..])
        invariant Frontier(p, blocks[i..]) == Frontier(0, blocks)
        invariant FirstFit(blocks, DataWords(size)) == i + FirstFit(blocks[i..], DataWords(size))
        decreases |blocks| - i
      {
        if p >= SEGMENT_WORDS {
          return false, p;
        }
        if SizeField(words[p]) == 0 {
          assert blocks[i..] == [];
          return true, p;
        }
        assert i < |blocks| && blocks[i..][0] == blocks[i] && blocks[i..][1..] == blocks[i + 1..];
        if DataWords(size) == DataWords(SizeField(words[p])) && !AllocBit(words[p]) {
          return true, p;
        }
        p := p + 1 + DataWords(SizeField(words[p]));
        i := i + 1;
      }
    }

    /** Frees block i, which starts at word pos. */
    method Free(pos: nat, ghost i: nat)
      requires Valid() && start != 0 && i < |blocks| && pos == blocks[i].pos
      modifies `blocks, words
      ensures Valid() && blocks == old(blocks)[i := old(blocks[i]).(alloc := false)]
      ensures pos < SEGMENT_WORDS && words[..] == old(words[..])[pos := words[pos]]
      ensures words[pos] == old(words[pos]) - old(words[pos]) % 2
    {
      BlockIsInside(words[..], 0, blocks, i);
      if !AllocBit(words[pos]) {
        return;
      }
      if SizeField(words[pos]) == 0 {
        return;
      }
      SetAllocKeepsSize(words[pos], false);
      Rewritten(words[..], 0, blocks, i, SetAlloc(words[pos], false));
      ghost var u := words[..][pos := SetAlloc(words[pos], false)];
      words[pos] := SetAlloc(words[pos], false);
      blocks := blocks[i := blocks[i].(alloc := false)];
      assert words[..] == u;
    }
  }

  // ---------------------------------------------------------------- sixteen segments

  predicate Holds(starts: seq<nat>, ends: seq<nat>, base: nat, address: nat)
    requires base < |starts| == |ends|
  {
    starts[base] <= address <= ends[base]
  }

  /** Attached segments lie apart; the others have start and end 0. */
  ghost predicate Apart(starts: seq<nat>, ends: seq<nat>) {
    && |starts| == |ends| == 16
    && (forall b :: 0 <= b < 16 ==> ends[b] == if starts[b] == 0 then 0 else starts[b] + SEGMENT_BYTES - 1)
    && (forall a, b :: 0 <= a < 16 && 0 <= b < 16 && a != b && starts[a] != 0 && starts[b] != 0 ==>
          ends[a] < starts[b] || ends[b] < starts[a])
  }

  /** The first segment that holds a block's address; the original exits when none does. */
  method BaseOf(starts: seq<nat>, ends: seq<nat>, address: nat) returns (base: Option<nat>)
    requires |starts| == |ends| == 16
    ensures base.Some? ==> base.value < 16 && Holds(starts, ends, base.value, address)
    ensures base.Some? ==> forall b :: 0 <= b < base.value ==> !Holds(starts, ends, b, address)
    ensures base.None? ==> forall b :: 0 <= b < 16 ==> !Holds(starts, ends, b, address)
  {
    for b := 0 to 16
      invariant forall k :: 0 <= k < b ==> !Holds(starts, ends, k, address)
    {
      if address <= ends[b] && address >= starts[b] {
        return Some(b);
      }
    }
    return None;
  }

  /** The base and the byte offset of a block handed out at word pos of segment b lead back to
      segment b and to its address. */
  method Locate(starts: seq<nat>, ends: seq<nat>, b: nat, pos: nat) returns (base: nat, offset: nat)
    requires Apart(starts, ends) && b < 16 && starts[b] != 0 && pos < SEGMENT_WORDS
    ensures base == b && offset == 4 * pos && offset < 0x100_0000
    ensures starts[base] + offset == starts[b] + 4 * pos
  {
    var found := BaseOf(starts, ends, starts[b] + 4 * pos);
    assert Holds(starts, ends, b, starts[b] + 4 * pos);
    base := found.value;
    assert starts[base] != 0;
    offset := starts[b] + 4 * pos - starts[base];
  }

  class SharedMemory {
    const segments: seq<Segment>

    ghost predicate Separate()
      reads this
    {
      && |segments| == 16
      && forall a, b :: 0 <= a < b < 16 ==> segments[a] != segments[b] && segments[a].words != segments[b].words
    }

    ghost predicate Valid()
      reads this, segments, set b | 0 <= b < |segments| :: segments[b].words
    {
      Separate() && forall b :: 0 <= b < 16 ==> segments[b].Valid()
    }

    constructor (s: seq<Segment>)
      requires |s| == 16 && forall b :: 0 <= b < 16 ==> s[b].Valid()
      requires forall a, b :: 0 <= a < b < 16 ==> s[a] != s[b] && s[a].words != s[b].words
      ensures Valid() && segments == s
    {
      segments := s;
    }

    /** The first segment with room serves the request; those before it had none, those after it
        are not looked at. */
    method Alloc(size: int, places: seq<nat>) returns (r: Option<(nat, nat)>)
      requires Valid() && |places| == 16
      modifies segments, set b | 0 <= b < |segments| :: segments[b].words
      ensures Valid() <==> r.None? || size < 0x1000
      ensures forall b :: 0 <= b < 16 && (r.None? || b < r.value.0) ==>
        && segments[b].blocks == old(segments[b].blocks)
        && !(size > 0 && segments[b].start != 0 && HasRoom(segments[b].blocks, size))
      ensures r.Some? ==> size > 0 && r.value.0 < 16
      ensures forall b :: 0 <= b < 16 && (r.None? || b <= r.value.0) ==>
        segments[b].start == if size <= 0 || old(segments[b].start) != 0 then old(segments[b].start) else places[b]
      ensures r.Some? ==> var s := segments[r.value.0];
        s.start != 0 && HasRoom(old(s.blocks), size) &&
        r.value.1 == FitPosition(0, old(s.blocks), DataWords(size)) && s.blocks == Taken(old(s.blocks), size)
      ensures r.Some? ==> var s, pos := segments[r.value.0], r.value.1;
        && Block(pos, size, true) in s.blocks && 4 * pos + 4 + size <= 0x10_0000
        && forall b <- s.blocks :: b != Block(pos, size, true) ==>
             b in old(s.blocks) && (4 * b.pos + 4 + b.size <= 4 * pos || 4 * pos + 4 + size <= 4 * b.pos)
      ensures r.Some? ==> forall b :: r.value.0 < b < 16 ==>
        unchanged(segments[b]) && segments[b].words[..] == old(segments[b].words[..])
    {
      hide Tiled, Frontier, FirstFit, DataWords, HasRoom, Taken, FitPosition, Segment.Valid;
      for b := 0 to 16
        invariant Valid()
        invariant forall k :: 0 <= k < b ==>
          && segments[k].blocks == old(segments[k].blocks)
          && !(size > 0 && segments[k].start != 0 && HasRoom(segments[k].blocks, size))
        invariant forall k :: 0 <= k < b ==>
          segments[k].start == if size <= 0 || old(segments[k].start) != 0 then old(segments[k].start) else places[k]
        invariant forall k :: b <= k < 16 ==> unchanged(segments[k]) && unchanged(segments[k].words)
      {
        var pos := segments[b].Alloc(size, places[b]);
        if pos.Some? {
          return Some((b, pos.value));
        }
      }
      return None;
    }
  }
}
