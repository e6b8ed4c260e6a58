/** The resumable dump of a cached response: htx_cache_dump_msg() and its two
    helpers in cache.c. */
module CacheDump {
  import opened Numbers

  const HDR := 2
  const DATA := 4
  const TLR := 5

  const WORD: nat := 0x1_0000_0000

  /** A stored HTX block: its info word and its payload. */
  datatype Item = Item(info: nat, payload: seq<Byte>)

  /** What the output message receives: whole blocks, and bytes of data, which HTX
      is free to merge into blocks of its own. */
  datatype Token = Whole(info: nat, payload: seq<Byte>) | Data(b: Byte)

  /** What the output message does at one step: the largest block it says it takes,
      whether it then adds a block, and how many bytes of data it accepts. */
  datatype Room = Room(max: nat, added: bool, takes: nat)

  // ----- the stored form

  function TypeOf(info: nat): nat {
    info / 0x1000_0000
  }

  /** The payload length held by an info word. */
  function SizeOf(info: nat): nat {
    if TypeOf(info) == HDR || TypeOf(info) == TLR then info % 0x100 + info / 0x100 % 0x10_0000
    else info % 0x1000_0000
  }

  /** The info word of a header or trailer, by the lengths of its name and its value. */
  lemma HeaderInfo(trailer: bool, name: nat, value: nat)
    requires name < 0x100 && value < 0x10_0000
    ensures var t := if trailer then 5 else 2;
            var info := t * 0x1000_0000 + value * 0x100 + name;
            info < WORD && TypeOf(info) == t && SizeOf(info) == name + value
  {
    var t := if trailer then 5 else 2;
    var info, rest := t * 0x1000_0000 + value * 0x100 + name, value * 0x100 + name;
    assert rest < 0x1000_0000 && info / 0x1000_0000 == t;
    assert info / 0x100 == t * 0x10_0000 + value && info % 0x100 == name;
  }

  /** The info word of any other block, by the length of its payload. */
  lemma BlockInfo(t: nat, len: nat)
    requires t < 16 && t != 2 && t != 5 && len < 0x1000_0000
    ensures var info := t * 0x1000_0000 + len;
            info < WORD && TypeOf(info) == t && SizeOf(info) == len && (TypeOf(info) == DATA <==> t == 4)
  {
    assert (t * 0x1000_0000 + len) / 0x1000_0000 == t;
  }

  ghost predicate WellFormed(item: Item) {
    item.info < WORD && |item.payload| == SizeOf(item.info)
  }

  /** An info word in memory, low byte first. */
  function Word(info: nat): (s: seq<Byte>)
    ensures |s| == 4
  {
    [info % 0x100, info / 0x100 % 0x100, info / 0x1_0000 % 0x100, info / 0x100_0000 % 0x100]
  }

  function Unword(s: seq<Byte>): nat
    requires |s| == 4
  {
    (s[0] as int) + 0x100 * (s[1] as int) + 0x1_0000 * (s[2] as int) + 0x100_0000 * (s[3] as int)
  }

  lemma WordRoundTrip(info: nat)
    requires info < WORD
    ensures Unword(Word(info)) == info
  {
    var a := info / 0x100;
    var b := a / 0x100;
    assert info / 0x1_0000 == b && info / 0x100_0000 == b / 0x100;
  }

  function Encode(item: Item): seq<Byte> {
    Word(item.info) + item.payload
  }

  function Stream(items: seq<Item>): seq<Byte> {
    if items == [] then [] else Encode(items[0]) + Stream(items[1..])
  }

  function DataTokens(s: seq<Byte>): (r: seq<Token>)
    ensures |r| == |s|
  {
    seq(|s|, i requires 0 <= i < |s| => Data(s[i]))
  }

  function TokensOf(item: Item): seq<Token> {
    if TypeOf(item.info) == DATA then DataTokens(item.payload) else [Whole(item.info, item.payload)]
  }

  function Tokens(items: seq<Item>): seq<Token> {
    if items == [] then [] else TokensOf(items[0]) + Tokens(items[1..])
  }

  lemma {:induction false} StreamSplit(items: seq<Item>, i: nat)
    requires i <= |items|
    ensures Stream(items) == Stream(items[..i]) + Stream(items[i..])
  {
    hide Encode;
    if i == 0 {
      assert items[..i] == [] && items[i..] == items;
    } else {
      StreamSplit(items[1..], i - 1);
      assert items[..i][1..] == items[1..][..i - 1] && items[1..][i - 1..] == items[i..];
    }
  }

  lemma OneMore(items: seq<Item>, i: nat)
    requires i < |items|
    ensures Stream(items[..i + 1]) == Stream(items[..i]) + Encode(items[i])
    ensures Tokens(items[..i + 1]) == Tokens(items[..i]) + TokensOf(items[i])
  {
    hide Encode, TokensOf;
    var a, b := items[..i], [items[i]];
    assert items[..i + 1] == a + b && b[1..] == [];
    assert Stream(b) == Encode(items[i]) && Tokens(b) == TokensOf(items[i]);
    StreamSplit(a + b, i);
    TokensSplit(a + b, i);
    assert (a + b)[..i] == a && (a + b)[i..] == b;
  }

  lemma {:induction false} TokensSplit(items: seq<Item>, i: nat)
    requires i <= |items|
    ensures Tokens(items) == Tokens(items[..i]) + Tokens(items[i..])
  {
    hide TokensOf;
    if i == 0 {
      assert items[..i] == [] && items[i..] == items;
    } else {
      TokensSplit(items[1..], i - 1);
      assert items[..i][1..] == items[1..][..i - 1] && items[1..][i - 1..] == items[i..];
    }
  }

  /** The item at position i of a stream. */
  lemma ItemAt(items: seq<Item>, i: nat)
    requires i < |items|
    ensures var all, n, q := Stream(items), |Stream(items[..i])|, items[i];
            && n + 4 + |q.payload| <= |all| && |Stream(items[..i + 1])| == n + 4 + |q.payload|
            && all[n..n + 4] == Word(q.info) && all[n + 4..n + 4 + |q.payload|] == q.payload
    ensures Tokens(items[..i + 1]) == Tokens(items[..i]) + TokensOf(items[i])
  {
    hide Tokens, Stream, TokensOf, Word;
    StreamSplit(items, i + 1);
    OneMore(items, i);
    Middle(Stream(items[..i]), Word(items[i].info), items[i].payload, Stream(items[i + 1..]));
  }

  // ----- the blocks

  /** The row of shared blocks: block i holds bytes i*size .. (i+1)*size of flat. */
  ghost predicate Cut(blocks: seq<seq<Byte>>, size: nat, flat: seq<Byte>) {
    && |flat| == |blocks| * size
    && forall i | 0 <= i < |blocks| :: |blocks[i]| == size && BlockAt(blocks, size, flat, i)
  }

  ghost predicate BlockAt(blocks: seq<seq<Byte>>, size: nat, flat: seq<Byte>, i: nat)
    requires i < |blocks|
  {
    0 <= i * size && (i + 1) * size <= |flat| && blocks[i] == flat[i * size..(i + 1) * size]
  }

  /** Reading n bytes of a block reads the flat position. */
  lemma ReadBlock(blocks: seq<seq<Byte>>, size: nat, flat: seq<Byte>, i: nat, off: nat, n: nat)
    requires Cut(blocks, size, flat) && i < |blocks| && off + n <= size
    ensures |blocks[i]| == size && i * size + off + n <= |flat|
    ensures blocks[i][off..off + n] == flat[i * size + off..i * size + off + n]
  {
    assert BlockAt(blocks, size, flat, i);
    assert (i + 1) * size == i * size + size;
  }

  /** A position with bytes left in the row is in a block of it. */
  lemma InRow(blocks: seq<seq<Byte>>, size: nat, flat: seq<Byte>, i: nat, off: nat)
    requires Cut(blocks, size, flat) && i * size + off < |flat|
    ensures i < |blocks|
  {
    if i >= |blocks| {
      assert i * size >= |blocks| * size by { Monotone(|blocks|, i, size); }
      assert false;
    }
  }

  lemma Monotone(a: nat, b: nat, c: nat)
    requires a <= b
    ensures a * c <= b * c
  {
  }

  lemma NextBlock(i: nat, size: nat)
    ensures (i + 1) * size == i * size + size
  {
  }

  /** After done items, and all but rem bytes of the next one if rem is not 0, this
      many bytes of the stream are sent and this is out. */
  ghost predicate Progress(items: seq<Item>, done: nat, rem: nat, sent: nat, out: seq<Token>) {
    && done <= |items|
    && if rem == 0 then
         sent == |Stream(items[..done])| && out == Tokens(items[..done])
       else
         && done < |items| && TypeOf(items[done].info) == DATA && rem <= |items[done].payload|
         && var k := |items[done].payload| - rem;
            && sent == |Stream(items[..done])| + 4 + k
            && out == Tokens(items[..done]) + DataTokens(items[done].payload[..k])
  }

  /** Some more bytes of a data block go out. */
  lemma DataProgress(items: seq<Item>, done: nat, rem: nat, sent: nat, out: seq<Token>, got: nat)
    requires Progress(items, done, rem, sent, out) && done < |items| && TypeOf(items[done].info) == DATA
    requires got <= if rem > 0 then rem else |items[done].payload|
    ensures var payload := items[done].payload;
            var left := if rem > 0 then rem else |payload|;
            var k := |payload| - left;
            Progress(items, if left == got then done + 1 else done, left - got,
                     sent + got + (if rem > 0 then 0 else 4), out + DataTokens(payload[k..k + got]))
  {
    hide Tokens, Stream, DataTokens, TokensOf;
    var payload := items[done].payload;
    var left := if rem > 0 then rem else |payload|;
    ItemAt(items, done);
    DataItem(items[done]);
    DataGrows(payload, |payload| - left, got);
    if left == got {
      assert payload[..|payload|] == payload;
    }
  }

  /** At any time, what is out is the beginning of what is stored. */
  lemma OutIsPrefix(items: seq<Item>, done: nat, rem: nat, sent: nat, out: seq<Token>)
    requires Progress(items, done, rem, sent, out)
    ensures out <= Tokens(items)
  {
    hide Stream;
    TokensSplit(items, done);
    if rem > 0 {
      hide Tokens, DataTokens, TokensOf;
      var payload := items[done].payload;
      var k := |payload| - rem;
      DataItem(items[done]);
      DataGrows(payload, k, rem);
      assert payload[..k + rem] == payload;
      OneMore(items, done);
      TokensSplit(items, done + 1);
    }
  }

  // ----- what the message takes at one step

  /** The bytes of the stream which an item still needs, if rem bytes of its data are
      left and it was begun. */
  ghost function Needs(item: Item, rem: nat): nat {
    if rem > 0 then rem else 4 + |item.payload|
  }

  /** The bytes of the stream which go out: as much data as the message takes, or a
      whole block. */
  ghost function Given(item: Item, rem: nat, room: Room): nat {
    if room.max == 0 then 0
    else if TypeOf(item.info) == DATA then
      var left := if rem > 0 then rem else |item.payload|;
      Min(left, Min(room.max, room.takes)) + (if rem > 0 then 0 else 4)
    else if |item.payload| <= room.max && room.added then 4 + |item.payload| else 0
  }

  ghost predicate Complete(item: Item, rem: nat, room: Room) {
    Given(item, rem, room) == Needs(item, rem)
  }

  /** The data which is left after the step. */
  ghost function LeftAfter(item: Item, rem: nat, room: Room): int {
    if Given(item, rem, room) == 0 then rem else Needs(item, rem) - Given(item, rem, room)
  }

  /** The message takes some data, or the whole block. */
  ghost predicate Helps(room: Room, item: Item) {
    room.max > 0 && if TypeOf(item.info) == DATA then room.takes > 0 else |item.payload| <= room.max && room.added
  }

  /** From call n on, some call begins with room for the item. */
  ghost predicate Served(rooms: nat -> nat -> Room, n: nat, item: Item) {
    exists k | n <= k :: Helps(rooms(k)(0), item)
  }

  lemma NextTurn(rooms: nat -> nat -> Room, n: nat, item: Item) returns (k: nat)
    requires Served(rooms, n, item)
    ensures n <= k && Helps(rooms(k)(0), item)
  {
    k :| n <= k && Helps(rooms(k)(0), item);
  }

  lemma HelpsGives(item: Item, rem: nat, room: Room)
    requires Helps(room, item) && (rem > 0 ==> TypeOf(item.info) == DATA)
    ensures Given(item, rem, room) > 0
  {
  }

  /** The dump of one stored response. */
  class Dump {
    const blocks: seq<seq<Byte>>
    const size: nat
    var next: nat
    var offset: nat
    var sent: nat
    var rem: nat
    // all that went into the output so far
    var out: seq<Token>
    // the response which the blocks hold, after start bytes of cache entry
    ghost const items: seq<Item>
    ghost const flat: seq<Byte>
    ghost const start: nat
    // how many items are completely out
    ghost var done: nat

    ghost predicate Stored() {
      && size >= 4 && Cut(blocks, size, flat)
      && (forall i | 0 <= i < |items| :: WellFormed(items[i]))
      && start + |Stream(items)| <= |flat| && flat[start..start + |Stream(items)|] == Stream(items)
    }

    /** sent is the flat position of (next, offset), and tells exactly what is out. */
    ghost predicate Valid()
      reads this
    {
      && Stored() && offset <= size && next * size + offset == start + sent && done <= |items|
      && Progress(items, done, rem, sent, out)
    }

    /** HTX_CACHE_INIT */
    constructor (blocks: seq<seq<Byte>>, size: nat, start: nat, ghost items: seq<Item>, ghost flat: seq<Byte>)
      requires size >= 4 && start <= size && Cut(blocks, size, flat)
      requires forall i | 0 <= i < |items| :: WellFormed(items[i])
      requires start + |Stream(items)| <= |flat| && flat[start..start + |Stream(items)|] == Stream(items)
      ensures Valid() && this.items == items && this.flat == flat && this.start == start && sent == 0 && out == []
    {
      this.blocks, this.size, this.items, this.flat, this.start := blocks, size, items, flat, start;
      next, offset, sent, rem, out, done := 0, start, 0, 0, [], 0;
    }

    /** What is stored at the position of the next item. */
    lemma NextItem()
      requires Valid() && done < |items|
      ensures var p, q := start + |Stream(items[..done])|, items[done];
              && p + 4 + |q.payload| <= |flat| && WellFormed(q) && Unword(Word(q.info)) == q.info
              && flat[p..p + 4] == Word(q.info) && flat[p + 4..p + 4 + |q.payload|] == q.payload
              && |Stream(items[..done + 1])| == |Stream(items[..done])| + 4 + |q.payload| <= |Stream(items)|
              && Tokens(items[..done + 1]) == Tokens(items[..done]) + TokensOf(q)
              && SizeOf(q.info) == |q.payload| && rem <= |q.payload| && sent == |Stream(items[..done])| + (if rem == 0 then 0 else 4 + |q.payload| - rem)
              && (rem > 0 ==> TypeOf(q.info) == DATA)
    {
      hide Tokens, Stream, Cut, TokensOf, SizeOf, Word, Unword, Encode;
      var q, n, all := items[done], |Stream(items[..done])|, Stream(items);
      ItemAt(items, done);
      WordRoundTrip(q.info);
      SliceOfSlice(flat, start, all, n, 4);
      SliceOfSlice(flat, start, all, n + 4, |q.payload|);
    }

    /** Reads the info word of the next block, which may be split on two. */
    method ReadInfo() returns (info: nat, shblk: nat, off: nat)
      requires Valid() && rem == 0 && done < |items|
      ensures info == items[done].info
      ensures off <= size && shblk * size + off == start + sent + 4
    {
      hide Cut, Tokens, Stream, Progress, Word, Unword, SizeOf, TokensOf;
      NextItem();
      ghost var p := start + sent;
      shblk, off := next, offset;
      var sz := if 4 <= size - off then 4 else size - off;
      var word: seq<Byte> := [];
      if sz > 0 {
        InRow(blocks, size, flat, shblk, off);
        ReadBlock(blocks, size, flat, shblk, off, sz);
        word := blocks[shblk][off..off + sz];
      }
      off := off + sz;
      assert word == flat[p..p + sz];
      if sz < 4 {
        NextBlock(shblk, size);
        shblk := shblk + 1;
        InRow(blocks, size, flat, shblk, 0);
        ReadBlock(blocks, size, flat, shblk, 0, 4 - sz);
        SliceJoin(flat, p, sz, 4 - sz);
        word := word + blocks[shblk][..4 - sz];
        off := 4 - sz;
      }
      info := Unword(word);
    }

    /** Copies n bytes from a position of the row. */
    method Copy(shblk0: nat, off0: nat, n: nat) returns (s: seq<Byte>, shblk: nat, off: nat)
      requires Stored() && off0 <= size && shblk0 * size + off0 + n <= |flat|
      ensures off <= size && shblk * size + off == shblk0 * size + off0 + n
      ensures s == flat[shblk0 * size + off0..shblk0 * size + off0 + n]
    {
      hide Cut, Stream, WellFormed;
      ghost var base := shblk0 * size;
      ghost var p := base + off0;
      shblk, off, s := shblk0, off0, [];
      var blksz: nat := n;
      while blksz > 0
        invariant blksz <= n && off <= size && base == shblk * size && base + off == p + n - blksz
        invariant s == flat[p..p + n - blksz]
        decreases blksz, if off == size then 1 else 0
      {
        InRow(blocks, size, flat, shblk, 0);
        var max := Min(blksz, size - off);
        ReadBlock(blocks, size, flat, shblk, off, max);
        SliceJoin(flat, p, n - blksz, max);
        s := s + blocks[shblk][off..off + max];
        off := off + max;
        blksz := blksz - max;
        if blksz > 0 || off == size {
          NextBlock(shblk, size);
          shblk, off, base := shblk + 1, 0, base + size;
        }
      }
    }

    /** htx_cache_dump_blk(): a whole block, or nothing if there is no room. */
    method DumpBlk(info: nat, shblk0: nat, offset0: nat, room: Room) returns (ret: nat)
      requires Valid() && rem == 0 && done < |items| && info == items[done].info && TypeOf(info) != DATA
      requires offset0 <= size && shblk0 * size + offset0 == start + sent + 4
      modifies this
      ensures Valid() && sent == old(sent) + ret && rem == 0
      ensures ret == if 0 < room.max && SizeOf(info) <= room.max && room.added then 4 + SizeOf(info) else 0
      ensures done == if ret == 0 then old(done) else old(done) + 1
      ensures ret == 0 ==> out == old(out)
    {
      hide Cut, Stream, Tokens, SizeOf;
      NextItem();
      var max := room.max;
      if max == 0 {
        return 0;
      }
      var blksz := SizeOf(info);
      if blksz > max {
        return 0;
      }
      if !room.added {
        return 0;
      }
      var payload, shblk, off := Copy(shblk0, offset0, blksz);
      out := out + [Whole(info, payload)];
      ret := 4 + blksz;
      offset, next, sent := off, shblk, sent + ret;
      done := done + 1;
    }

    /** htx_cache_dump_data_blk(): as much of a data block as there is room for. */
    method DumpDataBlk(info: nat, shblk0: nat, offset0: nat, room: Room) returns (ret: nat)
      requires Valid() && done < |items| && TypeOf(items[done].info) == DATA
      requires if rem > 0 then shblk0 == next && offset0 == offset
               else info == items[done].info && offset0 <= size && shblk0 * size + offset0 == start + sent + 4
      modifies this
      ensures Valid() && sent == old(sent) + ret
      ensures room.max == 0 ==> ret == 0
      ensures room.max > 0 ==>
                var left := if old(rem) > 0 then old(rem) else |items[old(done)].payload|;
                var got := Min(left, Min(room.max, room.takes));
                ret == got + (if old(rem) > 0 then 0 else 4) && rem == left - got
      ensures done == if ret == 0 || rem > 0 then old(done) else old(done) + 1
      ensures ret == 0 ==> out == old(out) && rem == old(rem)
    {
      hide Cut, Stream, Tokens, DataTokens, TokensOf, Word, Unword, Progress, WellFormed, SizeOf;
      NextItem();
      var max := room.max;
      if max == 0 {
        return 0;
      }
      ghost var payload, d := items[done].payload, done;
      var blksz: nat, total := rem, 0;
      if rem == 0 {
        blksz, total := SizeOf(info), 4;
      }
      ghost var k := |payload| - blksz;
      var remData := 0;
      if blksz > max {
        remData, blksz := blksz - max, max;
      }
      var shblk, off, got := AddData(shblk0, offset0, blksz, room.takes);
      ghost var p := start + |Stream(items[..d])| + 4;
      SliceOfSlice(flat, p, payload, k, got);
      DataProgress(items, done, rem, sent, old(out), got);
      total := total + got;
      blksz := blksz - got;
      offset, next, sent, rem := off, shblk, sent + total, remData + blksz;
      if rem == 0 {
        done := done + 1;
      }
      ret := total;
    }

    /** The loop of htx_cache_dump_data_blk(): htx_add_data() takes what it likes of
        what it is given, and the loop ends when it does not take everything. */
    method AddData(shblk0: nat, off0: nat, n: nat, takes: nat) returns (shblk: nat, off: nat, got: nat)
      requires Stored() && off0 <= size && shblk0 * size + off0 + n <= |flat|
      modifies this`out
      ensures got == Min(n, takes) && off <= size && shblk * size + off == shblk0 * size + off0 + got
      ensures out == old(out) + DataTokens(flat[shblk0 * size + off0..shblk0 * size + off0 + got])
    {
      hide Cut, Stream, WellFormed, DataTokens;
      ghost var base, flat := shblk0 * size, this.flat;
      ghost var p := base + off0;
      shblk, off, got := shblk0, off0, 0;
      NoTokens(flat, p);
      while got < n
        invariant got <= n && got <= takes && off <= size && base == shblk * size && base + off == p + got
        invariant out == old(out) + DataTokens(flat[p..p + got])
        decreases n - got, if off == size then 1 else 0
      {
        InRow(blocks, size, flat, shblk, 0);
        var max := if n - got <= size - off then n - got else size - off;
        var sz := Min(max, takes - got);  // what htx_add_data() returns
        ReadBlock(blocks, size, flat, shblk, off, sz);
        out := out + DataTokens(blocks[shblk][off..off + sz]);
        TokensJoin(flat, p, got, sz);
        off := off + sz;
        got := got + sz;
        if sz < max {
          break;
        }
        if got < n || off == size {
          NextBlock(shblk, size);
          shblk, off, base := shblk + 1, 0, base + size;
        }
      }
    }

    /** How much of an item is left before step i of a call which starts at item first,
        with rem bytes of that left. */
    static ghost function LeftAt(i: nat, first: nat, rem: nat): nat {
      if i == first then rem else 0
    }

    /** htx_cache_dump_msg(): dumps up to the first block of type mark, unless the
        message is short of room. room(i) is what the message does at step i. */
    method DumpMsg(len0: nat, mark: nat, room: nat -> Room) returns (total: nat)
      requires Valid() && len0 == |Stream(items)| - sent
      modifies this
      ensures Valid() && sent == old(sent) + total && total <= len0 && old(done) <= done
      ensures forall i | old(done) <= i < done :: Complete(items[i], LeftAt(i, old(done), old(rem)), room(i - old(done)))
      ensures forall i | old(done) <= i < done - 1 :: TypeOf(items[i].info) != mark
      ensures total == len0 || (old(done) < done && TypeOf(items[done - 1].info) == mark) ==> rem == 0
      ensures total < len0 && !(old(done) < done && TypeOf(items[done - 1].info) == mark) ==>
                && done < |items|
                && var left := LeftAt(done, old(done), old(rem));
                   && !Complete(items[done], left, room(done - old(done)))
                   && rem == LeftAfter(items[done], left, room(done - old(done)))
      ensures total > 0 <==> len0 > 0 && Given(items[old(done)], old(rem), room(0)) > 0
      ensures total == 0 ==> out == old(out) && done == old(done) && rem == old(rem)
    {
      hide Cut, Stream, Tokens, TokensOf, Progress, Given, Needs, WellFormed;
      var len, i := len0, 0;
      total := 0;
      MoreToSend();
      while len > 0
        invariant Valid() && len == |Stream(items)| - sent && sent == old(sent) + total && i == done - old(done)
        invariant len > 0 ==> done < |items| && (rem > 0 ==> TypeOf(items[done].info) == DATA)
        invariant 0 <= i && rem == LeftAt(done, old(done), old(rem)) && (len == 0 ==> rem == 0)
        invariant forall k | old(done) <= k < done :: Complete(items[k], LeftAt(k, old(done), old(rem)), room(k - old(done)))
        invariant forall k | old(done) <= k < done :: TypeOf(items[k].info) != mark
        invariant if i == 0 then total == 0 && out == old(out) else total > 0 && len0 > 0 && Given(items[old(done)], old(rem), room(0)) > 0
        decreases len
      {
        var ret, type_ := Step(room(i));
        MoreToSend();
        if ret == 0 {
          break;
        }
        total := total + ret;
        len := len - ret;
        if rem > 0 || type_ == mark {
          break;
        }
        i := i + 1;
      }
    }

    /** One turn of its loop. */
    method Step(room: Room) returns (ret: nat, type_: nat)
      requires Valid() && done < |items| && (rem > 0 ==> TypeOf(items[done].info) == DATA)
      modifies this
      ensures Valid() && sent == old(sent) + ret && type_ == TypeOf(items[old(done)].info)
      ensures ret == Given(items[old(done)], old(rem), room)
      ensures done == if Complete(items[old(done)], old(rem), room) then old(done) + 1 else old(done)
      ensures rem == LeftAfter(items[old(done)], old(rem), room)
      ensures ret == 0 ==> out == old(out) && !Complete(items[old(done)], old(rem), room)
      ensures ret > 0 ==> (rem == 0 <==> Complete(items[old(done)], old(rem), room))
    {
      hide Cut, Stream, Tokens, TokensOf, Progress;
      NextItem();
      if rem > 0 {
        type_ := DATA;
        ret := DumpDataBlk(0, next, offset, room);
      } else {
        var info, shblk, off := ReadInfo();
        type_ := TypeOf(info);
        if type_ != DATA {
          ret := DumpBlk(info, shblk, off, room);
        } else {
          ret := DumpDataBlk(info, shblk, off, room);
        }
      }
    }

    /** Calls of it until everything is sent. Call n finds the message as rooms(n) says.
        If every item is served again and again, that is after finitely many calls,
        and exactly the stored blocks are out. */
    method DumpCalls(len: nat, marks: nat -> nat, rooms: nat -> nat -> Room) returns (calls: nat)
      requires Valid() && len == |Stream(items)|
      requires forall n: nat, i | 0 <= i < |items| :: Served(rooms, n, items[i])
      modifies this
      ensures Valid() && sent == len && out == Tokens(items)
    {
      hide Cut, Stream, Tokens, TokensOf, Progress, Given, Needs, Complete, LeftAfter, Helps;
      calls := 0;
      ghost var turn := 0;
      MoreToSend();
      if sent < len {
        turn := NextTurn(rooms, 0, items[done]);
      }
      while sent < len
        invariant Valid() && sent <= len && (sent < len ==> done < |items|)
        invariant sent < len ==> calls <= turn && Helps(rooms(turn)(0), items[done])
        decreases len - sent, turn - calls
      {
        MoreToSend();
        HelpsGives(items[done], rem, rooms(turn)(0));
        var total := DumpMsg(len - sent, marks(calls), rooms(calls));
        MoreToSend();
        calls := calls + 1;
        if total > 0 && done < |items| {
          turn := NextTurn(rooms, calls, items[done]);
        }
      }
      DumpComplete();
    }

    /** sent never passes the end of the stream, and reaches it with the last item. */
    lemma MoreToSend()
      requires Valid()
      ensures sent <= |Stream(items)| && (sent < |Stream(items)| <==> done < |items|)
      ensures rem > 0 ==> done < |items| && TypeOf(items[done].info) == DATA
    {
      hide Cut, Tokens;
      if done < |items| {
        NextItem();
      } else {
        assert items[..done] == items;
      }
    }

    /** Once everything is sent, exactly the stored blocks are out. */
    lemma DumpComplete()
      requires Valid() && sent == |Stream(items)|
      ensures out == Tokens(items)
    {
      hide Cut, Tokens;
      MoreToSend();
      assert items[..done] == items;
    }
  }

  lemma Middle(a: seq<Byte>, w: seq<Byte>, s: seq<Byte>, z: seq<Byte>)
    ensures var all, n, k := a + (w + s) + z, |a|, |a| + |w|;
            all[n..k] == w && all[k..k + |s|] == s
  {
  }

  lemma NoTokens(flat: seq<Byte>, p: nat)
    requires p <= |flat|
    ensures DataTokens(flat[p..p]) == []
  {
  }

  lemma SliceJoin<T>(flat: seq<T>, p: nat, got: nat, sz: nat)
    requires p + got + sz <= |flat|
    ensures flat[p..p + got] + flat[p + got..p + got + sz] == flat[p..p + got + sz]
  {
  }

  lemma TokensJoin(flat: seq<Byte>, p: nat, got: nat, sz: nat)
    requires p + got + sz <= |flat|
    ensures DataTokens(flat[p..p + got]) + DataTokens(flat[p + got..p + got + sz]) == DataTokens(flat[p..p + got + sz])
  {
  }

  lemma SliceOfSlice<T>(flat: seq<T>, p: nat, s: seq<T>, k: nat, n: nat)
    requires k + n <= |s| && p + |s| <= |flat| && flat[p..p + |s|] == s
    ensures flat[p + k..p + k + n] == s[k..k + n]
  {
    var a, b := flat[p + k..p + k + n], s[k..k + n];
    forall i | 0 <= i < |a|
      ensures a[i] == b[i]
    {
      assert s[k + i] == flat[p..p + |s|][k + i];
    }
  }

  lemma DataItem(q: Item)
    requires TypeOf(q.info) == DATA
    ensures TokensOf(q) == DataTokens(q.payload) && DataTokens(q.payload[..0]) == []
  {
  }

  lemma DataGrows(s: seq<Byte>, k: nat, n: nat)
    requires k + n <= |s|
    ensures DataTokens(s[..k]) + DataTokens(s[k..k + n]) == DataTokens(s[..k + n])
  {
  }
}
