// sdk/as/saa.c: the blocked byte array with a read and a write cursor.
module Saa {
  import opened Base
  import opened Powers

  const BLKLEN := 0x1_0000

  // Where offset o of block b stands in the flat array.
  function Index(b: int, o: int, len: nat): int { b * len + o }

  lemma IndexBefore(b: int, o: int, c: int, len: nat)
    requires b < c && o < len
    ensures Index(b, o, len) < Index(c, 0, len)
  {
    MulMonotone(b + 1, c, len);
    MulDistrib(b, 1, len);
  }

  lemma IndexSame(b: int, o: int, p: int, len: nat)
    ensures Index(b, o, len) - Index(b, p, len) == o - p
    ensures Index(b, len, len) == Index(b + 1, 0, len)
  {}

  // data written over s from pos on.
  function Overlay(s: seq<Byte>, pos: nat, data: seq<Byte>): (r: seq<Byte>)
    requires pos <= |s|
    ensures |r| == if pos + |data| <= |s| then |s| else pos + |data|
  {
    s[..pos] + data + (if pos + |data| <= |s| then s[pos + |data|..] else [])
  }

  lemma OverlayAt(s: seq<Byte>, pos: nat, data: seq<Byte>, k: nat)
    requires pos <= |s| && k < |Overlay(s, pos, data)|
    ensures Overlay(s, pos, data)[k] == if k < pos then s[k] else if k < pos + |data| then data[k - pos] else s[k]
  {}

  lemma OverlayTwice(s: seq<Byte>, pos: nat, a: seq<Byte>, b: seq<Byte>)
    requires pos <= |s|
    ensures Overlay(Overlay(s, pos, a), pos + |a|, b) == Overlay(s, pos, a + b)
  {}

  lemma OverlaySame(s: seq<Byte>, pos: nat, data: seq<Byte>)
    requires pos + |data| <= |s| && data == s[pos..pos + |data|]
    ensures Overlay(s, pos, data) == s
  {}

  lemma OverlayNothing(s: seq<Byte>, pos: nat)
    requires pos <= |s|
    ensures Overlay(s, pos, []) == s
  {}

  lemma Pieces(all: seq<Byte>, data: Option<seq<Byte>>, len: nat, i: nat, l: nat)
    requires |all| == len && i + l <= len && (data.Some? ==> all == data.value) && (data.None? ==> all == Zeros(len))
    ensures all[..i + l] == all[..i] + (if data.Some? then data.value[i..i + l] else Zeros(l))
  {}

  // The blocks hold the flat array.
  ghost predicate Backed(blocks: seq<array<Byte>>, len: nat, contents: seq<Byte>)
    requires forall b <- blocks :: b.Length == len
    reads blocks
  {
    forall b: nat, o: nat :: b < |blocks| && o < len && Index(b, o, len) < |contents| ==>
      0 <= Index(b, o, len) && contents[Index(b, o, len)] == blocks[b][o]
  }

  // n is a whole number of elements.
  predicate Whole(n: nat, elem: nat) { elem > 0 && n % elem == 0 }

  ghost predicate Distinct(blocks: seq<array<Byte>>) {
    forall b: nat, c: nat :: b < c < |blocks| ==> blocks[b] != blocks[c]
  }

  lemma Joined(s: seq<Byte>, start: nat, d: nat, l: nat)
    requires start + d + l <= |s|
    ensures s[start..start + d] + s[start + d..start + d + l] == s[start..start + d + l]
  {}

  method MemCpy(data: array<Byte>, d: nat, p: array<Byte>, at: nat, l: nat)
    requires data != p && d + l <= data.Length && at + l <= p.Length
    modifies data
    ensures data[..d + l] == old(data[..d]) + p[at..at + l] && data[d + l..] == old(data[d + l..])
  {
    forall i | 0 <= i < l { data[d + i] := p[at + i]; }
    assert data[..d] == old(data[..d]);
    assert data[d..d + l] == p[at..at + l] by {
      assert forall k :: d <= k < d + l ==> data[k] == p[at + (k - d)];
    }
    assert data[..d + l] == data[..d] + data[d..d + l];
  }

  lemma SeekFacts(posn: nat, len: nat, n: nat)
    requires len > 0 && posn <= Index(n, 0, len)
    ensures 0 <= posn / len <= n && posn == Index(posn / len, posn % len, len) && (posn / len == n ==> posn % len == 0)
  {}

  class SAA {
    const elemLen: nat
    const blkLen: nat
    var nblkptrs: nat
    var length: nat
    var datalen: nat
    var wblk: int
    var wpos: nat
    var wptr: nat
    var rblk: int
    var rpos: nat
    var rptr: nat
    var blkPtrs: seq<array<Byte>>
    ghost var contents: seq<Byte>

    // After a seek to 0 the write block stands before the first one.
    predicate WriteCursor()
      reads this
    {
      wptr == Index(wblk, wpos, blkLen) && wpos <= blkLen && -1 <= wblk < |blkPtrs| && (wblk == -1 ==> wpos == blkLen) && wptr <= datalen
    }

    // After a seek to the end the read block may stand behind the last one.
    predicate ReadCursor()
      reads this
    {
      rptr == Index(rblk, rpos, blkLen) && rpos <= blkLen && 0 <= rblk <= |blkPtrs| && (rblk == |blkPtrs| ==> rpos == 0) && rptr <= datalen
    }

    ghost predicate Valid()
      reads this, blkPtrs
    {
      elemLen > 0 && blkLen > 0 && Whole(blkLen, elemLen) && 0 < |blkPtrs| <= nblkptrs &&
      length == Index(|blkPtrs|, 0, blkLen) && datalen <= length &&
      |contents| == datalen && (forall b <- blkPtrs :: b.Length == blkLen) && Backed(blkPtrs, blkLen, contents) && Distinct(blkPtrs) && WriteCursor() && ReadCursor()
    }

    // saa_init.
    constructor (elemLen: nat)
      requires elemLen > 0
      ensures Valid() && contents == [] && wptr == 0 && rptr == 0 && fresh(blkPtrs)
      ensures this.elemLen == elemLen && blkLen == if elemLen >= BLKLEN then elemLen else BLKLEN - BLKLEN % elemLen
    {
      var len := if elemLen >= BLKLEN then elemLen else BLKLEN - BLKLEN % elemLen;
      var data := new Byte[len](i => 0);
      this.elemLen, this.blkLen, length, datalen, nblkptrs := elemLen, len, len, 0, 1;
      blkPtrs := [data];
      wblk, wpos, wptr, rblk, rpos, rptr := 0, 0, 0, 0, 0, 0;
      contents := [];
      new;
      WholeElements(elemLen);
    }

    // saa_extend.
    method Extend()
      requires Valid()
      modifies this`nblkptrs, this`blkPtrs, this`length
      ensures Valid() && fresh(blkPtrs[|blkPtrs| - 1]) && blkPtrs == old(blkPtrs) + [blkPtrs[|blkPtrs| - 1]]
    {
      hide Index;
      var blkn := |blkPtrs|;
      if blkn >= nblkptrs {
        nblkptrs := nblkptrs * 2;
      }
      var block := new Byte[blkLen](i => 0);
      blkPtrs := blkPtrs + [block];
      IndexSame(blkn, 0, 0, blkLen);
      IndexSame(blkn, blkLen, 0, blkLen);
      length := length + blkLen;
      forall b: nat, o: nat | b < |blkPtrs| && o < blkLen && Index(b, o, blkLen) < datalen
        ensures 0 <= Index(b, o, blkLen) && contents[Index(b, o, blkLen)] == blkPtrs[b][o]
      {
        if b == blkn {
          IndexSame(b, o, 0, blkLen);
          assert false;
        }
      }
    }

    // The flat positions of the chunk at the write cursor are its own.
    lemma ChunkIndex(b: nat, o: nat, l: nat)
      requires wptr == Index(wblk, wpos, blkLen) && wpos + l <= blkLen && o < blkLen && wblk >= 0
      ensures b == wblk ==> Index(b, o, blkLen) == wptr + o - wpos
      ensures b < wblk ==> Index(b, o, blkLen) < wptr
      ensures b > wblk ==> Index(b, o, blkLen) >= wptr + l
    {
      hide Index;
      IndexSame(wblk, o, wpos, blkLen);
      IndexSame(wblk, 0, wpos, blkLen);
      IndexSame(wblk, blkLen, wpos, blkLen);
      IndexSame(b, o, 0, blkLen);
      if b < wblk {
        IndexBefore(b, o, wblk, blkLen);
      } else if b > wblk {
        if b > wblk + 1 { IndexBefore(wblk + 1, 0, b, blkLen); }
      }
    }

    // Valid, but for what the l bytes at the write cursor hold.
    ghost predicate ValidBut(l: nat)
      reads this, blkPtrs
    {
      elemLen > 0 && blkLen > 0 && Whole(blkLen, elemLen) && 0 < |blkPtrs| <= nblkptrs &&
      length == Index(|blkPtrs|, 0, blkLen) && datalen <= length && |contents| == datalen &&
      Distinct(blkPtrs) && WriteCursor() && ReadCursor() && wblk >= 0 && wpos + l <= blkLen && wptr + l <= length &&
      wptr + l == Index(wblk, wpos + l, blkLen) &&
      (forall b <- blkPtrs :: b.Length == blkLen) &&
      forall b: nat, o: nat :: b < |blkPtrs| && o < blkLen && Index(b, o, blkLen) < datalen && !(b == wblk && wpos <= o < wpos + l) ==>
        0 <= Index(b, o, blkLen) && contents[Index(b, o, blkLen)] == blkPtrs[b][o]
    }

    lemma AdvanceBacked(l: nat, all: seq<Byte>)
      requires ValidBut(l) && all == Overlay(contents, wptr, blkPtrs[wblk][wpos..wpos + l])
      ensures Backed(blkPtrs, blkLen, all)
    {
      hide Index, Overlay, Distinct, ReadCursor;
      forall b: nat, o: nat | b < |blkPtrs| && o < blkLen && Index(b, o, blkLen) < |all|
        ensures 0 <= Index(b, o, blkLen) && all[Index(b, o, blkLen)] == blkPtrs[b][o]
      {
        ChunkIndex(b, o, l);
        IndexPositive(b, o, blkLen);
        OverlayAt(contents, wptr, blkPtrs[wblk][wpos..wpos + l], Index(b, o, blkLen));
      }
    }

    // The write cursor moves over l bytes that now belong to the array.
    method Advance(l: nat)
      requires ValidBut(l)
      modifies this`wpos, this`wptr, this`datalen, this`contents
      ensures Valid() && wptr == old(wptr) + l && wpos == old(wpos) + l
      ensures contents == Overlay(old(contents), old(wptr), blkPtrs[wblk][old(wpos)..wpos])
    {
      hide Index, Overlay, Distinct, Backed, Whole;
      ghost var all := Overlay(contents, wptr, blkPtrs[wblk][wpos..wpos + l]);
      AdvanceBacked(l, all);
      contents := all;
      wpos := wpos + l;
      wptr := wptr + l;
      if datalen < wptr { datalen := wptr; }
    }

    // memcpy of d to the write cursor, inside one block.
    method PutChunk(d: seq<Byte>)
      requires Valid() && wblk >= 0 && wpos + |d| <= blkLen
      modifies this`wpos, this`wptr, this`datalen, this`contents, blkPtrs[wblk]
      ensures Valid() && contents == Overlay(old(contents), old(wptr), d) && wptr == old(wptr) + |d| && wpos == old(wpos) + |d|
    {
      hide Index, Overlay, Whole;
      ChunkFits(|d|);
      var block := blkPtrs[wblk];
      forall i | 0 <= i < |d| { block[wpos + i] := d[i]; }
      assert block[wpos..wpos + |d|] == d;
      Advance(|d|);
    }

    // The write cursor steps into the next block, which is there or is added.
    method NextBlock()
      requires Valid() && wpos == blkLen
      modifies this`nblkptrs, this`blkPtrs, this`length, this`wblk, this`wpos
      ensures Valid() && wpos == 0 && wblk == old(wblk) + 1 >= 0 && old(blkPtrs) <= blkPtrs
      ensures |blkPtrs| <= |old(blkPtrs)| + 1 && (|blkPtrs| > |old(blkPtrs)| ==> fresh(blkPtrs[|old(blkPtrs)|]))
    {
      hide Index;
      IndexSame(wblk, 0, 0, blkLen);
      if wblk + 1 < |blkPtrs| { IndexBefore(wblk + 1, 0, |blkPtrs|, blkLen); }
      if wptr >= length {
        Extend();
      }
      wblk := wblk + 1;
      wpos := 0;
    }

    // One turn of saa_wbytes: a piece into the block, and on to the next block for more.
    method WPiece(d: seq<Byte>, more: bool)
      requires Valid() && wpos + |d| <= blkLen && (more ==> wpos + |d| == blkLen)
      modifies this`nblkptrs, this`blkPtrs, this`length, this`wblk, this`wpos, this`wptr, this`datalen, this`contents, blkPtrs
      ensures Valid() && wptr == old(wptr) + |d| && contents == Overlay(old(contents), old(wptr), d)
      ensures old(blkPtrs) <= blkPtrs && forall b <- blkPtrs :: b in old(blkPtrs) || fresh(b)
      ensures more ==> wpos == 0
    {
      hide Index, Overlay, Backed, Distinct, Whole;
      OverlayNothing(contents, wptr);
      if |d| > 0 {
        PutChunk(d);
      } else {
        assert d == [];
      }
      if more {
        NextBlock();
      }
    }

    // done bytes of all have been written over before from start on.
    ghost predicate Writing(before: seq<Byte>, start: nat, all: seq<Byte>, done: nat)
      reads this, blkPtrs
    {
      Valid() && start <= |before| && done <= |all| && wptr == start + done && contents == Overlay(before, start, all[..done])
    }

    // One turn of the loop of saa_wbytes.
    method WTurn(data: Option<seq<Byte>>, len: nat, left: nat, ghost before: seq<Byte>, ghost start: nat, ghost all: seq<Byte>)
      returns (rest: nat)
      requires 0 < left <= len == |all| && (data.Some? ==> data.value == all) && (data.None? ==> all == Zeros(len))
      requires Writing(before, start, all, len - left)
      modifies this`nblkptrs, this`blkPtrs, this`length, this`wblk, this`wpos, this`wptr, this`datalen, this`contents, blkPtrs
      ensures rest <= left && (rest > 0 ==> wpos == 0) && (old(wpos) == 0 ==> rest < left) && Writing(before, start, all, len - rest)
      ensures old(blkPtrs) <= blkPtrs && forall b <- blkPtrs :: b in old(blkPtrs) || fresh(b)
    {
      hide Valid, Overlay, Zeros, Whole;
      ValidParts();
      var l := blkLen - wpos;
      if l > left {
        l := left;
      }
      var d := if data.Some? then data.value[len - left..len - left + l] else Zeros(l);
      Pieces(all, data, len, len - left, l);
      OverlayTwice(before, start, all[..len - left], d);
      rest := left - l;
      WPiece(d, rest > 0);
    }

    // saa_wbytes; no data stands for zeros.
    method WBytes(data: Option<seq<Byte>>, len: nat)
      requires Valid() && (data.Some? ==> |data.value| == len)
      modifies this`nblkptrs, this`blkPtrs, this`length, this`wblk, this`wpos, this`wptr, this`datalen, this`contents, blkPtrs
      ensures Valid() && wptr == old(wptr) + len
      ensures contents == Overlay(old(contents), old(wptr), if data.Some? then data.value else Zeros(len))
      ensures old(blkPtrs) <= blkPtrs && forall b <- blkPtrs :: b in old(blkPtrs) || fresh(b)
    {
      hide Index, Overlay, Zeros, Whole, Backed, Distinct;
      ghost var all := if data.Some? then data.value else Zeros(len);
      ghost var before, start, blocks := contents, wptr, blkPtrs;
      ValidParts();
      OverlayNothing(contents, wptr);
      assert all[..0] == [];
      var left: nat := len;
      assert Writing(before, start, all, 0);
      hide Valid, Overlay, Zeros, Writing;
      while left > 0
        invariant left <= len && Writing(before, start, all, len - left)
        invariant blocks <= blkPtrs && forall b <- blkPtrs :: b in blocks || fresh(b)
        decreases left, wpos
      {
        assert forall i :: 0 <= i < |blkPtrs| ==> blkPtrs[i] in blkPtrs;
        left := WTurn(data, len, left, before, start, all);
      }
      AllWritten(before, start, all);
    }

    lemma AllWritten(before: seq<Byte>, start: nat, all: seq<Byte>)
      requires Writing(before, start, all, |all|)
      ensures Valid() && start <= |before| && wptr == start + |all| && contents == Overlay(before, start, all)
    {}

    lemma ValidParts()
      requires Valid()
      ensures wpos <= blkLen && blkLen > 0 && wptr <= |contents| == datalen && rptr <= datalen
    {}

    // saa_fwrite: writes at posn, which must not lie beyond the end.
    method FWrite(posn: nat, data: Option<seq<Byte>>, len: nat)
      requires Valid() && (data.Some? ==> |data.value| == len) && posn <= datalen
      modifies this`nblkptrs, this`blkPtrs, this`length, this`wblk, this`wpos, this`wptr, this`datalen, this`contents, blkPtrs
      ensures Valid() && wptr == posn + len
      ensures contents == Overlay(old(contents), posn, if data.Some? then data.value else Zeros(len))
      ensures old(blkPtrs) <= blkPtrs && forall b <- blkPtrs :: b in old(blkPtrs) || fresh(b)
    {
      hide Whole, Backed, Distinct, Overlay;
      var ix, o := Seek(posn);
      wpos := o;
      wptr := posn;
      wblk := ix;
      IndexSame(wblk - 1, 0, 0, blkLen);
      hide Index;
      if wpos == 0 {
        wpos := blkLen;
        wblk := wblk - 1;
      }
      WBytes(data, len);
    }

    // The block and the offset of a position up to the end: shift and mask for the usual
    // block length. The end of the last block is the start of the one behind it.
    method Seek(posn: nat) returns (ix: nat, o: nat)
      requires blkLen > 0 && posn <= datalen <= length == Index(|blkPtrs|, 0, blkLen)
      ensures ix <= |blkPtrs| && o < blkLen && posn == Index(ix, o, blkLen) && (ix == |blkPtrs| ==> o == 0)
    {
      SeekFacts(posn, blkLen, |blkPtrs|);
      if blkLen == BLKLEN {
        ix, o := posn / 0x1_0000, posn % 0x1_0000;
      } else {
        ix, o := posn / blkLen, posn % blkLen;
      }
    }

    // saa_wstruct: the place for one element at the write cursor, which must be on an
    // element boundary of its block. What the place holds becomes part of the array.
    method WStruct() returns (block: array<Byte>, at: nat)
      requires Valid() && Whole(wpos, elemLen)
      modifies this`nblkptrs, this`blkPtrs, this`length, this`wblk, this`wpos, this`wptr, this`datalen, this`contents
      ensures Valid() && wptr == old(wptr) + elemLen && at + elemLen <= block.Length && block in blkPtrs
      ensures contents == Overlay(old(contents), old(wptr), block[at..at + elemLen])
      ensures old(wptr) + elemLen <= |old(contents)| ==> contents == old(contents)
      ensures old(blkPtrs) <= blkPtrs && forall b <- blkPtrs :: b in old(blkPtrs) || fresh(b)
    {
      hide Index, Overlay, Backed, Distinct, Whole;
      ElementFits(wpos, elemLen, blkLen);
      if wpos + elemLen > blkLen {
        NextBlock();
      }
      block, at := blkPtrs[wblk], wpos;
      ChunkValid(elemLen);
      hide Valid;
      ghost var before, start, inside := contents, wptr, wptr + elemLen <= |contents|;
      if inside {
        ChunkHeld(elemLen);
        OverlaySame(before, start, block[at..at + elemLen]);
      }
      Advance(elemLen);
    }

    lemma ChunkValid(l: nat)
      requires Valid() && wblk >= 0 && wpos + l <= blkLen
      ensures ValidBut(l)
    {
      hide Index, Whole;
      ChunkFits(l);
    }

    // Bytes of the array at the write cursor are in its block.
    lemma ChunkHeld(l: nat)
      requires Valid() && wblk >= 0 && wpos + l <= blkLen && wptr + l <= |contents|
      ensures blkPtrs[wblk][wpos..wpos + l] == contents[wptr..wptr + l]
    {}

    lemma ChunkFits(l: nat)
      requires Valid() && wblk >= 0 && wpos + l <= blkLen
      ensures wptr + l == Index(wblk, wpos + l, blkLen) && wptr + l <= length
    {
      hide Index;
      IndexSame(wblk, wpos + l, wpos, blkLen);
      IndexSame(wblk, blkLen, wpos, blkLen);
      if wblk + 1 < |blkPtrs| { IndexBefore(wblk + 1, 0, |blkPtrs|, blkLen); }
    }

    // ----- Reading -----

    // saa_rewind.
    method Rewind()
      requires Valid()
      modifies this`rblk, this`rpos, this`rptr
      ensures Valid() && rptr == 0
    {
      rblk, rpos, rptr := 0, 0, 0;
    }

    // A position before the end is in a block, which starts anew at a block's end.
    lemma ReadBlock(b: int, o: nat)
      requires Valid() && o <= blkLen && 0 <= b && Index(b, o, blkLen) < datalen
      ensures o < blkLen ==> b < |blkPtrs|
      ensures o == blkLen ==> b + 1 < |blkPtrs| && Index(b, o, blkLen) == Index(b + 1, 0, blkLen)
    {
      hide Index, Backed, Distinct, Whole;
      IndexSame(b, o, 0, blkLen);
      IndexSame(b, blkLen, 0, blkLen);
      if b >= |blkPtrs| {
        if b > |blkPtrs| { IndexBefore(|blkPtrs|, 0, b, blkLen); }
      } else if b + 1 == |blkPtrs| {
        IndexSame(b, blkLen, o, blkLen);
      }
    }

    // Bytes of the array inside a block.
    lemma BlockHolds(b: nat, o: nat, l: nat)
      requires Valid() && b < |blkPtrs| && o + l <= blkLen && 0 <= Index(b, o, blkLen) && Index(b, o, blkLen) + l <= datalen
      ensures blkPtrs[b][o..o + l] == contents[Index(b, o, blkLen)..Index(b, o, blkLen) + l]
    {}

    // saa_rbytes: a place with up to len bytes from the read cursor, none at the end.
    method RBytes(len: nat) returns (n: nat, block: array?<Byte>, at: nat)
      requires Valid()
      modifies this`rblk, this`rpos, this`rptr
      ensures Valid() && rptr == old(rptr) + n && n <= len && rptr <= datalen
      ensures n == 0 <==> len == 0 || old(rptr) == datalen
      ensures block == null <==> old(rptr) == datalen
      ensures block != null ==> block in blkPtrs && at + n <= block.Length && block[at..at + n] == contents[old(rptr)..rptr]
    {
      hide Index, Backed, Distinct, Whole;
      n, block, at := 0, null, 0;
      if rptr >= datalen { return; }
      ReadBlock(rblk, rpos);
      if rpos >= blkLen {
        rblk := rblk + 1;
        rpos := 0;
      }
      n := len;
      if n > datalen - rptr { n := datalen - rptr; }
      if n > blkLen - rpos { n := blkLen - rpos; }
      block, at := blkPtrs[rblk], rpos;
      BlockHolds(rblk, rpos, n);
      IndexSame(rblk, rpos + n, rpos, blkLen);
      rpos := rpos + n;
      rptr := rptr + n;
    }

    // saa_rnbytes: exactly len bytes, which must be there.
    method RnBytes(data: array<Byte>, len: nat)
      requires Valid() && rptr + len <= datalen && len <= data.Length && data !in blkPtrs
      modifies this`rblk, this`rpos, this`rptr, data
      ensures Valid() && rptr == old(rptr) + len
      ensures data[..len] == contents[old(rptr)..rptr] && data[len..] == old(data[len..])
    {
      ValidParts();
      hide Valid;
      ghost var start, tail := rptr, data[len..];
      var d := 0;
      while d < len
        invariant d <= len && Valid() && rptr == start + d
        invariant data[..d] == contents[start..start + d] && data[len..] == tail
      {
        var l, p, at := RBytes(len - d);
        MemCpy(data, d, p, at, l);
        Joined(contents, start, d, l);
        d := d + l;
      }
    }

    // saa_fread.
    method FRead(posn: nat, data: array<Byte>, len: nat)
      requires Valid() && posn + len <= datalen && len <= data.Length && data !in blkPtrs
      modifies this`rblk, this`rpos, this`rptr, data
      ensures Valid() && rptr == posn + len
      ensures data[..len] == contents[posn..posn + len] && data[len..] == old(data[len..])
    {
      hide Backed, Distinct, Whole, Index;
      var ix, o := Seek(posn);
      rpos := o;
      rptr := posn;
      rblk := ix;
      RnBytes(data, len);
    }

    // saa_rstruct: the place of one element at the read cursor, which must be on an
    // element boundary of its block; none where less than an element is left.
    method RStruct() returns (block: array?<Byte>, at: nat)
      requires Valid() && Whole(rpos, elemLen)
      modifies this`rblk, this`rpos, this`rptr
      ensures Valid() && (block == null <==> old(rptr) + elemLen > datalen)
      ensures block == null ==> rptr == old(rptr)
      ensures block != null ==> rptr == old(rptr) + elemLen && block in blkPtrs && at + elemLen <= block.Length
      ensures block != null ==> block[at..at + elemLen] == contents[old(rptr)..rptr]
    {
      hide Index, Backed, Distinct, Whole;
      block, at := null, 0;
      if rptr + elemLen > datalen { return; }
      ElementFits(rpos, elemLen, blkLen);
      ReadBlock(rblk, rpos);
      if rpos + elemLen > blkLen {
        rblk := rblk + 1;
        rpos := 0;
      }
      block, at := blkPtrs[rblk], rpos;
      BlockHolds(rblk, rpos, elemLen);
      IndexSame(rblk, rpos + elemLen, rpos, blkLen);
      rpos := rpos + elemLen;
      rptr := rptr + elemLen;
    }
  }

  lemma IndexPositive(b: nat, o: nat, len: nat)
    ensures Index(b, o, len) >= 0
  {}

  // On an element boundary there is room for an element, or none at all.
  lemma ElementFits(pos: nat, elem: nat, len: nat)
    requires Whole(pos, elem) && Whole(len, elem) && pos <= len
    ensures pos + elem > len ==> pos == len
    ensures len > 0 ==> elem <= len
  {
    var p, n := pos / elem, len / elem;
    assert pos == p * elem && len == n * elem;
    if p < n {
      MulMonotone(p + 1, n, elem);
      MulDistrib(p, 1, elem);
    } else {
      MulMonotone(n, p, elem);
    }
    if n >= 1 { MulMonotone(1, n, elem); }
  }

  // A block holds whole elements.
  lemma WholeElements(elemLen: nat)
    requires elemLen > 0
    ensures var len := if elemLen >= BLKLEN then elemLen else BLKLEN - BLKLEN % elemLen; len > 0 && len % elemLen == 0
  {
    if elemLen < BLKLEN {
      var q, r := BLKLEN / elemLen, BLKLEN % elemLen;
      assert BLKLEN - r == q * elemLen + 0;
      DivModUnique(BLKLEN - r, elemLen, q, 0);
    } else {
      DivModUnique(elemLen, elemLen, 1, 0);
    }
  }

  // ----- The array as a flat file -----

  datatype File = File(contents: seq<Byte>, wptr: nat, rptr: nat)

  datatype Op = Write(data: seq<Byte>) | WriteAt(posn: nat, data: seq<Byte>) | Read(len: nat) | ReadAt(posn: nat, len: nat) | Rewind

  // What the source asserts.
  predicate Allowed(f: File, op: Op) {
    f.wptr <= |f.contents| && f.rptr <= |f.contents| &&
    match op
    case WriteAt(posn, _) => posn <= |f.contents|
    case Read(len) => f.rptr + len <= |f.contents|
    case ReadAt(posn, len) => posn + len <= |f.contents|
    case _ => true
  }

  function Applied(f: File, op: Op): (r: (File, seq<Byte>))
    requires Allowed(f, op)
    ensures r.0.wptr <= |r.0.contents| && r.0.rptr <= |r.0.contents|
  {
    match op
    case Write(data) => (File(Overlay(f.contents, f.wptr, data), f.wptr + |data|, f.rptr), [])
    case WriteAt(posn, data) => (File(Overlay(f.contents, posn, data), posn + |data|, f.rptr), [])
    case Read(len) => (f.(rptr := f.rptr + len), f.contents[f.rptr..f.rptr + len])
    case ReadAt(posn, len) => (f.(rptr := posn + len), f.contents[posn..posn + len])
    case Rewind => (f.(rptr := 0), [])
  }

  predicate AllAllowed(f: File, ops: seq<Op>)
    decreases |ops|
  {
    ops == [] || (Allowed(f, ops[0]) && AllAllowed(Applied(f, ops[0]).0, ops[1..]))
  }

  // The file after a run, and the bytes read in it.
  function AppliedAll(f: File, ops: seq<Op>): (File, seq<Byte>)
    requires AllAllowed(f, ops)
    decreases |ops|
  {
    if ops == [] then (f, [])
    else
      var (g, out) := Applied(f, ops[0]);
      var (h, more) := AppliedAll(g, ops[1..]);
      (h, out + more)
  }

  ghost function FileOf(s: SAA): File
    reads s
  {
    File(s.contents, s.wptr, s.rptr)
  }

  method Perform(s: SAA, op: Op) returns (out: seq<Byte>)
    requires s.Valid() && Allowed(FileOf(s), op)
    modifies s, s.blkPtrs
    ensures s.Valid() && (FileOf(s), out) == Applied(old(FileOf(s)), op)
    ensures forall b <- s.blkPtrs :: b in old(s.blkPtrs) || fresh(b)
  {
    hide Overlay, Index, Backed, Distinct, Whole;
    out := [];
    match op
    case Write(data) => s.WBytes(Some(data), |data|);
    case WriteAt(posn, data) => s.FWrite(posn, Some(data), |data|);
    case Read(len) =>
      var d := new Byte[len](i => 0);
      s.RnBytes(d, len);
      out := d[..len];
    case ReadAt(posn, len) =>
      var d := new Byte[len](i => 0);
      s.FRead(posn, d, len);
      out := d[..len];
    case Rewind => s.Rewind();
  }

  // After i operations of a run from f the file is g and out has been read.
  ghost predicate Ran(f: File, ops: seq<Op>, i: nat, g: File, out: seq<Byte>) {
    i <= |ops| && AllAllowed(f, ops) && AllAllowed(g, ops[i..]) &&
    AppliedAll(f, ops) == (AppliedAll(g, ops[i..]).0, out + AppliedAll(g, ops[i..]).1)
  }

  lemma RanStart(f: File, ops: seq<Op>)
    requires AllAllowed(f, ops)
    ensures Ran(f, ops, 0, f, [])
  {
    assert ops[0..] == ops && [] + AppliedAll(f, ops).1 == AppliedAll(f, ops).1;
  }

  lemma RanStep(f: File, ops: seq<Op>, i: nat, g: File, out: seq<Byte>)
    requires Ran(f, ops, i, g, out) && i < |ops|
    ensures Allowed(g, ops[i]) && var (h, more) := Applied(g, ops[i]); Ran(f, ops, i + 1, h, out + more)
  {
    hide Applied, Allowed;
    var rest := ops[i..];
    assert rest[0] == ops[i] && rest[1..] == ops[i + 1..];
    var (h, more) := Applied(g, ops[i]);
    var tail := AppliedAll(h, ops[i + 1..]).1;
    assert out + (more + tail) == (out + more) + tail;
  }

  lemma RanEnd(f: File, ops: seq<Op>, g: File, out: seq<Byte>)
    requires Ran(f, ops, |ops|, g, out)
    ensures AppliedAll(f, ops) == (g, out)
  {
    assert ops[|ops|..] == [] && out + [] == out;
  }

  // Any run of writes and reads, sequential or positioned, does what it does on a flat file.
  method PerformAll(s: SAA, ops: seq<Op>) returns (out: seq<Byte>)
    requires s.Valid() && AllAllowed(FileOf(s), ops)
    modifies s, s.blkPtrs
    ensures s.Valid() && (FileOf(s), out) == AppliedAll(old(FileOf(s)), ops)
  {
    hide *;
    ghost var f, blocks := FileOf(s), s.blkPtrs;
    out := [];
    RanStart(f, ops);
    for i := 0 to |ops|
      invariant s.Valid() && Ran(f, ops, i, FileOf(s), out)
      invariant forall b <- s.blkPtrs :: b in blocks || fresh(b)
    {
      RanStep(f, ops, i, FileOf(s), out);
      assert forall k :: 0 <= k < |s.blkPtrs| ==> s.blkPtrs[k] in s.blkPtrs;
      var more := Perform(s, ops[i]);
      out := out + more;
    }
    RanEnd(f, ops, FileOf(s), out);
  }

  // ----- LEB128 -----

  // saa_wleb128u of a number that is not negative.
  function Leb128u(v: nat): (r: seq<Byte>)
    ensures r != []
  {
    if v < 0x80 then [v] else [0x80 + v % 0x80] + Leb128u(v / 0x80)
  }

  function FromLeb128u(b: seq<Byte>): nat {
    if b == [] then 0 else (b[0] as int) % 0x80 + if b[0] < 0x80 then 0 else 0x80 * FromLeb128u(b[1..])
  }

  lemma {:induction false} Leb128uBack(v: nat)
    ensures FromLeb128u(Leb128u(v)) == v
    decreases v
  {
    if v >= 0x80 {
      Leb128uBack(v / 0x80);
      assert Leb128u(v)[1..] == Leb128u(v / 0x80);
    }
  }

  // saa_wleb128s.
  function Leb128s(v: int): (r: seq<Byte>)
    ensures r != []
    decreases if v < 0 then -v else v
  {
    var byte: Byte, rest := v % 0x80, v / 0x80;
    if (rest == 0 && byte < 0x40) || (rest == -1 && byte >= 0x40) then [byte]
    else [0x80 + v % 0x80] + Leb128s(rest)
  }

  // The last byte gives the sign.
  function FromLeb128s(b: seq<Byte>): int {
    if b == [] then 0
    else if b[0] >= 0x80 then (b[0] as int) % 0x80 + 0x80 * FromLeb128s(b[1..])
    else (b[0] as int) - if b[0] >= 0x40 then 0x80 else 0
  }

  lemma {:induction false} Leb128sBack(v: int)
    ensures FromLeb128s(Leb128s(v)) == v
    decreases if v < 0 then -v else v
  {
    var byte, rest := v % 0x80, v / 0x80;
    if !((rest == 0 && byte < 0x40) || (rest == -1 && byte >= 0x40)) {
      Leb128sBack(rest);
      assert Leb128s(v)[1..] == Leb128s(rest);
    }
  }

  // The loop of saa_wleb128u into its buffer.
  method WLeb128u(s: SAA, v: nat)
    requires s.Valid()
    modifies s, s.blkPtrs
    ensures s.Valid() && s.wptr == old(s.wptr) + |Leb128u(v)|
    ensures s.contents == Overlay(old(s.contents), old(s.wptr), Leb128u(v))
  {
    var temp: seq<Byte>, value := [], v;
    while value >= 0x80
      invariant temp + Leb128u(value) == Leb128u(v)
    {
      assert temp + ([0x80 + value % 0x80] + Leb128u(value / 0x80)) == (temp + [0x80 + value % 0x80]) + Leb128u(value / 0x80);
      temp, value := temp + [0x80 + value % 0x80], value / 0x80;
    }
    temp := temp + [value];
    s.WBytes(Some(temp), |temp|);
  }

  // The loop of saa_wleb128s into its buffer.
  method BytesOf(v: int) returns (temp: seq<Byte>)
    ensures temp == Leb128s(v)
  {
    var value, more := v, true;
    temp := [];
    while more
      invariant Leb128s(v) == if more then temp + Leb128s(value) else temp
      decreases more, if value < 0 then -value else value
    {
      var byte: Byte := value % 0x80;
      var low: Byte := 0x80 + value % 0x80;
      value := value / 0x80;
      if (value == 0 && byte < 0x40) || (value == -1 && byte >= 0x40) {
        more := false;
        temp := temp + [byte];
      } else {
        assert temp + ([low] + Leb128s(value)) == (temp + [low]) + Leb128s(value);
        temp := temp + [low];
      }
    }
  }

  method WLeb128s(s: SAA, v: int)
    requires s.Valid()
    modifies s, s.blkPtrs
    ensures s.Valid() && s.wptr == old(s.wptr) + |Leb128s(v)|
    ensures s.contents == Overlay(old(s.contents), old(s.wptr), Leb128s(v))
  {
    hide *;
    var temp := BytesOf(v);
    s.WBytes(Some(temp), |temp|);
  }
}
