/**
 A frame's fragments (`fragments_dict`: offset -> payload) and the receiver's
 `reconstruct_frame`, which copies them into a zeroed buffer and counts the
 bytes it wrote.
 */
module Fragments {
  import opened WireFormat

  /** One stored fragment: a payload at a byte offset of its frame. */
  datatype Piece = Piece(offset: nat, data: seq<byte>)

  /**
   The fragment dict of one frame. A Python dict iterates in insertion order,
   and `reconstruct_frame` copies in that order, so the dict is a sequence of
   pieces with distinct offsets, oldest key first.
   */
  type FragmentMap = seq<Piece>

  ghost predicate DistinctOffsets(f: FragmentMap)
  {
    forall i, j :: 0 <= i < j < |f| ==> f[i].offset != f[j].offset
  }

  ghost function Offsets(f: FragmentMap): set<nat>
  {
    set i | 0 <= i < |f| :: f[i].offset
  }

  /** The position of key `off`, or `|f|` when it is absent. */
  function Find(f: FragmentMap, off: nat): (k: nat)
    ensures k <= |f|
    ensures k < |f| ==> f[k].offset == off
    ensures k == |f| <==> off !in Offsets(f)
  {
    if f == [] then 0
    else if f[|f| - 1].offset == off then |f| - 1
    else
      var k := Find(f[..|f| - 1], off);
      assert Offsets(f) == Offsets(f[..|f| - 1]) + {f[|f| - 1].offset};
      if k == |f| - 1 then |f| else k
  }

  /** `fragments_dict[off]`, if present. */
  function Lookup(f: FragmentMap, off: nat): Option<seq<byte>>
  {
    var k := Find(f, off);
    if k < |f| then Some(f[k].data) else None
  }

  /** `fragments_dict[off] = d`: an existing key keeps its place and takes the new value (last write wins); a new key goes last. */
  function Put(f: FragmentMap, off: nat, d: seq<byte>): FragmentMap
  {
    var k := Find(f, off);
    if k < |f| then f[k := Piece(off, d)] else f + [Piece(off, d)]
  }

  lemma {:induction false} FindUnique(f: FragmentMap, off: nat, i: nat)
    requires DistinctOffsets(f) && i < |f| && f[i].offset == off
    ensures Find(f, off) == i
  {
    if f[|f| - 1].offset != off {
      assert i < |f| - 1;
      FindUnique(f[..|f| - 1], off, i);
    }
  }

  /** Storing a payload keeps offsets distinct, adds `off` as a key, replaces its value in its place and changes no other key. */
  lemma PutLookup(f: FragmentMap, off: nat, d: seq<byte>)
    requires DistinctOffsets(f)
    ensures DistinctOffsets(Put(f, off, d))
    ensures Offsets(Put(f, off, d)) == Offsets(f) + {off}
    ensures Lookup(Put(f, off, d), off) == Some(d)
    ensures forall o :: o != off ==> Lookup(Put(f, off, d), o) == Lookup(f, o)
    ensures off in Offsets(f) ==> |Put(f, off, d)| == |f|
    ensures off in Offsets(f) ==> Put(f, off, d) == f[Find(f, off) := Piece(off, d)]
    ensures off !in Offsets(f) ==> Put(f, off, d) == f + [Piece(off, d)]
  {
    PutOffsets(f, off, d);
    PutLookups(f, off, d);
  }

  lemma PutOffsets(f: FragmentMap, off: nat, d: seq<byte>)
    requires DistinctOffsets(f)
    ensures DistinctOffsets(Put(f, off, d))
    ensures Offsets(Put(f, off, d)) == Offsets(f) + {off}
  {
    var g := Put(f, off, d);
    var k := Find(f, off);
    assert forall i :: 0 <= i < |f| ==> g[i].offset == f[i].offset;
    if k < |f| {
      assert off in Offsets(f);
      assert Offsets(g) == Offsets(f);
    } else {
      assert g[|f|].offset == off;
      assert Offsets(g) == Offsets(f) + {off};
    }
  }

  lemma PutLookups(f: FragmentMap, off: nat, d: seq<byte>)
    requires DistinctOffsets(f) && DistinctOffsets(Put(f, off, d))
    ensures Lookup(Put(f, off, d), off) == Some(d)
    ensures forall o :: o != off ==> Lookup(Put(f, off, d), o) == Lookup(f, o)
  {
    var g := Put(f, off, d);
    var k := Find(f, off);
    assert g[k] == Piece(off, d);
    FindUnique(g, off, k);
    forall o | o != off
      ensures Lookup(g, o) == Lookup(f, o)
    {
      PutLookupOther(f, off, d, o);
    }
  }

  lemma PutLookupOther(f: FragmentMap, off: nat, d: seq<byte>, o: nat)
    requires DistinctOffsets(f) && DistinctOffsets(Put(f, off, d)) && o != off
    ensures Lookup(Put(f, off, d), o) == Lookup(f, o)
  {
    var g := Put(f, off, d);
    var j := Find(f, o);
    if j < |f| {
      assert g[j] == f[j];
      FindUnique(g, o, j);
    } else {
      assert forall i :: 0 <= i < |g| ==> g[i].offset != o;
      assert o !in Offsets(g);
    }
  }

  /** Re-delivering a fragment already stored with the same payload leaves the dict as it was. */
  lemma PutDuplicate(f: FragmentMap, off: nat, d: seq<byte>)
    requires Lookup(f, off) == Some(d)
    ensures Put(f, off, d) == f
  {
  }

  // ---------------------------------------------------------------------
  // reconstruct_frame, as a specification over the dict's iteration order

  /** `min(len(data), total_len - offset)`; zero or negative when nothing is copied. */
  function WriteLen(total: nat, p: Piece): int
  {
    if |p.data| <= total - p.offset then |p.data| else total - p.offset
  }

  /** Bytes a piece adds to `filled_bytes`. */
  function Contribution(total: nat, p: Piece): nat
  {
    if WriteLen(total, p) > 0 then WriteLen(total, p) else 0
  }

  /** The sum of `max(0, min(len(d), total_len - off))` over the dict, in iteration order. */
  function Filled(total: nat, f: FragmentMap): nat
  {
    if f == [] then 0 else Filled(total, f[..|f| - 1]) + Contribution(total, f[|f| - 1])
  }

  function Zeros(n: nat): (z: seq<byte>)
    ensures |z| == n && forall i :: 0 <= i < n ==> z[i] == 0
  {
    seq(n, _ => 0)
  }

  /** `rgb_data[offset:offset + write_len] = data[:write_len]` when `write_len > 0`. */
  function Write(buf: seq<byte>, p: Piece): (r: seq<byte>)
    ensures |r| == |buf|
    ensures forall i :: 0 <= i < |buf| ==>
      r[i] == if p.offset <= i < p.offset + WriteLen(|buf|, p) then p.data[i - p.offset] else buf[i]
  {
    var n := WriteLen(|buf|, p);
    if n > 0 then buf[..p.offset] + p.data[..n] + buf[p.offset + n..] else buf
  }

  /** The buffer after every piece of `f` has been copied into `bytearray(total)`, in order. */
  function Paint(total: nat, f: FragmentMap): (buf: seq<byte>)
    ensures |buf| == total
  {
    if f == [] then Zeros(total) else Write(Paint(total, f[..|f| - 1]), f[|f| - 1])
  }

  /** What `reconstruct_frame(packet_id, total, f)` returns. */
  function Reconstruct(total: nat, f: FragmentMap): (r: Option<seq<byte>>)
    ensures f == [] ==> r.None?
    ensures r.Some? ==> |r.value| == total
  {
    if |f| == 0 then None
    else if Filled(total, f) == total then Some(Paint(total, f))
    else None
  }

  /**
   `reconstruct_frame`: a zeroed buffer of `total` bytes is filled fragment by
   fragment, each write clipped to the buffer, and returned only when the
   count of bytes written equals `total`. The packet id is not used.
   */
  method ReconstructFrame(packetId: u16, total: nat, fragments: FragmentMap) returns (r: Option<seq<byte>>)
    ensures r.Some? <==> |fragments| > 0 && Filled(total, fragments) == total
    ensures r.Some? ==> r.value == Paint(total, fragments) && |r.value| == total
  {
    if |fragments| == 0 {
      return None;
    }
    var rgbData := new byte[total](_ => 0);
    var filledBytes := 0;
    for i := 0 to |fragments|
      invariant rgbData[..] == Paint(total, fragments[..i])
      invariant filledBytes == Filled(total, fragments[..i])
    {
      assert fragments[..i + 1][..i] == fragments[..i];
      var p := fragments[i];
      var writeLen := if |p.data| <= total - p.offset then |p.data| else total - p.offset;
      if writeLen > 0 {
        forall k | p.offset <= k < p.offset + writeLen {
          rgbData[k] := p.data[k - p.offset];
        }
        filledBytes := filledBytes + writeLen;
      }
      assert rgbData[..] == Write(Paint(total, fragments[..i]), p);
    }
    assert fragments[..|fragments|] == fragments;
    if filledBytes == total {
      r := Some(rgbData[..]);
    } else {
      r := None;
    }
  }

  // ---------------------------------------------------------------------
  // Properties of the reconstruction

  /** A fragment whose offset is at or past the end of the buffer adds no bytes and writes nothing. */
  lemma FarPieceIgnored(total: nat, f: FragmentMap, p: Piece)
    requires p.offset >= total
    ensures Filled(total, f + [p]) == Filled(total, f)
    ensures Paint(total, f + [p]) == Paint(total, f)
    ensures |f| > 0 ==> Reconstruct(total, f + [p]) == Reconstruct(total, f)
  {
    assert (f + [p])[..|f|] == f;
  }

  /**
   The byte-count test accepts overlapping fragments that leave a gap: here
   byte 3 is never written, yet the frame is returned (with a zero there).
   */
  lemma ByteCountAcceptsGap()
    ensures Reconstruct(4, [Piece(0, [1, 2]), Piece(1, [3, 4])]) == Some([1, 3, 4, 0])
  {
    var f := [Piece(0, [1, 2]), Piece(1, [3, 4])];
    assert f[..1] == [Piece(0, [1, 2])] && f[..1][..0] == [];
    assert Filled(4, f) == 4;
    assert Paint(4, f[..1]) == [1, 2, 0, 0];
    assert Paint(4, f) == [1, 3, 4, 0];
  }

  /** Byte `pos` of the buffer is copied by piece `p`. */
  predicate Writes(total: nat, p: Piece, pos: nat)
  {
    p.offset <= pos < p.offset + WriteLen(total, p)
  }

  lemma {:induction false} PaintUnwritten(total: nat, f: FragmentMap, pos: nat)
    requires pos < total
    requires forall j :: 0 <= j < |f| ==> !Writes(total, f[j], pos)
    ensures Paint(total, f)[pos] == 0
  {
    if f != [] {
      PaintUnwritten(total, f[..|f| - 1], pos);
    }
  }

  /** A byte that exactly one piece writes holds that piece's byte, whatever the order of the others. */
  lemma {:induction false} PaintWrittenOnce(total: nat, f: FragmentMap, i: nat, pos: nat, b: byte)
    requires i < |f| && pos < total && Writes(total, f[i], pos) && f[i].data[pos - f[i].offset] == b
    requires forall j :: 0 <= j < |f| && j != i ==> !Writes(total, f[j], pos)
    ensures Paint(total, f)[pos] == b
  {
    var g := f[..|f| - 1];
    if i < |f| - 1 {
      PaintWrittenOnce(total, g, i, pos, b);
    } else {
      assert Paint(total, f) == Write(Paint(total, g), f[i]);
    }
  }

  /** Where pieces overlap, a byte holds the value of the last piece in `f` that writes it. */
  lemma {:induction false} PaintLastWriter(total: nat, f: FragmentMap, i: nat, pos: nat)
    requires i < |f| && pos < total && Writes(total, f[i], pos)
    requires forall j :: i < j < |f| ==> !Writes(total, f[j], pos)
    ensures Paint(total, f)[pos] == f[i].data[pos - f[i].offset]
  {
    if i < |f| - 1 {
      PaintLastWriter(total, f[..|f| - 1], i, pos);
    }
  }

  /** A re-sent offset replaces its piece in place, and the overlap goes to whichever piece is later. */
  lemma PaintOverlapExample()
    ensures Put(Put(Put([], 0, [1, 2]), 1, [3]), 0, [5, 6]) == [Piece(0, [5, 6]), Piece(1, [3])]
    ensures Paint(3, [Piece(0, [5, 6]), Piece(1, [3])]) == [5, 3, 0]
  {
    var f := [Piece(0, [5, 6]), Piece(1, [3])];
    PaintLastWriter(3, f, 0, 0);
    PaintLastWriter(3, f, 1, 1);
    PaintUnwritten(3, f, 2);
  }

  // ---------------------------------------------------------------------
  // Frames cut into consecutive pieces

  /** `c` cuts `src[start..]` into non-empty consecutive pieces, each carrying its slice of `src`. */
  ghost predicate Tiles(c: seq<Piece>, start: nat, src: seq<byte>)
    decreases |c|
  {
    if c == [] then start == |src|
    else
      && c[0].offset == start
      && 0 < |c[0].data|
      && start + |c[0].data| <= |src|
      && c[0].data == src[start..start + |c[0].data|]
      && Tiles(c[1..], start + |c[0].data|, src)
  }

  /** Total payload bytes of a sequence of pieces. */
  function SumLen(s: seq<Piece>): nat
  {
    if s == [] then 0 else SumLen(s[..|s| - 1]) + |s[|s| - 1].data|
  }

  lemma {:induction false} SumLenAppend(a: seq<Piece>, b: seq<Piece>)
    ensures SumLen(a + b) == SumLen(a) + SumLen(b)
  {
    if b == [] {
      assert a + b == a;
    } else {
      assert (a + b)[..|a + b| - 1] == a + b[..|b| - 1];
      SumLenAppend(a, b[..|b| - 1]);
    }
  }

  /** Taking element `j` out of a sequence takes one occurrence of it out of its multiset. */
  lemma MultisetRemove<T>(s: seq<T>, j: nat)
    requires j < |s|
    ensures multiset(s) == multiset(s[..j] + s[j + 1..]) + multiset{s[j]}
  {
    assert s == s[..j] + [s[j]] + s[j + 1..];
  }

  lemma MultisetCancel<T>(m1: multiset<T>, m2: multiset<T>, x: T)
    requires m1 + multiset{x} == m2 + multiset{x}
    ensures m1 == m2
  {
    assert m1 == (m1 + multiset{x}) - multiset{x};
    assert m2 == (m2 + multiset{x}) - multiset{x};
  }

  lemma SumLenRemove(b: seq<Piece>, j: nat)
    requires j < |b|
    ensures SumLen(b) == SumLen(b[..j] + b[j + 1..]) + |b[j].data|
  {
    assert b == b[..j] + [b[j]] + b[j + 1..];
    SumLenAppend(b[..j] + [b[j]], b[j + 1..]);
    SumLenAppend(b[..j], [b[j]]);
    SumLenAppend(b[..j], b[j + 1..]);
    assert SumLen([b[j]]) == |b[j].data| by { assert [b[j]][..0] == []; }
  }

  /** Reordering pieces does not change their total length. */
  lemma {:induction false} SumLenPermutation(a: seq<Piece>, b: seq<Piece>)
    requires multiset(a) == multiset(b)
    ensures SumLen(a) == SumLen(b)
    decreases |a|
  {
    if a != [] {
      var n := |a| - 1;
      assert a[n] in multiset(b) by { assert a[n] in a; }
      var j :| 0 <= j < |b| && b[j] == a[n];
      MultisetRemove(a, n);
      MultisetRemove(b, j);
      assert a[..n] + a[n + 1..] == a[..n];
      MultisetCancel(multiset(a[..n]), multiset(b[..j] + b[j + 1..]), a[n]);
      SumLenPermutation(a[..n], b[..j] + b[j + 1..]);
      SumLenRemove(b, j);
    }
  }

  lemma {:induction false} TilesMember(c: seq<Piece>, start: nat, src: seq<byte>, x: Piece)
    requires Tiles(c, start, src) && x in c
    ensures start <= x.offset && 0 < |x.data| && x.offset + |x.data| <= |src|
    ensures x.data == src[x.offset..x.offset + |x.data|]
    decreases |c|
  {
    if x != c[0] {
      TilesMember(c[1..], start + |c[0].data|, src, x);
    }
  }

  lemma {:induction false} TilesCover(c: seq<Piece>, start: nat, src: seq<byte>, pos: nat) returns (x: Piece)
    requires Tiles(c, start, src) && start <= pos < |src|
    ensures x in c && x.offset <= pos < x.offset + |x.data|
    decreases |c|
  {
    if pos < start + |c[0].data| {
      x := c[0];
    } else {
      x := TilesCover(c[1..], start + |c[0].data|, src, pos);
    }
  }

  lemma {:induction false} TilesDisjoint(c: seq<Piece>, start: nat, src: seq<byte>, x: Piece, y: Piece, pos: nat)
    requires Tiles(c, start, src) && x in c && y in c
    requires x.offset <= pos < x.offset + |x.data| && y.offset <= pos < y.offset + |y.data|
    ensures x == y
    decreases |c|
  {
    var rest := c[1..];
    var next := start + |c[0].data|;
    if x != c[0] && y != c[0] {
      TilesDisjoint(rest, next, src, x, y, pos);
    } else if x != c[0] {
      TilesMember(rest, next, src, x);
    } else if y != c[0] {
      TilesMember(rest, next, src, y);
    }
  }

  lemma {:induction false} TilesNoDuplicates(c: seq<Piece>, start: nat, src: seq<byte>)
    requires Tiles(c, start, src)
    ensures forall x :: x in c ==> multiset(c)[x] == 1
    decreases |c|
  {
    if c != [] {
      var rest := c[1..];
      TilesNoDuplicates(rest, start + |c[0].data|, src);
      assert c == [c[0]] + rest;
      if c[0] in rest {
        TilesMember(rest, start + |c[0].data|, src, c[0]);
      }
    }
  }

  lemma {:induction false} TilesSumLen(c: seq<Piece>, start: nat, src: seq<byte>)
    requires Tiles(c, start, src)
    ensures SumLen(c) == |src| - start
    decreases |c|
  {
    if c != [] {
      TilesSumLen(c[1..], start + |c[0].data|, src);
      assert c == [c[0]] + c[1..];
      SumLenAppend([c[0]], c[1..]);
      assert SumLen([c[0]]) == |c[0].data| by { assert [c[0]][..0] == []; }
    }
  }

  /** Pieces that all lie inside the buffer are counted in full. */
  lemma {:induction false} FilledInRange(total: nat, f: FragmentMap)
    requires forall j :: 0 <= j < |f| ==> f[j].offset + |f[j].data| <= total
    ensures Filled(total, f) == SumLen(f)
  {
    if f != [] {
      FilledInRange(total, f[..|f| - 1]);
    }
  }

  /** Clipping only ever drops bytes: the count is at most the total payload. */
  lemma {:induction false} FilledAtMost(total: nat, f: FragmentMap)
    ensures Filled(total, f) <= SumLen(f)
  {
    if f != [] {
      FilledAtMost(total, f[..|f| - 1]);
    }
  }

  /** A prefix of the dict carries at most the payload of the whole dict. */
  lemma SumLenPrefix(f: FragmentMap, k: nat)
    requires k <= |f|
    ensures SumLen(f[..k]) <= SumLen(f)
  {
    SumLenAppend(f[..k], f[k..]);
    assert f[..k] + f[k..] == f;
  }

  lemma {:induction false} NoDuplicateIndices<T>(f: seq<T>, i: nat, j: nat)
    requires i < j < |f| && f[i] == f[j]
    ensures multiset(f)[f[i]] >= 2
  {
    assert f == f[..j] + f[j..];
    assert f[i] in f[..j] && f[j] in f[j..];
  }

  lemma {:induction false} SumLenPositive(s: seq<Piece>)
    requires s != [] && forall j :: 0 <= j < |s| ==> |s[j].data| > 0
    ensures SumLen(s) > 0
  {
  }

  /** Facts about any arrival order of a consecutive cut of `src`. */
  lemma TiledArrivals(src: seq<byte>, c: seq<Piece>, f: FragmentMap)
    requires Tiles(c, 0, src) && multiset(f) == multiset(c)
    ensures forall j :: 0 <= j < |f| ==>
      && 0 < |f[j].data| && f[j].offset + |f[j].data| <= |src|
      && f[j].data == src[f[j].offset..f[j].offset + |f[j].data|]
    ensures forall i, j :: 0 <= i < j < |f| ==> f[i] != f[j] && f[i].offset != f[j].offset
    ensures SumLen(f) == |src|
  {
    TilesNoDuplicates(c, 0, src);
    forall j | 0 <= j < |f|
      ensures 0 < |f[j].data| && f[j].offset + |f[j].data| <= |src|
      ensures f[j].data == src[f[j].offset..f[j].offset + |f[j].data|]
    {
      assert f[j] in multiset(c);
      TilesMember(c, 0, src, f[j]);
    }
    forall i, j | 0 <= i < j < |f|
      ensures f[i] != f[j] && f[i].offset != f[j].offset
    {
      assert f[i] in multiset(c) && f[j] in multiset(c);
      assert multiset(f)[f[i]] == 1;
      if f[i] == f[j] {
        NoDuplicateIndices(f, i, j);
      }
      if f[i].offset == f[j].offset {
        TilesDisjoint(c, 0, src, f[i], f[j], f[i].offset);
      }
    }
    SumLenPermutation(f, c);
    TilesSumLen(c, 0, src);
  }

  lemma SliceAt(src: seq<byte>, d: seq<byte>, off: nat, pos: nat)
    requires off <= pos < off + |d| <= |src| && d == src[off..off + |d|]
    ensures d[pos - off] == src[pos]
  {
  }

  /** Two different arrivals of a consecutive cut never write the same byte. */
  lemma TiledSingleWriter(src: seq<byte>, c: seq<Piece>, f: FragmentMap, i: nat, j: nat, pos: nat)
    requires Tiles(c, 0, src) && multiset(f) == multiset(c)
    requires i < |f| && j < |f| && f[i] != f[j]
    requires f[i].offset <= pos < f[i].offset + |f[i].data|
    ensures !Writes(|src|, f[j], pos)
  {
    if Writes(|src|, f[j], pos) {
      assert f[i] in multiset(c) && f[j] in multiset(c);
      TilesMember(c, 0, src, f[j]);
      TilesDisjoint(c, 0, src, f[i], f[j], pos);
    }
  }

  lemma TiledOnlyWriter(src: seq<byte>, c: seq<Piece>, f: FragmentMap, i: nat, pos: nat)
    requires Tiles(c, 0, src) && multiset(f) == multiset(c)
    requires forall i, j :: 0 <= i < j < |f| ==> f[i] != f[j]
    requires i < |f| && f[i].offset <= pos < f[i].offset + |f[i].data|
    ensures forall j :: 0 <= j < |f| && j != i ==> !Writes(|src|, f[j], pos)
  {
    forall j | 0 <= j < |f| && j != i
      ensures !Writes(|src|, f[j], pos)
    {
      assert f[i] != f[j] by {
        if i < j { assert f[i] != f[j]; } else { assert f[j] != f[i]; }
      }
      TiledSingleWriter(src, c, f, i, j, pos);
    }
  }

  /** Every byte of the buffer comes from the one arriving piece that covers it. */
  lemma TiledPaint(src: seq<byte>, c: seq<Piece>, f: FragmentMap, pos: nat)
    requires Tiles(c, 0, src) && multiset(f) == multiset(c) && pos < |src|
    requires forall i, j :: 0 <= i < j < |f| ==> f[i] != f[j]
    ensures Paint(|src|, f)[pos] == src[pos]
  {
    var x := TilesCover(c, 0, src, pos);
    var i := PermutedIndex(c, f, x);
    CoveredByte(src, c, x, pos);
    TiledOnlyWriter(src, c, f, i, pos);
    PaintWrittenOnce(|src|, f, i, pos, src[pos]);
  }

  /** An element of `c` sits at some index of any permutation `f` of `c`. */
  lemma PermutedIndex<T>(c: seq<T>, f: seq<T>, x: T) returns (i: nat)
    requires multiset(f) == multiset(c) && x in c
    ensures i < |f| && f[i] == x
  {
    assert x in multiset(f);
    i :| 0 <= i < |f| && f[i] == x;
  }

  /** The byte a covering piece holds for `pos` is the source's, and the piece writes it. */
  lemma CoveredByte(src: seq<byte>, c: seq<Piece>, x: Piece, pos: nat)
    requires Tiles(c, 0, src) && x in c && x.offset <= pos < x.offset + |x.data|
    ensures Writes(|src|, x, pos) && x.data[pos - x.offset] == src[pos]
  {
    TilesMember(c, 0, src, x);
    SliceAt(src, x.data, x.offset, pos);
  }

  /** No proper prefix of an arrival order of a consecutive cut reaches the byte count. */
  lemma TiledPrefixesShort(src: seq<byte>, c: seq<Piece>, f: FragmentMap)
    requires Tiles(c, 0, src) && multiset(f) == multiset(c)
    ensures forall k :: 0 <= k < |f| ==> Filled(|src|, f[..k]) < |src|
  {
    TiledArrivals(src, c, f);
    forall k | 0 <= k < |f|
      ensures Filled(|src|, f[..k]) < |src|
    {
      PrefixShort(|src|, f, k);
    }
  }

  /** Of non-empty in-range pieces whose lengths sum to `total`, a proper prefix fills fewer bytes. */
  lemma PrefixShort(total: nat, f: FragmentMap, k: nat)
    requires k < |f| && SumLen(f) == total
    requires forall j :: 0 <= j < |f| ==> 0 < |f[j].data| && f[j].offset + |f[j].data| <= total
    ensures Filled(total, f[..k]) < total
  {
    var p, q := f[..k], f[k..];
    assert f == p + q;
    SumLenAppend(p, q);
    SuffixNonEmpty(f, k);
    SumLenPositive(q);
    PrefixInRange(total, f, k);
    FilledInRange(total, p);
  }

  lemma SuffixNonEmpty(f: FragmentMap, k: nat)
    requires k < |f| && forall j :: 0 <= j < |f| ==> 0 < |f[j].data|
    ensures f[k..] != [] && forall j :: 0 <= j < |f[k..]| ==> 0 < |f[k..][j].data|
  {
    assert forall j :: 0 <= j < |f[k..]| ==> f[k..][j] == f[k + j];
  }

  lemma PrefixInRange(total: nat, f: FragmentMap, k: nat)
    requires k <= |f| && forall j :: 0 <= j < |f| ==> f[j].offset + |f[j].data| <= total
    ensures forall j :: 0 <= j < |f[..k]| ==> f[..k][j].offset + |f[..k][j].data| <= total
  {
    assert forall j :: 0 <= j < k ==> f[..k][j] == f[j];
  }

  /** All the pieces of a consecutive cut, in any order, fill the buffer with exactly the source bytes. */
  lemma TiledComplete(src: seq<byte>, c: seq<Piece>, f: FragmentMap)
    requires Tiles(c, 0, src) && multiset(f) == multiset(c)
    ensures Filled(|src|, f) == |src| && Paint(|src|, f) == src
  {
    TiledArrivals(src, c, f);
    FilledInRange(|src|, f);
    forall pos | 0 <= pos < |src|
      ensures Paint(|src|, f)[pos] == src[pos]
    {
      TiledPaint(src, c, f, pos);
    }
  }

  /**
   Whatever order the pieces of a consecutive cut of `src` arrive in, they
   have distinct offsets, no proper prefix of the arrival order is accepted
   by the byte count, and all of them reconstruct exactly `src`.
   */
  lemma ReconstructTiling(src: seq<byte>, c: seq<Piece>, f: FragmentMap)
    requires Tiles(c, 0, src) && multiset(f) == multiset(c)
    ensures DistinctOffsets(f)
    ensures forall k :: 0 <= k < |f| ==> Reconstruct(|src|, f[..k]).None?
    ensures Reconstruct(|src|, f) == if f == [] then None else Some(src)
  {
    TiledArrivals(src, c, f);
    TiledPrefixesShort(src, c, f);
    TiledComplete(src, c, f);
  }
}
