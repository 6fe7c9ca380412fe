/**
 The sender and the receiver together: the datagrams of one frame, delivered
 in any order to a table that has no entry for the frame's id, complete the
 frame exactly once, with the last datagram, and reproduce its bytes.
 */
module RoundTrip {
  import opened WireFormat
  import opened Fragments
  import Rgb565
  import opened Assembly
  import Sender

  function Pendings(n: nat): (s: seq<Outcome>)
    ensures |s| == n && forall i :: 0 <= i < n ==> s[i] == Pending
  {
    seq(n, _ => Pending)
  }

  /** The table once the first `k` arrivals of frame `id` are stored (before any completion). */
  function Partial(t: Table, id: u16, total: u32, f: FragmentMap, k: nat): Table
    requires id !in t && k <= |f|
  {
    Evict(t[id := InFlight(total, [])], id)[id := InFlight(total, f[..k])]
  }

  /** The table after the whole frame has arrived. */
  function Completed(t: Table, id: u16, total: u32, f: FragmentMap): Table
    requires id !in t
  {
    var full := Partial(t, id, total, f, |f|);
    if total % 2 == 1 then full else full - {id}
  }

  /** The table seen by arrival `k`. */
  function Before(t: Table, id: u16, total: u32, f: FragmentMap, k: nat): Table
    requires id !in t && k <= |f|
  {
    if k == 0 then t else Partial(t, id, total, f, k)
  }

  /** A piece whose offset is new goes last in the dict. */
  lemma PutNewOffset(f: FragmentMap, k: nat)
    requires DistinctOffsets(f) && k < |f|
    ensures Put(f[..k], f[k].offset, f[k].data) == f[..k + 1]
  {
    var g := f[..k];
    assert f[k].offset !in Offsets(g);
    assert Piece(f[k].offset, f[k].data) == f[k];
    assert f[..k + 1] == g + [f[k]];
  }

  /** Arrival `k` appends its piece to the frame's dict, which then holds the first `k + 1` arrivals. */
  lemma InsertArrival(t: Table, id: u16, total: u32, f: FragmentMap, k: nat)
    requires id !in t && k < |f| && DistinctOffsets(f) && f[k].offset < 0x1_0000_0000
    ensures InsertFragment(Before(t, id, total, f, k), Header(id, total, f[k].offset), f[k].data)
         == Partial(t, id, total, f, k + 1)
  {
    PutNewOffset(f, k);
    if k == 0 {
      InsertFirstArrival(t, id, total, f);
    } else {
      InsertLaterArrival(t, id, total, f, k);
    }
  }

  lemma InsertFirstArrival(t: Table, id: u16, total: u32, f: FragmentMap)
    requires id !in t && 0 < |f| && f[0].offset < 0x1_0000_0000
    requires Put([], f[0].offset, f[0].data) == f[..1]
    ensures InsertFragment(t, Header(id, total, f[0].offset), f[0].data) == Partial(t, id, total, f, 1)
  {
    var base := Evict(t[id := InFlight(total, [])], id);
    EvictNew(t, id, InFlight(total, []));
    assert base[id].fragments == [];
  }

  lemma InsertLaterArrival(t: Table, id: u16, total: u32, f: FragmentMap, k: nat)
    requires id !in t && 0 < k < |f| && f[k].offset < 0x1_0000_0000
    requires Put(f[..k], f[k].offset, f[k].data) == f[..k + 1]
    ensures InsertFragment(Partial(t, id, total, f, k), Header(id, total, f[k].offset), f[k].data)
         == Partial(t, id, total, f, k + 1)
  {
    var base := Evict(t[id := InFlight(total, [])], id);
    var x := base[id := InFlight(total, f[..k])];
    assert x[id] == InFlight(total, f[..k]);
    assert x[id := InFlight(total, f[..k + 1])] == base[id := InFlight(total, f[..k + 1])];
  }

  /** Arrival `k` stores its piece after those before it; only the last one completes the frame. */
  lemma TiledStep(src: seq<byte>, c: seq<Piece>, f: FragmentMap, id: u16, t: Table, k: nat)
    requires Tiles(c, 0, src) && multiset(f) == multiset(c)
    requires 0 < |src| < 0x1_0000_0000 && id !in t && k < |f|
    ensures f[k].offset < 0x1_0000_0000
    ensures var total: u32 := |src|;
      ReceiveFragment(Before(t, id, total, f, k), Header(id, total, f[k].offset), f[k].data)
        == if k + 1 < |f| then Step(Partial(t, id, total, f, k + 1), Pending)
           else Step(Completed(t, id, total, f), Assembled(id, src, Rgb565.ConvertRgb565ToBgr(src)))
  {
    var total: u32 := |src|;
    TiledArrivals(src, c, f);
    ReconstructTiling(src, c, f);
    var h := Header(id, total, f[k].offset);
    var x := Before(t, id, total, f, k);
    InsertArrival(t, id, total, f, k);
    var t1 := Partial(t, id, total, f, k + 1);
    assert t1[id].fragments == f[..k + 1];
    if k + 1 < |f| {
      ReceiveFragmentPending(x, h, f[k].data, t1);
    } else {
      assert f[..k + 1] == f;
      ReceiveFragmentCompletes(x, h, f[k].data, t1, src);
    }
  }

  /** Datagram `i` of `ds`, as the socket hands it over, decodes to the header of frame `id` and piece `f[i]`. */
  ghost predicate Carries(ds: seq<seq<byte>>, id: u16, total: u32, f: FragmentMap)
  {
    && |ds| == |f|
    && forall i :: 0 <= i < |f| ==>
         && f[i].offset < 0x1_0000_0000
         && UnpackHeader(Received(ds[i])) == Some(Fragment(Header(id, total, f[i].offset), f[i].data))
  }

  /** Every piece of `c` fits in one datagram the receiver takes whole. */
  ghost predicate FitsDatagrams(c: seq<Piece>)
  {
    forall p :: p in c ==> |p.data| <= MAX_PAYLOAD
  }

  /** The tables the frame's arrivals pass through: `Before` each arrival, then `Completed`. */
  function Tables(t: Table, id: u16, total: u32, f: FragmentMap): (ts: seq<Table>)
    requires id !in t
    ensures |ts| == |f| + 1
  {
    seq(|f| + 1, i requires 0 <= i <= |f| => if i < |f| then Before(t, id, total, f, i) else Completed(t, id, total, f))
  }

  /** Every datagram takes the table it meets to the next one in `Tables`. */
  lemma TiledSteps(src: seq<byte>, c: seq<Piece>, f: FragmentMap, id: u16, t: Table, ds: seq<seq<byte>>, outs: seq<Outcome>)
    requires Tiles(c, 0, src) && multiset(f) == multiset(c)
    requires 0 < |src| < 0x1_0000_0000 && id !in t && Carries(ds, id, |src|, f) && |f| > 0
    requires outs == Pendings(|f| - 1) + [Assembled(id, src, Rgb565.ConvertRgb565ToBgr(src))]
    ensures var ts := Tables(t, id, |src|, f);
      forall i :: 0 <= i < |ds| ==> ReceiveDatagram(ts[i], ds[i]) == Step(ts[i + 1], outs[i])
  {
    var total: u32 := |src|;
    var ts := Tables(t, id, total, f);
    forall i | 0 <= i < |ds|
      ensures ReceiveDatagram(ts[i], ds[i]) == Step(ts[i + 1], outs[i])
    {
      TiledStepAt(src, c, f, id, t, ds, outs, i);
    }
  }

  lemma TiledStepAt(src: seq<byte>, c: seq<Piece>, f: FragmentMap, id: u16, t: Table, ds: seq<seq<byte>>, outs: seq<Outcome>, i: nat)
    requires Tiles(c, 0, src) && multiset(f) == multiset(c)
    requires 0 < |src| < 0x1_0000_0000 && id !in t && Carries(ds, id, |src|, f) && i < |f|
    requires outs == Pendings(|f| - 1) + [Assembled(id, src, Rgb565.ConvertRgb565ToBgr(src))]
    ensures var ts := Tables(t, id, |src|, f);
      ReceiveDatagram(ts[i], ds[i]) == Step(ts[i + 1], outs[i])
  {
    var total: u32 := |src|;
    TablesAt(t, id, total, f, i);
    OutcomeAt(outs, |f| - 1, Assembled(id, src, Rgb565.ConvertRgb565ToBgr(src)), i);
    TiledStep(src, c, f, id, t, i);
    ReceiveDecoded(Before(t, id, total, f, i), ds[i], Header(id, total, f[i].offset), f[i].data);
  }

  lemma TablesAt(t: Table, id: u16, total: u32, f: FragmentMap, i: nat)
    requires id !in t && i < |f|
    ensures Tables(t, id, total, f)[i] == Before(t, id, total, f, i)
    ensures Tables(t, id, total, f)[i + 1]
         == if i + 1 < |f| then Partial(t, id, total, f, i + 1) else Completed(t, id, total, f)
  {
  }

  lemma OutcomeAt(outs: seq<Outcome>, n: nat, last: Outcome, i: nat)
    requires outs == Pendings(n) + [last] && i <= n
    ensures outs[i] == if i < n then Pending else last
  {
  }

  lemma FeedTiled(src: seq<byte>, c: seq<Piece>, f: FragmentMap, id: u16, t: Table, ds: seq<seq<byte>>)
    requires Tiles(c, 0, src) && multiset(f) == multiset(c)
    requires 0 < |src| < 0x1_0000_0000 && id !in t && Carries(ds, id, |src|, f)
    ensures var total: u32 := |src|;
      Feed(t, ds) == (Completed(t, id, total, f), Pendings(|f| - 1) + [Assembled(id, src, Rgb565.ConvertRgb565ToBgr(src))])
  {
    var total: u32 := |src|;
    var ts := Tables(t, id, total, f);
    assert |f| > 0 by { TiledArrivals(src, c, f); }
    var outs := Pendings(|f| - 1) + [Assembled(id, src, Rgb565.ConvertRgb565ToBgr(src))];
    TiledSteps(src, c, f, id, t, ds, outs);
    FeedSteps(ts, ds, outs);
    assert ts[0] == t && ts[|ds|] == Completed(t, id, total, f);
  }

  /** The frame's datagrams, in the order of `f`, carry `f` when every piece fits the receiver's buffer. */
  lemma DatagramsCarry(src: seq<byte>, c: seq<Piece>, f: FragmentMap, id: u16)
    requires Tiles(c, 0, src) && multiset(f) == multiset(c) && |src| < 0x1_0000_0000 && FitsDatagrams(c)
    ensures Carries(Sender.Datagrams(id, |src|, f), id, |src|, f)
  {
    TiledArrivals(src, c, f);
    forall i | 0 <= i < |f|
      ensures UnpackHeader(Received(Sender.Datagrams(id, |src|, f)[i]))
           == Some(Fragment(Header(id, |src|, f[i].offset), f[i].data))
    {
      assert f[i] in multiset(c);
      Sender.DatagramReceived(id, |src|, f[i]);
    }
  }

  /** After the whole frame: the other entries as after the frame's creation, and `id` kept only for an odd length. */
  lemma CompletedTable(t: Table, id: u16, total: u32, f: FragmentMap)
    requires id !in t
    ensures var r := Completed(t, id, total, f);
      && (id in r <==> total % 2 == 1)
      && (forall k :: k in r && k != id ==> k in t && r[k] == t[k])
      && (forall k :: k in t && k !in r ==> |t| >= Assembly.MAX_INCOMPLETE_FRAMES && k == MinKey(t.Keys) && k < id)
      && (|t| >= Assembly.MAX_INCOMPLETE_FRAMES && MinKey(t.Keys) < id ==> MinKey(t.Keys) !in r)
  {
    EvictNew(t, id, InFlight(total, []));
    assert f[..|f|] == f;
    ReplaceEntry(Evict(t[id := InFlight(total, [])], id), id, InFlight(total, f));
  }

  /**
   Round trip over the table: the pieces of any consecutive cut of `src`
   into pieces of at most `MAX_PAYLOAD` bytes,
   sent as datagrams of frame `id` in any order to a table without `id`,
   leave every datagram but the last pending and complete with the last,
   returning exactly `src`; the frame's entry is gone afterwards unless
   `src` has an odd length.
   */
  lemma ReassembleAnyOrder(src: seq<byte>, c: seq<Piece>, f: FragmentMap, id: u16, t: Table)
    requires Tiles(c, 0, src) && multiset(f) == multiset(c) && FitsDatagrams(c)
    requires 0 < |src| < 0x1_0000_0000 && id !in t
    ensures |f| > 0
    ensures var r := Feed(t, Sender.Datagrams(id, |src|, f));
      && r.1 == Pendings(|f| - 1) + [Assembled(id, src, Rgb565.ConvertRgb565ToBgr(src))]
      && (id in r.0 <==> |src| % 2 == 1)
  {
    var total: u32 := |src|;
    assert |f| == |multiset(f)| == |multiset(c)| == |c| > 0;
    DatagramsCarry(src, c, f, id);
    FeedTiled(src, c, f, id, t, Sender.Datagrams(id, total, f));
    CompletedTable(t, id, total, f);
  }

  /**
   Meanwhile the other entries are untouched, except that the smallest id
   is evicted when the frame's entry is created, exactly when the table
   already held two or more entries and that id is below `id`.
   */
  lemma ReassembleKeepsOthers(src: seq<byte>, c: seq<Piece>, f: FragmentMap, id: u16, t: Table)
    requires Tiles(c, 0, src) && multiset(f) == multiset(c) && FitsDatagrams(c)
    requires 0 < |src| < 0x1_0000_0000 && id !in t
    ensures var r := Feed(t, Sender.Datagrams(id, |src|, f)).0;
      && (forall k :: k in r && k != id ==> k in t && r[k] == t[k])
      && (forall k :: k in t && k !in r ==> |t| >= Assembly.MAX_INCOMPLETE_FRAMES && k == MinKey(t.Keys) && k < id)
      && (|t| >= Assembly.MAX_INCOMPLETE_FRAMES && MinKey(t.Keys) < id ==> MinKey(t.Keys) !in r)
  {
    var total: u32 := |src|;
    DatagramsCarry(src, c, f, id);
    FeedTiled(src, c, f, id, t, Sender.Datagrams(id, total, f));
    CompletedTable(t, id, total, f);
  }

  function MapSeq<A, B>(g: A -> B, s: seq<A>): (r: seq<B>)
    ensures |r| == |s| && forall i :: 0 <= i < |s| ==> r[i] == g(s[i])
  {
    seq(|s|, i requires 0 <= i < |s| => g(s[i]))
  }

  lemma MapSeqCons<A, B>(g: A -> B, a: A, s: seq<A>)
    ensures MapSeq(g, [a] + s) == [g(a)] + MapSeq(g, s)
  {
  }

  lemma MapSeqSlices<A, B>(g: A -> B, c: seq<A>, j: nat)
    requires j < |c|
    ensures MapSeq(g, c[..j] + c[j + 1..]) == MapSeq(g, c)[..j] + MapSeq(g, c)[j + 1..]
  {
  }

  /** Taking element `j` out of a list takes its image out of the list's images. */
  lemma MapSeqRemove<A, B>(g: A -> B, c: seq<A>, j: nat)
    requires j < |c|
    ensures var rest := c[..j] + c[j + 1..];
      && multiset(c) == multiset(rest) + multiset{c[j]}
      && multiset(MapSeq(g, c)) == multiset(MapSeq(g, rest)) + multiset{g(c[j])}
  {
    MultisetRemove(c, j);
    MultisetRemove(MapSeq(g, c), j);
    MapSeqSlices(g, c, j);
  }

  lemma SplitFirst<B>(p: seq<B>)
    requires p != []
    ensures multiset(p[1..]) == multiset(p) - multiset{p[0]}
  {
    assert p == [p[0]] + p[1..];
  }

  /** Every reordering of the images of a list is the image of some reordering of the list. */
  lemma {:induction false} PermutedImages<A, B>(g: A -> B, c: seq<A>, p: seq<B>) returns (f: seq<A>)
    requires multiset(p) == multiset(MapSeq(g, c))
    ensures multiset(f) == multiset(c) && p == MapSeq(g, f)
    decreases |p|
  {
    if p == [] {
      assert |c| == |MapSeq(g, c)| == |multiset(MapSeq(g, c))| == 0;
      f := [];
    } else {
      var ds := MapSeq(g, c);
      assert p[0] in multiset(ds);
      var j :| 0 <= j < |ds| && ds[j] == p[0];
      var rest := c[..j] + c[j + 1..];
      MapSeqRemove(g, c, j);
      SplitFirst(p);
      assert g(c[j]) == p[0];
      assert multiset(p[1..]) == multiset(MapSeq(g, rest));
      var f' := PermutedImages(g, rest, p[1..]);
      f := [c[j]] + f';
      assert multiset(f) == multiset{c[j]} + multiset(f');
      ConsImage(g, c[j], f', p);
    }
  }

  lemma ConsImage<A, B>(g: A -> B, x: A, s: seq<A>, p: seq<B>)
    requires p != [] && g(x) == p[0] && p[1..] == MapSeq(g, s)
    ensures p == MapSeq(g, [x] + s)
  {
    MapSeqCons(g, x, s);
    assert p == [p[0]] + p[1..];
  }

  /** Every ordering of a frame's datagrams is the datagrams of some ordering of its pieces. */
  lemma PermutedDatagrams(id: u16, total: nat, c: seq<Piece>, p: seq<seq<byte>>) returns (f: seq<Piece>)
    requires multiset(p) == multiset(Sender.Datagrams(id, total, c))
    ensures multiset(f) == multiset(c) && p == Sender.Datagrams(id, total, f)
  {
    var g := (q: Piece) => Sender.Datagram(id, total, q);
    assert Sender.Datagrams(id, total, c) == MapSeq(g, c);
    f := PermutedImages(g, c, p);
    assert Sender.Datagrams(id, total, f) == MapSeq(g, f);
  }

  /**
   The datagrams the camera sends for one 38400-byte frame, received in any
   order by a table without that frame's id, give 37 pending steps and then
   one completion carrying exactly the camera's frame buffer, which converts
   to an image; the frame's entry is then gone.
   */
  lemma CameraToReceiver(fb: seq<byte>, id: u16, p: seq<seq<byte>>, t: Table)
    requires |fb| == Sender.FRAME_BYTES && id !in t
    requires multiset(p) == multiset(Sender.Datagrams(id, Sender.FRAME_BYTES, Sender.ChunksFrom(fb, 0)))
    ensures var r := Feed(t, p);
      && r.1 == Pendings(37) + [Assembled(id, fb, Rgb565.ConvertRgb565ToBgr(fb))]
      && Rgb565.ConvertRgb565ToBgr(fb).Image?
      && id !in r.0
  {
    var c := Sender.ChunksFrom(fb, 0);
    var f := CameraArrivals(fb, id, p);
    CameraFrameConverts(fb);
    Sender.ChunksFit(fb);
    ReassembleAnyOrder(fb, c, f, id, t);
  }

  /** A full camera frame is word-aligned and of the size the receiver expects. */
  lemma CameraFrameConverts(fb: seq<byte>)
    requires |fb| == Sender.FRAME_BYTES
    ensures 0 < |fb| < 0x1_0000_0000 && |fb| % 2 == 0
    ensures Rgb565.ConvertRgb565ToBgr(fb).Image?
  {
    assert Rgb565.EXPECTED_SIZE == Sender.FRAME_BYTES;
  }

  /** The camera's datagrams, in any order, are those of an ordering of its 38 chunks. */
  lemma CameraArrivals(fb: seq<byte>, id: u16, p: seq<seq<byte>>) returns (f: seq<Piece>)
    requires |fb| == Sender.FRAME_BYTES
    requires multiset(p) == multiset(Sender.Datagrams(id, Sender.FRAME_BYTES, Sender.ChunksFrom(fb, 0)))
    ensures Tiles(Sender.ChunksFrom(fb, 0), 0, fb) && multiset(f) == multiset(Sender.ChunksFrom(fb, 0))
    ensures p == Sender.Datagrams(id, |fb|, f) && |f| == 38
  {
    var c := Sender.ChunksFrom(fb, 0);
    Sender.ChunksTile(fb, 0);
    Sender.FrameChunks(fb);
    f := PermutedDatagrams(id, Sender.FRAME_BYTES, c, p);
    assert |f| == |multiset(f)| == |multiset(c)| == |c|;
  }

  lemma TilesCons(p: Piece, rest: seq<Piece>, start: nat, next: nat, src: seq<byte>)
    requires p.offset == start && 0 < |p.data| && next == start + |p.data| <= |src|
    requires p.data == src[start..next] && Tiles(rest, next, src)
    ensures Tiles([p] + rest, start, src)
  {
    assert ([p] + rest)[0] == p && ([p] + rest)[1..] == rest;
  }

  lemma TilesLast(src: seq<byte>, b: nat)
    requires b < |src|
    ensures Tiles([Piece(b, src[b..])], b, src)
  {
    var z := Piece(b, src[b..]);
    assert z.data == src[b..|src|];
    TilesCons(z, [], b, |src|, src);
    assert [z] + [] == [z];
  }

  lemma TilesLastTwo(src: seq<byte>, a: nat, b: nat)
    requires a < b < |src|
    ensures Tiles([Piece(a, src[a..b]), Piece(b, src[b..])], a, src)
  {
    TilesLast(src, b);
    TilesCons(Piece(a, src[a..b]), [Piece(b, src[b..])], a, b, src);
    assert [Piece(a, src[a..b])] + [Piece(b, src[b..])] == [Piece(a, src[a..b]), Piece(b, src[b..])];
  }

  /** The frame cut at `a` and `b`, and the order in which its pieces arrive: second, first, third. */
  lemma ThreeWayCut(src: seq<byte>, a: nat, b: nat, f: FragmentMap) returns (c: seq<Piece>)
    requires 0 < a < b < |src|
    requires f == [Piece(a, src[a..b]), Piece(0, src[..a]), Piece(b, src[b..])]
    ensures c == [Piece(0, src[..a]), Piece(a, src[a..b]), Piece(b, src[b..])]
    ensures Tiles(c, 0, src) && multiset(f) == multiset(c)
  {
    var x, y, z := Piece(0, src[..a]), Piece(a, src[a..b]), Piece(b, src[b..]);
    c := [x, y, z];
    TilesLastTwo(src, a, b);
    TilesCons(x, [y, z], 0, a, src);
    assert [x] + [y, z] == [x, y, z];
    assert multiset([y, x, z]) == multiset{x, y, z} == multiset([x, y, z]);
  }

  /**
   A frame sent as three pieces, cut at offsets `a` and `b` (1000 and 2000
   for a 3000-byte frame, say) so that each fits one datagram the receiver
   takes whole, and delivered second, first, third:
   one completion, at the third datagram, with the frame's bytes, and the
   frame's entry is no longer in the table when the length is even.
   */
  lemma ThreeFragmentScenario(src: seq<byte>, a: nat, b: nat, id: u16, t: Table, f: FragmentMap)
    requires 0 < a < b < |src| < 0x1_0000_0000 && id !in t
    requires a <= MAX_PAYLOAD && b - a <= MAX_PAYLOAD && |src| - b <= MAX_PAYLOAD
    requires f == [Piece(a, src[a..b]), Piece(0, src[..a]), Piece(b, src[b..])]
    ensures var r := Feed(t, Sender.Datagrams(id, |src|, f));
      && r.1 == [Pending, Pending, Assembled(id, src, Rgb565.ConvertRgb565ToBgr(src))]
      && (id in r.0 <==> |src| % 2 == 1)
  {
    var c := ThreeWayCut(src, a, b, f);
    assert FitsDatagrams(c);
    ReassembleAnyOrder(src, c, f, id, t);
    ThreePendingOutcomes(Assembled(id, src, Rgb565.ConvertRgb565ToBgr(src)));
  }

  lemma ThreePendingOutcomes(last: Outcome)
    ensures Pendings(2) + [last] == [Pending, Pending, last]
  {
  }

  // ---------------------------------------------------------------------
  // Datagrams longer than the receiver's buffer

  /** The pieces the receiver gets from the datagrams of `f`: each keeps its offset and the first `MAX_PAYLOAD` bytes. */
  function CutPieces(f: seq<Piece>): (g: seq<Piece>)
    ensures |g| == |f| && forall i :: 0 <= i < |f| ==> g[i] == Piece(f[i].offset, Truncated(f[i].data))
    ensures DistinctOffsets(f) ==> DistinctOffsets(g)
  {
    seq(|f|, i requires 0 <= i < |f| => Piece(f[i].offset, Truncated(f[i].data)))
  }

  /** The datagrams of `f`, cut by the socket, carry the cut pieces. */
  lemma CutCarries(id: u16, total: u32, f: seq<Piece>)
    requires forall i :: 0 <= i < |f| ==> f[i].offset < 0x1_0000_0000
    ensures Carries(Sender.Datagrams(id, total, f), id, total, CutPieces(f))
  {
    var g := CutPieces(f);
    forall i | 0 <= i < |f|
      ensures UnpackHeader(Received(Sender.Datagrams(id, total, f)[i]))
           == Some(Fragment(Header(id, total, g[i].offset), g[i].data))
    {
      Sender.DatagramReceived(id, total, f[i]);
    }
  }

  /**
   Arrivals of frame `id` with distinct offsets whose payloads together
   fall short of `total` never complete the frame: every datagram is
   pending, and the table ends up holding the frame's entry with all of them.
   */
  lemma ShortRun(t: Table, id: u16, total: u32, g: FragmentMap, ds: seq<seq<byte>>)
    requires id !in t && Carries(ds, id, total, g) && DistinctOffsets(g) && SumLen(g) < total
    ensures Feed(t, ds) == (Before(t, id, total, g, |g|), Pendings(|g|))
  {
    var ts := Arrivals(t, id, total, g);
    var outs := Pendings(|g|);
    forall i | 0 <= i < |ds|
      ensures ReceiveDatagram(ts[i], ds[i]) == Step(ts[i + 1], outs[i])
    {
      ShortStep(t, id, total, g, ds, i);
    }
    FeedSteps(ts, ds, outs);
  }

  /** The tables the arrivals of frame `id` pass through while none completes it. */
  function Arrivals(t: Table, id: u16, total: u32, g: FragmentMap): (ts: seq<Table>)
    requires id !in t
    ensures |ts| == |g| + 1 && forall i :: 0 <= i <= |g| ==> ts[i] == Before(t, id, total, g, i)
  {
    seq(|g| + 1, i requires 0 <= i <= |g| => Before(t, id, total, g, i))
  }

  /**
   The datagrams of frame `id` for pieces `f` with distinct offsets, once cut
   by the socket, bring fewer than `total` bytes: in this order, each is
   pending, and the frame's entry ends up holding the cut pieces.
   */
  lemma CutShort(t: Table, id: u16, total: u32, f: FragmentMap)
    requires id !in t && 0 < |f| && forall i :: 0 <= i < |f| ==> f[i].offset < 0x1_0000_0000
    requires DistinctOffsets(f) && SumLen(CutPieces(f)) < total
    ensures var r := Feed(t, Sender.Datagrams(id, total, f));
      && r.1 == Pendings(|f|)
      && id in r.0 && r.0[id] == InFlight(total, CutPieces(f))
  {
    var g := CutPieces(f);
    CutCarries(id, total, f);
    ShortRun(t, id, total, g, Sender.Datagrams(id, total, f));
    AllArrived(t, id, total, g);
  }

  /** The socket's cut never adds bytes. */
  lemma {:induction false} CutSumLen(f: seq<Piece>)
    ensures SumLen(CutPieces(f)) <= SumLen(f)
  {
    if f != [] {
      var n := |f| - 1;
      CutSumLen(f[..n]);
      CutLast(f);
    }
  }

  /** It drops some bytes when piece `j` is longer than `MAX_PAYLOAD`. */
  lemma {:induction false} CutSumLenDrops(f: seq<Piece>, j: nat)
    requires j < |f| && MAX_PAYLOAD < |f[j].data|
    ensures SumLen(CutPieces(f)) < SumLen(f)
  {
    var n := |f| - 1;
    var last := f[n].data;
    if j < n {
      assert f[..n][j] == f[j];
      CutSumLenDrops(f[..n], j);
    } else {
      assert j == n && |Truncated(last)| < |last|;
      CutSumLen(f[..n]);
    }
    CutLast(f);
  }

  lemma CutLast(f: seq<Piece>)
    requires f != []
    ensures SumLen(CutPieces(f)) == SumLen(CutPieces(f[..|f| - 1])) + |Truncated(f[|f| - 1].data)|
    ensures SumLen(f) == SumLen(f[..|f| - 1]) + |f[|f| - 1].data|
  {
    var g := CutPieces(f);
    assert g[..|g| - 1] == CutPieces(f[..|f| - 1]);
  }

  /** A consecutive cut of `src` with a piece longer than `MAX_PAYLOAD` reaches the receiver short of `|src|` bytes. */
  lemma CutTilingShort(src: seq<byte>, c: seq<Piece>, f: FragmentMap)
    requires Tiles(c, 0, src) && multiset(f) == multiset(c)
    requires exists p :: p in c && MAX_PAYLOAD < |p.data|
    ensures SumLen(CutPieces(f)) < |src|
  {
    TiledArrivals(src, c, f);
    var p :| p in c && MAX_PAYLOAD < |p.data|;
    assert p in multiset(f) by { assert p in multiset(c); }
    var j :| 0 <= j < |f| && f[j] == p;
    CutSumLenDrops(f, j);
  }

  /**
   The datagrams of a consecutive cut of `src` with a piece longer than
   `MAX_PAYLOAD`, sent in any order to a table without `id`, never complete
   the frame: every one is pending, and the frame's entry keeps the cut pieces.
   */
  lemma ReassembleOversized(src: seq<byte>, c: seq<Piece>, f: FragmentMap, id: u16, t: Table)
    requires Tiles(c, 0, src) && multiset(f) == multiset(c)
    requires exists p :: p in c && MAX_PAYLOAD < |p.data|
    requires |src| < 0x1_0000_0000 && id !in t
    ensures var r := Feed(t, Sender.Datagrams(id, |src|, f));
      && r.1 == Pendings(|f|)
      && id in r.0 && r.0[id] == InFlight(|src|, CutPieces(f))
  {
    TiledArrivals(src, c, f);
    assert |f| == |multiset(f)| == |multiset(c)| == |c| > 0;
    CutTilingShort(src, c, f);
    CutShort(t, id, |src|, f);
  }

  lemma AllArrived(t: Table, id: u16, total: u32, g: FragmentMap)
    requires id !in t && 0 < |g|
    ensures var r := Before(t, id, total, g, |g|); id in r && r[id] == InFlight(total, g)
  {
    assert g[..|g|] == g;
  }

  /**
   A cut piece does not doom its frame when a later fragment brings the lost
   bytes at their own offset: a 3000-byte frame sent whole is cut to 2038
   bytes and pending, and a second datagram with bytes 2038 on completes it
   with exactly the frame.
   */
  lemma CutFrameRefilled(src: seq<byte>)
    requires |src| == 3000
    ensures var ds := Sender.Datagrams(1, |src|, [Piece(0, src), Piece(2038, src[2038..])]);
      && |Received(ds[0])| == MAX_PACKET_SIZE < |ds[0]|
      && Feed(map[], ds).1 == [Pending, Assembled(1, src, Rgb565.ConvertRgb565ToBgr(src))]
  {
    var f := [Piece(0, src), Piece(2038, src[2038..])];
    var g := CutPieces(f);
    assert g == [Piece(0, src[0..2038]), Piece(2038, src[2038..])];
    TilesLastTwo(src, 0, 2038);
    CutCarries(1, 3000, f);
    FeedTiled(src, g, g, 1, map[], Sender.Datagrams(1, 3000, f));
    TwoOutcomes(Assembled(1, src, Rgb565.ConvertRgb565ToBgr(src)));
  }

  lemma TwoOutcomes(last: Outcome)
    ensures Pendings(1) + [last] == [Pending, last]
  {
  }

  /** Arrival `i` of a short run appends its piece and is pending. */
  lemma ShortStep(t: Table, id: u16, total: u32, g: FragmentMap, ds: seq<seq<byte>>, i: nat)
    requires id !in t && Carries(ds, id, total, g) && DistinctOffsets(g) && SumLen(g) < total && i < |g|
    ensures ReceiveDatagram(Before(t, id, total, g, i), ds[i]) == Step(Before(t, id, total, g, i + 1), Pending)
  {
    var h := Header(id, total, g[i].offset);
    var x := Before(t, id, total, g, i);
    var t1 := Partial(t, id, total, g, i + 1);
    InsertArrival(t, id, total, g, i);
    FilledAtMost(total, g[..i + 1]);
    SumLenPrefix(g, i + 1);
    assert t1[id].fragments == g[..i + 1];
    ReceiveFragmentPending(x, h, g[i].data, t1);
    ReceiveDecoded(x, ds[i], h, g[i].data);
  }

  /**
   The 38400-byte camera frame of id 7, cut at 16000 and 32000 and delivered
   second, first, third, goes out as datagrams of 16010, 16010 and 6410
   bytes. The socket hands over only the first 2048 bytes of each, so the
   frame's dict collects 3 × 2038 = 6114 of its 38400 bytes: every datagram
   is pending, and frame 7 stays in the table with the three cut pieces.
   */
  lemma QqvgaThreeFragments(src: seq<byte>, t: Table, f: FragmentMap)
    requires |src| == Rgb565.EXPECTED_SIZE && 7 !in t
    requires f == [Piece(16000, src[16000..32000]), Piece(0, src[..16000]), Piece(32000, src[32000..])]
    ensures var ds := Sender.Datagrams(7, |src|, f);
      && |ds| == 3 && |ds[0]| == 16010 && |ds[1]| == 16010 && |ds[2]| == 6410
      && forall i :: 0 <= i < 3 ==> |Received(ds[i])| == MAX_PACKET_SIZE
    ensures var r := Feed(t, Sender.Datagrams(7, |src|, f));
      && r.1 == [Pending, Pending, Pending]
      && 7 in r.0
      && r.0[7] == InFlight(38400, [Piece(16000, src[16000..18038]), Piece(0, src[..2038]), Piece(32000, src[32000..34038])])
  {
    QqvgaFrameSize(src);
    var g := QqvgaCut(src, f);
    CutShort(t, 7, 38400, f);
    ThreePendings();
    QqvgaDatagramSizes(src, f);
  }

  /** The three datagrams are 16010, 16010 and 6410 bytes, all over the receiver's 2048. */
  lemma QqvgaDatagramSizes(src: seq<byte>, f: FragmentMap)
    requires |src| == 38400
    requires f == [Piece(16000, src[16000..32000]), Piece(0, src[..16000]), Piece(32000, src[32000..])]
    ensures var ds := Sender.Datagrams(7, |src|, f);
      && |ds| == 3 && |ds[0]| == 16010 && |ds[1]| == 16010 && |ds[2]| == 6410
      && forall i :: 0 <= i < 3 ==> |Received(ds[i])| == MAX_PACKET_SIZE
  {
  }

  lemma QqvgaFrameSize(src: seq<byte>)
    requires |src| == Rgb565.EXPECTED_SIZE
    ensures |src| == 38400
  {
  }

  /** The three cut pieces of the 38400-byte frame: distinct offsets and 6114 bytes in all. */
  lemma QqvgaCut(src: seq<byte>, f: FragmentMap) returns (g: FragmentMap)
    requires |src| == 38400
    requires f == [Piece(16000, src[16000..32000]), Piece(0, src[..16000]), Piece(32000, src[32000..])]
    ensures g == CutPieces(f)
    ensures g == [Piece(16000, src[16000..18038]), Piece(0, src[..2038]), Piece(32000, src[32000..34038])]
    ensures DistinctOffsets(f) && SumLen(g) == 6114 && |g| == 3
    ensures forall i :: 0 <= i < |f| ==> f[i].offset < 0x1_0000_0000
  {
    g := CutPieces(f);
    assert g[0] == Piece(16000, src[16000..18038]);
    assert g[1] == Piece(0, src[..2038]);
    assert g[2] == Piece(32000, src[32000..34038]);
    assert g[..2][..1] == [g[0]] && [g[0]][..0] == [];
    assert SumLen([g[0]]) == 2038;
    assert SumLen(g[..2]) == 4076;
  }

  lemma ThreePendings()
    ensures Pendings(3) == [Pending, Pending, Pending]
  {
  }
}
