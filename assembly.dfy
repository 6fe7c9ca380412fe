/**
 The receiver's frame table (`frame_buffer`: packet id -> (total_len,
 fragments)) and the per-datagram step of its receive loop: decode the
 header, store the fragment, evict an old frame when the table is too full,
 and hand a completed frame to the RGB565 conversion.
 */
module Assembly {
  import opened WireFormat
  import opened Fragments
  import opened Rgb565

  /** The table is meant to hold at most this many incomplete frames. */
  const MAX_INCOMPLETE_FRAMES: nat := 2

  /** One table entry: the total length seen with the frame's first fragment, and its fragments. */
  datatype InFlight = InFlight(totalLen: u32, fragments: FragmentMap)

  type Table = map<u16, InFlight>

  /** What one datagram does, seen from outside the table. */
  datatype Outcome =
    | Dropped                                                   // shorter than the header
    | Pending                                                   // stored, frame not complete
    | Assembled(packetId: u16, frame: seq<byte>, image: Conversion) // reconstructed and converted

  datatype Step = Step(table: Table, outcome: Outcome)

  /** Every fragment dict in the table has distinct keys, as a dict does. */
  ghost predicate WellFormed(t: Table)
  {
    forall id :: id in t ==> DistinctOffsets(t[id].fragments)
  }

  function MinKeyFrom(keys: set<u16>, lo: nat): (m: u16)
    requires keys != {} && forall k :: k in keys ==> lo <= k
    ensures m in keys && forall k :: k in keys ==> m <= k
    decreases 0x1_0000 - lo
  {
    assert exists k :: k in keys;
    if lo in keys then lo else MinKeyFrom(keys, lo + 1)
  }

  /** `min(frame_buffer.keys())`. */
  function MinKey(keys: set<u16>): (m: u16)
    requires keys != {}
    ensures m in keys && forall k :: k in keys ==> m <= k
  {
    MinKeyFrom(keys, 0)
  }

  /** The cleanup after a new id `id` was added: drop the smallest id when the table is over capacity, unless it is `id`. */
  function Evict(t: Table, id: u16): Table
    requires id in t
  {
    if |t| > MAX_INCOMPLETE_FRAMES then
      var oldest := MinKey(t.Keys);
      if oldest != id then t - {oldest} else t
    else t
  }

  /** The assembly block: create an entry for an unseen id (with eviction), then store the payload at its offset. */
  function InsertFragment(t: Table, h: Header, payload: seq<byte>): (r: Table)
    ensures h.packetId in r
  {
    var id := h.packetId;
    var t1 := if id in t then t else Evict(t[id := InFlight(h.totalLen, [])], id);
    t1[id := t1[id].(fragments := Put(t1[id].fragments, h.startOffset, payload))]
  }

  /**
   One iteration of the receive loop on `datagram`, of which the socket
   hands over at most `MAX_PACKET_SIZE` bytes. The frame is
   reconstructed with the CURRENT datagram's `total_len`; the one stored in
   the entry is never read. A completed frame is deleted from the table after
   conversion, except when the conversion raises (an odd byte count makes
   `np.frombuffer` fail), which the loop's catch-all swallows before the
   `del`.
   */
  function ReceiveDatagram(t: Table, datagram: seq<byte>): (s: Step)
    ensures s.outcome.Dropped? <==> |datagram| < HEADER_SIZE
    ensures s.outcome.Dropped? ==> s.table == t
  {
    match UnpackHeader(Received(datagram))
    case None => Step(t, Dropped)
    case Some(f) => ReceiveFragment(t, f.header, f.payload)
  }

  /** The part of the loop iteration after a successful header decode. */
  function ReceiveFragment(t: Table, h: Header, payload: seq<byte>): (s: Step)
    ensures s.outcome.Pending? || s.outcome.Assembled?
    ensures s.outcome.Assembled? ==> s.outcome.packetId == h.packetId && |s.outcome.frame| == h.totalLen
  {
    var t1 := InsertFragment(t, h, payload);
    var id := h.packetId;
    match Reconstruct(h.totalLen, t1[id].fragments)
    case None => Step(t1, Pending)
    case Some(frame) =>
      var image := ConvertRgb565ToBgr(frame);
      Step(if image.NotWordAligned? then t1 else t1 - {id}, Assembled(id, frame, image))
  }

  /** The receive loop over a sequence of datagrams. */
  function Feed(t: Table, datagrams: seq<seq<byte>>): (r: (Table, seq<Outcome>))
    ensures |r.1| == |datagrams|
    decreases |datagrams|
  {
    if datagrams == [] then (t, [])
    else
      var s := ReceiveDatagram(t, datagrams[0]);
      var rest := Feed(s.table, datagrams[1..]);
      (rest.0, [s.outcome] + rest.1)
  }

  /**
   The receive loop is the composition of its steps: if datagram `i` takes
   table `i` to table `i + 1` with outcome `i`, the loop from table `k` over
   the datagrams from `k` on ends in the last table with those outcomes.
   */
  lemma {:induction false} FeedRun(tables: seq<Table>, datagrams: seq<seq<byte>>, outcomes: seq<Outcome>, k: nat)
    requires |tables| == |datagrams| + 1 && |outcomes| == |datagrams| && k <= |datagrams|
    requires forall i :: k <= i < |datagrams| ==>
      ReceiveDatagram(tables[i], datagrams[i]) == Step(tables[i + 1], outcomes[i])
    ensures Feed(tables[k], datagrams[k..]) == (tables[|datagrams|], outcomes[k..])
    decreases |datagrams| - k
  {
    if k < |datagrams| {
      FeedRun(tables, datagrams, outcomes, k + 1);
      var ds := datagrams[k..];
      assert ds[0] == datagrams[k] && ds[1..] == datagrams[k + 1..];
      assert outcomes[k..] == [outcomes[k]] + outcomes[k + 1..];
    } else {
      assert datagrams[k..] == [] && outcomes[k..] == [];
    }
  }

  /** The whole receive loop, from the first table, under the same step-by-step hypothesis. */
  lemma FeedSteps(tables: seq<Table>, datagrams: seq<seq<byte>>, outcomes: seq<Outcome>)
    requires |tables| == |datagrams| + 1 && |outcomes| == |datagrams|
    requires forall i :: 0 <= i < |datagrams| ==>
      ReceiveDatagram(tables[i], datagrams[i]) == Step(tables[i + 1], outcomes[i])
    ensures Feed(tables[0], datagrams) == (tables[|datagrams|], outcomes)
  {
    FeedRun(tables, datagrams, outcomes, 0);
    assert datagrams[0..] == datagrams && outcomes[0..] == outcomes;
  }

  class FrameAssembler {
    var frameBuffer: Table

    ghost predicate Valid()
      reads this
    {
      WellFormed(frameBuffer)
    }

    constructor ()
      ensures Valid() && frameBuffer == map[]
    {
      frameBuffer := map[];
    }

    /** Lines 122-132 of the receive loop. */
    method Insert(h: Header, payload: seq<byte>)
      requires Valid()
      modifies this
      ensures Valid()
      ensures frameBuffer == InsertFragment(old(frameBuffer), h, payload)
    {
      InsertWellFormed(frameBuffer, h, payload);
      var id := h.packetId;
      if id !in frameBuffer {
        frameBuffer := frameBuffer[id := InFlight(h.totalLen, [])];
        if |frameBuffer| > MAX_INCOMPLETE_FRAMES {
          var oldestId := MinKey(frameBuffer.Keys);
          if oldestId != id {
            frameBuffer := frameBuffer - {oldestId};
          }
        }
      }
      var fragmentsDict := frameBuffer[id].fragments;
      frameBuffer := frameBuffer[id := frameBuffer[id].(fragments := Put(fragmentsDict, h.startOffset, payload))];
    }

    /** One iteration of the receive loop, without the socket, display and FPS code. */
    method Receive(datagram: seq<byte>) returns (outcome: Outcome)
      requires Valid()
      modifies this
      ensures Valid()
      ensures Step(frameBuffer, outcome) == ReceiveDatagram(old(frameBuffer), datagram)
    {
      var data := Received(datagram);
      var decoded := UnpackHeader(data);
      if decoded.None? {
        return Dropped;
      }
      var h, payload := decoded.value.header, decoded.value.payload;
      Insert(h, payload);
      var assembled := ReconstructFrame(h.packetId, h.totalLen, frameBuffer[h.packetId].fragments);
      if assembled.None? {
        return Pending;
      }
      var image := ConvertRgb565ToBgr(assembled.value);
      outcome := Assembled(h.packetId, assembled.value, image);
      if !image.NotWordAligned? {
        frameBuffer := frameBuffer - {h.packetId};
      }
    }
  }

  // ---------------------------------------------------------------------
  // Properties of the table

  lemma InsertWellFormed(t: Table, h: Header, payload: seq<byte>)
    requires WellFormed(t)
    ensures WellFormed(InsertFragment(t, h, payload))
  {
    var id := h.packetId;
    var t1 := if id in t then t else Evict(t[id := InFlight(h.totalLen, [])], id);
    if id !in t {
      EvictNew(t, id, InFlight(h.totalLen, []));
    }
    assert WellFormed(t1);
    PutLookup(t1[id].fragments, h.startOffset, payload);
    var r := InsertFragment(t, h, payload);
    assert r == t1[id := InFlight(t1[id].totalLen, Put(t1[id].fragments, h.startOffset, payload))];
    forall k | k in r
      ensures DistinctOffsets(r[k].fragments)
    {
      if k != id {
        assert r[k] == t1[k];
      }
    }
  }

  lemma ReceiveWellFormed(t: Table, data: seq<byte>)
    requires WellFormed(t)
    ensures WellFormed(ReceiveDatagram(t, data).table)
  {
    if UnpackHeader(Received(data)).Some? {
      var f := UnpackHeader(Received(data)).value;
      ReceiveDecoded(t, data, f.header, f.payload);
      ReceiveFragmentWellFormed(t, f.header, f.payload);
    }
  }

  lemma ReceiveFragmentWellFormed(t: Table, h: Header, payload: seq<byte>)
    requires WellFormed(t)
    ensures WellFormed(ReceiveFragment(t, h, payload).table)
  {
    var t1 := InsertFragment(t, h, payload);
    InsertWellFormed(t, h, payload);
    RemoveWellFormed(t1, h.packetId);
    var r := ReceiveFragment(t, h, payload).table;
    assert r == t1 || r == t1 - {h.packetId};
  }

  lemma RemoveWellFormed(t: Table, id: u16)
    requires WellFormed(t)
    ensures WellFormed(t - {id})
  {
  }

  /**
   A fragment of a frame already in the table creates and evicts nothing:
   only that frame's dict changes, and in it only the value at the
   fragment's offset, which becomes the new payload.
   */
  lemma InsertKnownFrame(t: Table, h: Header, payload: seq<byte>)
    requires WellFormed(t) && h.packetId in t
    ensures var r := InsertFragment(t, h, payload);
      && r.Keys == t.Keys
      && (forall k :: k in t && k != h.packetId ==> r[k] == t[k])
      && r[h.packetId].totalLen == t[h.packetId].totalLen
      && Lookup(r[h.packetId].fragments, h.startOffset) == Some(payload)
      && (forall o :: o != h.startOffset ==>
            Lookup(r[h.packetId].fragments, o) == Lookup(t[h.packetId].fragments, o))
      && (h.startOffset in Offsets(t[h.packetId].fragments) ==>
            r[h.packetId].fragments == t[h.packetId].fragments[Find(t[h.packetId].fragments, h.startOffset) := Piece(h.startOffset, payload)])
      && (h.startOffset !in Offsets(t[h.packetId].fragments) ==>
            r[h.packetId].fragments == t[h.packetId].fragments + [Piece(h.startOffset, payload)])
  {
    PutLookup(t[h.packetId].fragments, h.startOffset, payload);
  }

  /** Re-delivering a fragment already stored with the same payload leaves the table as it was. */
  lemma InsertDuplicate(t: Table, h: Header, payload: seq<byte>)
    requires h.packetId in t && Lookup(t[h.packetId].fragments, h.startOffset) == Some(payload)
    ensures InsertFragment(t, h, payload) == t
  {
    PutDuplicate(t[h.packetId].fragments, h.startOffset, payload);
  }

  /** The smallest key after adding a new key `id`. */
  lemma MinKeyInsert(keys: set<u16>, id: u16)
    requires keys != {} && id !in keys
    ensures MinKey(keys + {id}) == if MinKey(keys) < id then MinKey(keys) else id
  {
    var m, m0 := MinKey(keys + {id}), MinKey(keys);
    assert m0 in keys + {id};
    if m != id {
      assert m in keys;
    }
  }

  /**
   Adding entry `id` and cleaning up keeps the new entry and every other
   entry as it was, except that the smallest id may be dropped: only when
   the table already held two or more entries and that id is below `id`.
   */
  lemma EvictNew(t: Table, id: u16, e: InFlight)
    requires id !in t
    ensures var r := Evict(t[id := e], id);
      && id in r && r[id] == e
      && (forall k :: k in r && k != id ==> k in t && r[k] == t[k])
      && (forall k :: k in t && k !in r ==> |t| >= MAX_INCOMPLETE_FRAMES && k == MinKey(t.Keys) && k < id)
      && (if |t| >= MAX_INCOMPLETE_FRAMES && MinKey(t.Keys) < id
          then r.Keys == t.Keys + {id} - {MinKey(t.Keys)}
          else r.Keys == t.Keys + {id})
  {
    var t0 := t[id := e];
    assert t0.Keys == t.Keys + {id};
    assert |t0| == |t| + 1 by { assert |t0.Keys| == |t.Keys| + 1; }
    if |t| >= MAX_INCOMPLETE_FRAMES {
      assert t.Keys != {} by { assert |t.Keys| == |t|; }
      MinKeyInsert(t.Keys, id);
      if MinKey(t.Keys) < id {
        EvictedOldest(t, id, e, MinKey(t.Keys));
      } else {
        assert Evict(t0, id) == t0;
      }
    } else {
      assert Evict(t0, id) == t0;
    }
  }

  lemma EvictedOldest(t: Table, id: u16, e: InFlight, m: u16)
    requires id !in t && m in t && m != id && |t[id := e]| > MAX_INCOMPLETE_FRAMES
    requires MinKey(t[id := e].Keys) == m
    ensures Evict(t[id := e], id) == t[id := e] - {m}
    ensures (t[id := e] - {m}).Keys == t.Keys + {id} - {m}
  {
  }

  /**
   A fragment of an unseen frame adds exactly that frame, holding only this
   fragment, and evicts at most one other: the smallest id, and only when the
   table already held two or more entries and that id is below the new one.
   No surviving entry changes.
   */
  lemma InsertNewFrame(t: Table, h: Header, payload: seq<byte>)
    requires h.packetId !in t
    ensures var r := InsertFragment(t, h, payload);
      && r[h.packetId] == InFlight(h.totalLen, [Piece(h.startOffset, payload)])
      && (forall k :: k in r && k != h.packetId ==> k in t && r[k] == t[k])
      && (if |t| >= MAX_INCOMPLETE_FRAMES && MinKey(t.Keys) < h.packetId
          then r.Keys == t.Keys + {h.packetId} - {MinKey(t.Keys)}
          else r.Keys == t.Keys + {h.packetId})
  {
    var id := h.packetId;
    var e := InFlight(h.totalLen, [Piece(h.startOffset, payload)]);
    EvictNew(t, id, InFlight(h.totalLen, []));
    var t1 := Evict(t[id := InFlight(h.totalLen, [])], id);
    InsertFragmentNew(t, h, payload);
    ReplaceEntry(t1, id, e);
  }

  lemma InsertFragmentNew(t: Table, h: Header, payload: seq<byte>)
    requires h.packetId !in t
    ensures var id := h.packetId;
      InsertFragment(t, h, payload)
      == Evict(t[id := InFlight(h.totalLen, [])], id)[id := InFlight(h.totalLen, [Piece(h.startOffset, payload)])]
  {
    var id := h.packetId;
    EvictNew(t, id, InFlight(h.totalLen, []));
    assert Put([], h.startOffset, payload) == [Piece(h.startOffset, payload)];
  }

  /** Replacing a present entry keeps the key set and every other entry. */
  lemma ReplaceEntry(t: Table, id: u16, e: InFlight)
    requires id in t
    ensures var r := t[id := e];
      && r.Keys == t.Keys && r[id] == e
      && forall k :: k in r && k != id ==> r[k] == t[k]
  {
  }

  /** If a new frame whose id is not the smallest arrives at a table of at most two entries, at most two remain. */
  lemma InsertKeepsCapacity(t: Table, h: Header, payload: seq<byte>)
    requires h.packetId !in t && |t| <= MAX_INCOMPLETE_FRAMES
    requires exists k :: k in t && k < h.packetId
    ensures |InsertFragment(t, h, payload)| <= MAX_INCOMPLETE_FRAMES
  {
    InsertNewFrame(t, h, payload);
    var r := InsertFragment(t, h, payload);
    var id := h.packetId;
    var k :| k in t && k < id;
    if |t| == MAX_INCOMPLETE_FRAMES {
      assert MinKey(t.Keys) <= k;
      assert |t.Keys + {id}| == 3;
      assert |r.Keys| == 2;
    } else {
      assert |t.Keys + {id}| <= 2;
      assert |r.Keys| <= 2;
    }
  }

  /**
   A new frame whose id is below every id in the table is never evicted
   against, so nothing is removed: a run of decreasing ids grows the table
   past its capacity, one entry per new minimum id.
   */
  lemma InsertNewMinimumGrows(t: Table, h: Header, payload: seq<byte>)
    requires h.packetId !in t && forall k :: k in t ==> h.packetId < k
    ensures |InsertFragment(t, h, payload)| == |t| + 1
  {
    InsertNewFrame(t, h, payload);
    var r := InsertFragment(t, h, payload);
    if t.Keys != {} {
      assert MinKey(t.Keys) in t;
    }
    assert r.Keys == t.Keys + {h.packetId};
    assert |r.Keys| == |t.Keys| + 1;
  }

  /** A datagram shorter than the header is dropped and the table is untouched. */
  lemma ReceiveShortDatagram(t: Table, data: seq<byte>)
    requires |data| < HEADER_SIZE
    ensures ReceiveDatagram(t, data) == Step(t, Dropped)
  {
  }

  /**
   A datagram with a header is stored, with only the first `MAX_PAYLOAD`
   bytes of its payload. It completes its frame exactly when
   the byte count over the frame's fragments, clipped to the current
   `total_len`, equals that `total_len`; the frame is then the painted
   buffer of that length, and the entry is gone unless the conversion
   raised.
   */
  lemma ReceiveStoresAndCompletes(t: Table, data: seq<byte>)
    requires |data| >= HEADER_SIZE
    ensures UnpackHeader(data).Some?
    ensures var f := UnpackHeader(data).value;
      var id := f.header.packetId;
      var t1 := InsertFragment(t, f.header, Truncated(f.payload));
      var s := ReceiveDatagram(t, data);
      && (s.outcome.Assembled? <==> Filled(f.header.totalLen, t1[id].fragments) == f.header.totalLen)
      && (s.outcome.Pending? <==> !s.outcome.Assembled?)
      && (s.outcome.Pending? ==> s.table == t1)
      && (s.outcome.Assembled? ==>
            && s.outcome.packetId == id
            && s.outcome.frame == Paint(f.header.totalLen, t1[id].fragments)
            && |s.outcome.frame| == f.header.totalLen
            && s.outcome.image == ConvertRgb565ToBgr(s.outcome.frame)
            && (id in s.table <==> f.header.totalLen % 2 == 1)
            && s.table - {id} == t1 - {id})
  {
    ReceivedDecodes(data);
    var f := UnpackHeader(data).value;
    ReceiveDecoded(t, data, f.header, Truncated(f.payload));
    ReceiveFragmentOutcome(t, f.header, Truncated(f.payload));
  }

  /** The fragment's dict is never empty after the fragment is stored. */
  lemma InsertStores(t: Table, h: Header, payload: seq<byte>)
    ensures InsertFragment(t, h, payload)[h.packetId].fragments != []
  {
    var id := h.packetId;
    var t0 := if id in t then t else Evict(t[id := InFlight(h.totalLen, [])], id);
    var d := t0[id].fragments;
    assert InsertFragment(t, h, payload)[id].fragments == Put(d, h.startOffset, payload);
    if Find(d, h.startOffset) >= |d| {
      assert Put(d, h.startOffset, payload) == d + [Piece(h.startOffset, payload)];
    }
  }

  lemma ReceiveFragmentOutcome(t: Table, h: Header, payload: seq<byte>)
    ensures var id := h.packetId;
      var t1 := InsertFragment(t, h, payload);
      var s := ReceiveFragment(t, h, payload);
      && (s.outcome.Assembled? <==> Filled(h.totalLen, t1[id].fragments) == h.totalLen)
      && (s.outcome.Pending? <==> !s.outcome.Assembled?)
      && (s.outcome.Pending? ==> s.table == t1)
      && (s.outcome.Assembled? ==>
            && s.outcome.packetId == id
            && s.outcome.frame == Paint(h.totalLen, t1[id].fragments)
            && |s.outcome.frame| == h.totalLen
            && s.outcome.image == ConvertRgb565ToBgr(s.outcome.frame)
            && (id in s.table <==> h.totalLen % 2 == 1)
            && s.table - {id} == t1 - {id})
  {
    InsertStores(t, h, payload);
    var t1 := InsertFragment(t, h, payload);
    var id := h.packetId;
    if Filled(h.totalLen, t1[id].fragments) == h.totalLen {
      var frame := Paint(h.totalLen, t1[id].fragments);
      ReceiveFragmentCompletes(t, h, payload, t1, frame);
      assert (t1 - {id}) - {id} == t1 - {id};
    } else {
      ReceiveFragmentPending(t, h, payload, t1);
    }
  }

  /** The `total_len` stored with a frame's entry never influences what a datagram does. */
  lemma StoredTotalLenUnused(t: Table, id: u16, a: u32, b: u32, frags: FragmentMap, data: seq<byte>)
    ensures ReceiveDatagram(t[id := InFlight(a, frags)], data).outcome
         == ReceiveDatagram(t[id := InFlight(b, frags)], data).outcome
  {
    if UnpackHeader(Received(data)).Some? {
      var f := UnpackHeader(Received(data)).value;
      ReceiveDecoded(t[id := InFlight(a, frags)], data, f.header, f.payload);
      ReceiveDecoded(t[id := InFlight(b, frags)], data, f.header, f.payload);
      StoredTotalLenUnusedFragment(t, id, a, b, frags, f.header, f.payload);
    }
  }

  lemma StoredTotalLenUnusedFragment(t: Table, id: u16, a: u32, b: u32, frags: FragmentMap, h: Header, payload: seq<byte>)
    ensures ReceiveFragment(t[id := InFlight(a, frags)], h, payload).outcome
         == ReceiveFragment(t[id := InFlight(b, frags)], h, payload).outcome
  {
    var ta := t[id := InFlight(a, frags)];
    var tb := t[id := InFlight(b, frags)];
    if h.packetId == id {
      assert InsertFragment(ta, h, payload)[id].fragments == InsertFragment(tb, h, payload)[id].fragments;
    } else {
      assert InsertFragment(ta, h, payload)[h.packetId].fragments == InsertFragment(tb, h, payload)[h.packetId].fragments by {
        if h.packetId !in t {
          var ea := Evict(ta[h.packetId := InFlight(h.totalLen, [])], h.packetId);
          var eb := Evict(tb[h.packetId := InFlight(h.totalLen, [])], h.packetId);
          assert ea[h.packetId] == eb[h.packetId] by {
            assert ta[h.packetId := InFlight(h.totalLen, [])].Keys == tb[h.packetId := InFlight(h.totalLen, [])].Keys;
          }
        }
      }
    }
  }

  /** A decoded datagram is handled as its fragment. */
  lemma ReceiveDecoded(t: Table, data: seq<byte>, h: Header, payload: seq<byte>)
    requires UnpackHeader(Received(data)) == Some(Fragment(h, payload))
    ensures ReceiveDatagram(t, data) == ReceiveFragment(t, h, payload)
  {
  }

  /** A fragment whose frame is still short of its byte count leaves the stored table, pending. */
  lemma ReceiveFragmentPending(t: Table, h: Header, payload: seq<byte>, t1: Table)
    requires InsertFragment(t, h, payload) == t1 && h.packetId in t1
    requires Reconstruct(h.totalLen, t1[h.packetId].fragments).None?
    ensures ReceiveFragment(t, h, payload) == Step(t1, Pending)
  {
  }

  /** A fragment that completes its frame hands over the frame and, unless the conversion raises, deletes it. */
  lemma ReceiveFragmentCompletes(t: Table, h: Header, payload: seq<byte>, t1: Table, frame: seq<byte>)
    requires InsertFragment(t, h, payload) == t1 && h.packetId in t1
    requires Reconstruct(h.totalLen, t1[h.packetId].fragments) == Some(frame)
    ensures ReceiveFragment(t, h, payload)
         == Step(if |frame| % 2 == 1 then t1 else t1 - {h.packetId},
                 Assembled(h.packetId, frame, ConvertRgb565ToBgr(frame)))
  {
  }
}
