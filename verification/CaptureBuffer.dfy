/** The capture memory of one socket: records are appended at `tail` burst by burst and
    later walked up to a zero length. Offsets are relative to the start of the memzone. */
module CaptureBuffer {

  type byte = x: int | 0 <= x < 256

  /** cap_hdr_t: tstamp (8), pkt_len (2), data_len (2), then the packet bytes; the compiler
      pads the struct itself to a multiple of 8. */
  const LEN_AT := 8
  const DATA_LEN_AT := 10
  const PKT_AT := 12
  const HDR_SIZE := 16

  /** A received mbuf: the time stamp it is given, pkt_len, and the bytes of its only segment. */
  datatype Packet = Packet(tsc: seq<byte>, pkt_len: nat, data: seq<byte>)

  /** The mbuf fields have their C widths and the packet has one segment. */
  predicate Unsegmented(p: Packet) {
    |p.tsc| == 8 && p.pkt_len == |p.data| < 0x1_0000
  }

  /** A packet whose length the record header can hold and the reader can tell from the end. */
  predicate Storable(p: Packet) {
    0 < |p.data| < 0xFFFF
  }

  predicate AllUnsegmented(ps: seq<Packet>) { forall i | 0 <= i < |ps| :: Unsegmented(ps[i]) }

  predicate AllStorable(ps: seq<Packet>) { forall i | 0 <= i < |ps| :: Storable(ps[i]) }

  /** What pcap_dump is handed for one record. */
  datatype Dumped = Dumped(len: nat, bytes: seq<byte>)

  /** `(data_len + 1) & ~1` */
  function Pad(len: nat): nat { len + len % 2 }

  function RecordSize(p: Packet): nat { PKT_AT + Pad(|p.data|) }

  /** Where the record of `ps[k]` starts; with `k == |ps|`, where the log ends. */
  function Off(ps: seq<Packet>, k: nat): nat
    requires k <= |ps|
  {
    if k == 0 then 0 else Off(ps, k - 1) + RecordSize(ps[k - 1])
  }

  lemma {:induction false} OffPrefix(ps: seq<Packet>, qs: seq<Packet>, k: nat)
    requires k <= |ps|
    ensures Off(ps + qs, k) == Off(ps, k)
  {
    if k > 0 {
      OffPrefix(ps, qs, k - 1);
    }
  }

  lemma {:induction false} OffMonotonic(ps: seq<Packet>, j: nat, k: nat)
    requires j <= k <= |ps|
    ensures Off(ps, j) <= Off(ps, k)
    ensures j < k ==> Off(ps, j) + RecordSize(ps[j]) <= Off(ps, k)
  {
    if j < k {
      OffMonotonic(ps, j, k - 1);
    }
  }

  // ---------------------------------------------------------------- which packets are taken

  /** How many packets of a burst are stored before the first one that does not fit. */
  function FitFrom(ps: seq<Packet>, k: nat, used: nat, room: nat): (n: nat)
    requires k <= |ps|
    ensures k <= n <= |ps|
    decreases |ps| - k
  {
    if k == |ps| || used + RecordSize(ps[k]) > room then k
    else FitFrom(ps, k + 1, used + RecordSize(ps[k]), room)
  }

  function Fit(ps: seq<Packet>, room: nat): (n: nat)
    ensures n <= |ps|
  {
    FitFrom(ps, 0, 0, room)
  }

  /** What the first `k` bursts leave in the memory: each one gets the room the earlier ones left. */
  function Captured(bursts: seq<seq<Packet>>, k: nat, room: nat): (ps: seq<Packet>)
    requires k <= |bursts|
    ensures Off(ps, |ps|) <= room
  {
    if k == 0 then []
    else
      var before := Captured(bursts, k - 1, room);
      var n := Fit(bursts[k - 1], room - Off(before, |before|));
      CapturedFits(before, bursts[k - 1], room);
      before + bursts[k - 1][..n]
  }

  lemma {:induction false} OffConcat(ps: seq<Packet>, qs: seq<Packet>, n: nat)
    requires n <= |qs|
    ensures Off(ps + qs[..n], |ps| + n) == Off(ps, |ps|) + Off(qs, n)
  {
    var all := ps + qs[..n];
    if n == 0 {
      assert all == ps;
    } else {
      OffConcat(ps, qs, n - 1);
      assert all == (ps + qs[..n - 1]) + [qs[n - 1]];
      OffPrefix(ps + qs[..n - 1], [qs[n - 1]], |ps| + n - 1);
    }
  }

  lemma CapturedFits(before: seq<Packet>, burst: seq<Packet>, room: nat)
    requires Off(before, |before|) <= room
    ensures var n := Fit(burst, room - Off(before, |before|));
            var after := before + burst[..n];
            Off(after, |after|) == Off(before, |before|) + Off(burst, n) <= room
  {
    var n := Fit(burst, room - Off(before, |before|));
    FitIsLongest(burst, room - Off(before, |before|));
    OffConcat(before, burst, n);
  }

  lemma {:induction false} FitFromIsLongest(ps: seq<Packet>, k: nat, room: nat)
    requires k <= |ps| && Off(ps, k) <= room
    ensures var n := FitFrom(ps, k, Off(ps, k), room);
            && Off(ps, n) <= room
            && forall m: nat | n < m <= |ps| :: Off(ps, m) > room
    decreases |ps| - k
  {
    if k < |ps| && Off(ps, k + 1) <= room {
      FitFromIsLongest(ps, k + 1, room);
    } else if k < |ps| {
      forall m: nat | k < m <= |ps| ensures Off(ps, m) > room {
        OffMonotonic(ps, k + 1, m);
      }
    }
  }

  /** The stored prefix fits, and no longer prefix of the burst would. */
  /** The bytes that the first `n` packets need: 12 for each header, and the packets themselves,
      their lengths rounded up to even. */
  function Need(ps: seq<Packet>, n: nat): nat
    requires n <= |ps|
  {
    if n == 0 then 0 else Need(ps, n - 1) + 12 + (|ps[n - 1].data| + 1) / 2 * 2
  }

  lemma {:induction false} OffIsNeed(ps: seq<Packet>, n: nat)
    requires n <= |ps|
    ensures Off(ps, n) == Need(ps, n) && Off(ps, n) % 2 == 0
  {
    if n > 0 {
      OffIsNeed(ps, n - 1);
    }
  }

  lemma FitIsLongest(ps: seq<Packet>, room: nat)
    ensures var n := Fit(ps, room);
            && Off(ps, n) == Need(ps, n) <= room
            && forall m: nat | n < m <= |ps| :: Need(ps, m) > room
  {
    var n := Fit(ps, room);
    FitFromIsLongest(ps, 0, room);
    OffIsNeed(ps, n);
    forall m: nat | n < m <= |ps|
      ensures Need(ps, m) > room
    {
      OffIsNeed(ps, m);
    }
  }

  /** What the first bursts leave uses exactly the bytes that its packets need. */
  lemma CapturedNeeds(bursts: seq<seq<Packet>>, k: nat, room: nat)
    requires k <= |bursts|
    ensures var ps := Captured(bursts, k, room); Off(ps, |ps|) == Need(ps, |ps|) <= room
  {
    var ps := Captured(bursts, k, room);
    OffIsNeed(ps, |ps|);
  }

  // ---------------------------------------------------------------- the byte layout

  /** The little-endian uint16_t at `pos`. */
  function U16(mem: seq<byte>, pos: nat): nat
    requires pos + 2 <= |mem|
  {
    (mem[pos] as int) + 256 * (mem[pos + 1] as int)
  }

  predicate RecordAt(mem: seq<byte>, pos: nat, p: Packet) {
    && pos + PKT_AT + |p.data| <= |mem| && |p.tsc| == 8
    && mem[pos..pos + LEN_AT] == p.tsc
    && U16(mem, pos + LEN_AT) == p.pkt_len % 0x1_0000
    && U16(mem, pos + DATA_LEN_AT) == Pad(|p.data|) % 0x1_0000
    && mem[pos + PKT_AT..pos + PKT_AT + |p.data|] == p.data
  }

  /** A record byte by byte: time stamp, the two lengths with the low byte first, the packet. */
  lemma RecordLayout(mem: seq<byte>, pos: nat, p: Packet)
    requires RecordAt(mem, pos, p) && Unsegmented(p)
    ensures pos + 12 + |p.data| <= |mem| && mem[pos..pos + 8] == p.tsc
    ensures (mem[pos + 8] as int) + 256 * (mem[pos + 9] as int) == |p.data|
    ensures mem[pos + 12..pos + 12 + |p.data|] == p.data
  {
    assert p.pkt_len % 0x1_0000 == p.pkt_len;
  }

  /** The stored length is that of the packet rounded up to even, cut off to 16 bits. */
  lemma StoredLength(mem: seq<byte>, pos: nat, p: Packet)
    requires RecordAt(mem, pos, p) && Unsegmented(p)
    ensures pos + 12 <= |mem|
    ensures (mem[pos + 10] as int) + 256 * (mem[pos + 11] as int) ==
            if |p.data| == 65535 then 0 else (|p.data| + 1) / 2 * 2
  {
    RoundedUp(|p.data|);
    assert U16(mem, pos + DATA_LEN_AT) == Pad(|p.data|) % 0x1_0000;
  }

  lemma RoundedUp(len: nat)
    ensures Pad(len) == (len + 1) / 2 * 2 && len <= Pad(len) <= len + 1 && Pad(len) % 2 == 0
  {
  }

  /** The memory holds the records of `ps`, one behind the other. */
  predicate Encodes(mem: seq<byte>, ps: seq<Packet>) {
    forall k {:trigger RecordAt(mem, Off(ps, k), ps[k])} | 0 <= k < |ps| :: RecordAt(mem, Off(ps, k), ps[k])
  }

  /** A record does not depend on the bytes past its end. */
  lemma RecordFrame(m: seq<byte>, m': seq<byte>, pos: nat, p: Packet, stop: nat)
    requires RecordAt(m, pos, p) && pos + RecordSize(p) <= stop <= |m| == |m'| && m[..stop] == m'[..stop]
    ensures RecordAt(m', pos, p)
  {
    forall i | 0 <= i < stop ensures m[i] == m'[i] {
      assert m[..stop][i] == m'[..stop][i];
    }
    assert m'[pos..pos + LEN_AT] == m[pos..pos + LEN_AT];
    assert m'[pos + PKT_AT..pos + PKT_AT + |p.data|] == m[pos + PKT_AT..pos + PKT_AT + |p.data|];
  }

  lemma EncodesFrame(m: seq<byte>, m': seq<byte>, ps: seq<Packet>, stop: nat)
    requires Encodes(m, ps) && Off(ps, |ps|) <= stop <= |m| == |m'| && m[..stop] == m'[..stop]
    ensures Encodes(m', ps)
  {
    forall k | 0 <= k < |ps| ensures RecordAt(m', Off(ps, k), ps[k]) {
      OffMonotonic(ps, k, |ps|);
      RecordFrame(m, m', Off(ps, k), ps[k], stop);
    }
  }

  lemma EncodesAppend(mem: seq<byte>, ps: seq<Packet>, p: Packet)
    requires Encodes(mem, ps) && RecordAt(mem, Off(ps, |ps|), p)
    ensures Encodes(mem, ps + [p])
    ensures Off(ps + [p], |ps| + 1) == Off(ps, |ps|) + RecordSize(p)
  {
    var qs := ps + [p];
    OffPrefix(ps, [p], |ps|);
    forall k | 0 <= k < |qs| ensures RecordAt(mem, Off(qs, k), qs[k]) {
      OffPrefix(ps, [p], k);
      if k < |ps| {
        assert RecordAt(mem, Off(ps, k), ps[k]);
      }
    }
  }

  // ---------------------------------------------------------------- the reader

  /** The dump loop: it only looks at pkt_len and data_len. A read past the memory, which the
      C code does not check for, ends the walk here. */
  function Walk(mem: seq<byte>, pos: nat): seq<Dumped>
    decreases |mem| - pos
  {
    if pos + PKT_AT > |mem| then []
    else
      var len := U16(mem, pos + LEN_AT);
      var next := pos + PKT_AT + U16(mem, pos + DATA_LEN_AT);
      if len == 0 || next > |mem| then []
      else [Dumped(len, mem[pos + PKT_AT..next])] + Walk(mem, next)
  }

  /** Whether the dump loop would read past the memory. */
  predicate Leaves(mem: seq<byte>, pos: nat)
    decreases |mem| - pos
  {
    || pos + PKT_AT > |mem|
    || (U16(mem, pos + LEN_AT) != 0 &&
        var next := pos + PKT_AT + U16(mem, pos + DATA_LEN_AT);
        next > |mem| || Leaves(mem, next))
  }

  /** One step of the reader, at a header inside the memory that is no end mark. */
  lemma WalkStep(mem: seq<byte>, pos: nat) returns (next: nat)
    requires pos + PKT_AT <= |mem| && U16(mem, pos + LEN_AT) != 0
    ensures next == pos + PKT_AT + U16(mem, pos + DATA_LEN_AT)
    ensures next > |mem| ==> Walk(mem, pos) == [] && Leaves(mem, pos)
    ensures next <= |mem| ==>
              Walk(mem, pos) == [Dumped(U16(mem, pos + LEN_AT), mem[pos + PKT_AT..next])] + Walk(mem, next)
              && Leaves(mem, pos) == Leaves(mem, next)
  {
    next := pos + PKT_AT + U16(mem, pos + DATA_LEN_AT);
  }

  /** The record keeps the packet's length and its bytes; one more only to make their number even. */
  predicate Faithful(d: Dumped, p: Packet) {
    && d.len == p.pkt_len
    && |p.data| <= |d.bytes| <= |p.data| + 1 && |d.bytes| % 2 == 0
    && d.bytes[..|p.data|] == p.data
  }

  /** Packets of even length come back as they are. */
  lemma EvenIsUnpadded(d: Dumped, p: Packet)
    requires Faithful(d, p) && |p.data| % 2 == 0
    ensures d.bytes == p.data
  {
    assert d.bytes == d.bytes[..|p.data|];
  }

  predicate AllFaithful(ds: seq<Dumped>, ps: seq<Packet>) {
    |ds| == |ps| && forall i | 0 <= i < |ps| :: Faithful(ds[i], ps[i])
  }

  lemma NotStorable(mem: seq<byte>, pos: nat, p: Packet)
    requires RecordAt(mem, pos, p) && Unsegmented(p) && !Storable(p)
    ensures Walk(mem, pos) != [] ==> !Faithful(Walk(mem, pos)[0], p)
  {
  }

  /** What the dump hands over for a record of packet `p` at `pos`. */
  function Image(mem: seq<byte>, pos: nat, p: Packet): Dumped {
    Dumped(p.pkt_len, if pos + RecordSize(p) <= |mem| then mem[pos + PKT_AT..pos + RecordSize(p)] else [])
  }

  /** One step of the reader: a nonzero length at `pos`, and the next header at `next`. */
  predicate Link(mem: seq<byte>, pos: nat, d: Dumped, next: nat) {
    && pos + PKT_AT <= next <= |mem|
    && U16(mem, pos + LEN_AT) == d.len > 0
    && U16(mem, pos + DATA_LEN_AT) == next - (pos + PKT_AT)
    && d.bytes == mem[pos + PKT_AT..next]
  }

  /** The reader's way from offset 0 through the headers at `at`, with what it dumps. */
  ghost predicate Chain(mem: seq<byte>, at: seq<nat>, ds: seq<Dumped>) {
    && |at| == |ds| + 1 && at[0] == 0
    && forall k {:trigger ds[k]} | 0 <= k < |ds| :: Link(mem, at[k], ds[k], at[k + 1])
  }

  lemma Shift<T>(a: seq<T>, b: seq<T>)
    requires b != []
    ensures a + b == (a + [b[0]]) + b[1..]
  {
  }

  lemma LinkWalks(mem: seq<byte>, pos: nat, d: Dumped, next: nat)
    requires Link(mem, pos, d, next)
    ensures Walk(mem, pos) != [] && Walk(mem, pos)[0] == d && Walk(mem, pos)[1..] == Walk(mem, next)
  {
  }

  lemma ChainWalks(mem: seq<byte>, at: seq<nat>, ds: seq<Dumped>, k: nat)
    requires Chain(mem, at, ds) && k <= |ds|
    ensures Walk(mem, 0) == ds[..k] + Walk(mem, at[k])
  {
    var i := 0;
    while i < k
      invariant i <= k && Walk(mem, 0) == ds[..i] + Walk(mem, at[i])
    {
      assert Link(mem, at[i], ds[i], at[i + 1]);
      LinkWalks(mem, at[i], ds[i], at[i + 1]);
      Shift(ds[..i], Walk(mem, at[i]));
      assert ds[..i + 1] == ds[..i] + [ds[i]];
      i := i + 1;
    }
  }

  ghost predicate SealedLog(mem: seq<byte>, ps: seq<Packet>) {
    && Encodes(mem, ps) && AllUnsegmented(ps)
    && Off(ps, |ps|) + HDR_SIZE <= |mem| && U16(mem, Off(ps, |ps|) + LEN_AT) == 0
  }

  lemma RecordLinks(mem: seq<byte>, pos: nat, p: Packet)
    requires RecordAt(mem, pos, p) && pos + RecordSize(p) <= |mem| && Unsegmented(p) && Storable(p)
    ensures Link(mem, pos, Image(mem, pos, p), pos + RecordSize(p))
  {
    RoundedUp(|p.data|);
  }

  lemma ImageIsFaithful(mem: seq<byte>, pos: nat, p: Packet)
    requires RecordAt(mem, pos, p) && pos + RecordSize(p) <= |mem| && Unsegmented(p)
    ensures Faithful(Image(mem, pos, p), p)
  {
    var bytes := mem[pos + PKT_AT..pos + RecordSize(p)];
    RoundedUp(|p.data|);
    assert |bytes| == Pad(|p.data|);
    assert bytes[..|p.data|] == mem[pos + PKT_AT..pos + PKT_AT + |p.data|];
  }

  lemma RecordOfLog(mem: seq<byte>, ps: seq<Packet>, i: nat) returns (d: Dumped, next: nat)
    requires i < |ps| && SealedLog(mem, ps) && Storable(ps[i])
    ensures next == Off(ps, i + 1) && Link(mem, Off(ps, i), d, next) && Faithful(d, ps[i])
  {
    d, next := Image(mem, Off(ps, i), ps[i]), Off(ps, i + 1);
    OffMonotonic(ps, i, |ps|);
    assert RecordAt(mem, Off(ps, i), ps[i]) && Unsegmented(ps[i]);
    RecordLinks(mem, Off(ps, i), ps[i]);
    ImageIsFaithful(mem, Off(ps, i), ps[i]);
  }

  lemma ChainAppend(mem: seq<byte>, at: seq<nat>, ds: seq<Dumped>, d: Dumped, next: nat)
    requires Chain(mem, at, ds) && Link(mem, at[|ds|], d, next)
    ensures Chain(mem, at + [next], ds + [d])
  {
    var at', ds' := at + [next], ds + [d];
    forall k | 0 <= k < |ds'|
      ensures Link(mem, at'[k], ds'[k], at'[k + 1])
    {
      if k < |ds| {
        assert Link(mem, at[k], ds[k], at[k + 1]);
      }
    }
  }

  /** The first records of a log as a chain of faithful images. */
  ghost predicate ChainOf(mem: seq<byte>, ps: seq<Packet>, at: seq<nat>, ds: seq<Dumped>) {
    && Chain(mem, at, ds) && |ds| <= |ps| && at[|ds|] == Off(ps, |ds|)
    && forall i | 0 <= i < |ds| :: Faithful(ds[i], ps[i])
  }

  lemma ChainNext(mem: seq<byte>, ps: seq<Packet>, at: seq<nat>, ds: seq<Dumped>)
    returns (at': seq<nat>, ds': seq<Dumped>)
    requires SealedLog(mem, ps) && ChainOf(mem, ps, at, ds) && |ds| < |ps| && Storable(ps[|ds|])
    ensures ChainOf(mem, ps, at', ds') && |ds'| == |ds| + 1
  {
    var d, next := RecordOfLog(mem, ps, |ds|);
    ChainAppend(mem, at, ds, d, next);
    at', ds' := at + [next], ds + [d];
  }

  /** The storable records at the front of a log are a chain of faithful images. */
  lemma LogIsChain(mem: seq<byte>, ps: seq<Packet>, k: nat) returns (at: seq<nat>, ds: seq<Dumped>)
    requires k <= |ps| && SealedLog(mem, ps) && forall i | 0 <= i < k :: Storable(ps[i])
    ensures ChainOf(mem, ps, at, ds) && |ds| == k
  {
    at, ds := [0], [];
    while |ds| < k
      invariant |ds| <= k && ChainOf(mem, ps, at, ds)
    {
      at, ds := ChainNext(mem, ps, at, ds);
    }
  }

  lemma AllStorableReadBack(mem: seq<byte>, ps: seq<Packet>)
    requires SealedLog(mem, ps) && AllStorable(ps)
    ensures AllFaithful(Walk(mem, 0), ps)
  {
    var at, ds := LogIsChain(mem, ps, |ps|);
    ChainWalks(mem, at, ds, |ps|);
    assert Walk(mem, at[|ps|]) == [] && ds[..|ps|] == ds;
  }

  lemma UnstorableIsLost(mem: seq<byte>, ps: seq<Packet>, k: nat)
    requires SealedLog(mem, ps) && k < |ps| && !Storable(ps[k]) && forall i | 0 <= i < k :: Storable(ps[i])
    ensures !AllFaithful(Walk(mem, 0), ps)
  {
    var at, ds := LogIsChain(mem, ps, k);
    ChainWalks(mem, at, ds, k);
    assert RecordAt(mem, Off(ps, k), ps[k]) && Unsegmented(ps[k]);
    NotStorable(mem, Off(ps, k), ps[k]);
    if |Walk(mem, 0)| == |ps| {
      assert Walk(mem, 0)[k] == Walk(mem, at[k])[0];
    }
  }

  /** How many packets there are before the first one that cannot be read back. */
  function Front(ps: seq<Packet>): (k: nat)
    ensures k <= |ps| && (k == |ps| <==> AllStorable(ps)) && AllStorable(ps[..k])
  {
    if ps == [] || !Storable(ps[0]) then 0 else 1 + Front(ps[1..])
  }

  /** What is dumped before the first such packet is right, record by record. */
  predicate FrontFaithful(ds: seq<Dumped>, ps: seq<Packet>) {
    |ds| >= Front(ps) && forall i | 0 <= i < Front(ps) :: Faithful(ds[i], ps[i])
  }

  /** What a dump achieves: right up to the first such packet, complete and inside the memory
      if and only if, respectively if, there is none. */
  predicate ReadBack(ds: seq<Dumped>, lost: bool, ps: seq<Packet>) {
    && FrontFaithful(ds, ps)
    && (AllFaithful(ds, ps) <==> AllStorable(ps))
    && (AllStorable(ps) ==> !lost)
  }

  lemma FrontReadsBack(mem: seq<byte>, ps: seq<Packet>)
    requires SealedLog(mem, ps)
    ensures FrontFaithful(Walk(mem, 0), ps)
  {
    var k := Front(ps);
    assert forall i | 0 <= i < k :: Storable(ps[..k][i]);
    var at, ds := LogIsChain(mem, ps, k);
    ChainWalks(mem, at, ds, k);
  }

  /** A log of packets that can be read back is walked inside the memory. */
  lemma StorableStays(mem: seq<byte>, ps: seq<Packet>)
    requires SealedLog(mem, ps) && AllStorable(ps)
    ensures !Leaves(mem, 0)
  {
    var at, ds := LogIsChain(mem, ps, |ps|);
    var i := 0;
    while i < |ds|
      invariant i <= |ds| && Leaves(mem, 0) == Leaves(mem, at[i])
    {
      assert Link(mem, at[i], ds[i], at[i + 1]);
      i := i + 1;
    }
  }

  lemma FirstUnstorable(ps: seq<Packet>) returns (k: nat)
    requires !AllStorable(ps)
    ensures k < |ps| && !Storable(ps[k]) && forall i | 0 <= i < k :: Storable(ps[i])
  {
    k := 0;
    while Storable(ps[k])
      invariant k < |ps| && forall i | 0 <= i < k :: Storable(ps[i])
      decreases |ps| - k
    {
      k := k + 1;
    }
  }

  /** Writer and reader agree on a buffer exactly when every stored packet has a length from
      1 to 65534: a zero length reads as the end mark and 65535 rounds up to 0. */
  lemma RoundTrip(mem: seq<byte>, ps: seq<Packet>)
    requires Encodes(mem, ps) && AllUnsegmented(ps)
    requires Off(ps, |ps|) + HDR_SIZE <= |mem| && U16(mem, Off(ps, |ps|) + LEN_AT) == 0
    ensures AllFaithful(Walk(mem, 0), ps) <==> AllStorable(ps)
  {
    if AllStorable(ps) {
      AllStorableReadBack(mem, ps);
    } else {
      var k := FirstUnstorable(ps);
      UnstorableIsLost(mem, ps, k);
    }
  }

  // ---------------------------------------------------------------- the capture object

  /** capture_t: `end` is where the last possible end mark starts. */
  class Capture {
    const mem: array<byte>
    var tail: nat
    var end: nat
    var used: nat
    ghost var log: seq<Packet>

    /** The records are in place; the end mark and `used` may be behind. */
    ghost predicate Open()
      reads this, mem
    {
      && HDR_SIZE <= mem.Length && end == mem.Length - HDR_SIZE
      && tail == Off(log, |log|) <= end
      && Encodes(mem[..], log) && AllUnsegmented(log)
    }

    ghost predicate Valid()
      reads this, mem
    {
      Open() && used == tail && U16(mem[..], tail + LEN_AT) == 0
    }

    /** pktgen_set_capture, enable branch: the whole memory becomes one empty log. */
    constructor (mem: array<byte>)
      requires HDR_SIZE <= mem.Length
      modifies mem
      ensures Valid() && this.mem == mem && log == []
    {
      this.mem := mem;
      tail := 0;
      end := mem.Length - HDR_SIZE;
      used := 0;
      log := [];
      new;
      for i := 0 to HDR_SIZE
        invariant forall k | 0 <= k < i :: mem[k] == 0
        modifies mem
      {
        mem[i] := 0;
      }
      for i := 0 to HDR_SIZE
        invariant forall k | 0 <= k < HDR_SIZE :: mem[k] == 0
        modifies mem
      {
        mem[end + i] := 0;
      }
    }

    method Store16(pos: nat, v: nat)
      requires pos + 2 <= mem.Length && v < 0x1_0000
      modifies mem
      ensures U16(mem[..], pos) == v
      ensures forall k | 0 <= k < mem.Length && (k < pos || pos + 2 <= k) :: mem[k] == old(mem[k])
    {
      mem[pos] := v % 256;
      mem[pos + 1] := v / 256;
    }

    method StoreBytes(pos: nat, bytes: seq<byte>)
      requires pos + |bytes| <= mem.Length
      modifies mem
      ensures mem[pos..pos + |bytes|] == bytes
      ensures forall k | 0 <= k < mem.Length && (k < pos || pos + |bytes| <= k) :: mem[k] == old(mem[k])
    {
      for i := 0 to |bytes|
        invariant forall k | 0 <= k < i :: mem[pos + k] == bytes[k]
        invariant forall k | 0 <= k < mem.Length && (k < pos || pos + |bytes| <= k) :: mem[k] == old(mem[k])
      {
        mem[pos + i] := bytes[i];
      }
    }

    /** The stores of one record; nothing before it changes. */
    method WriteRecord(p: Packet)
      requires Unsegmented(p) && tail + RecordSize(p) <= mem.Length
      modifies mem
      ensures RecordAt(mem[..], tail, p)
      ensures mem[..tail] == old(mem[..tail])
    {
      Store16(tail + LEN_AT, p.pkt_len % 0x1_0000);
      Store16(tail + DATA_LEN_AT, Pad(|p.data|) % 0x1_0000);
      StoreBytes(tail, p.tsc);
      StoreBytes(tail + PKT_AT, p.data);
    }

    /** One iteration of the bulk loop, for a packet that fits. */
    method Append(p: Packet)
      requires Open() && Unsegmented(p) && RecordSize(p) <= end - tail
      modifies this`tail, this`log, mem
      ensures Open() && log == old(log) + [p] && tail == old(tail) + RecordSize(p)
    {
      WriteRecord(p);
      EncodesFrame(old(mem[..]), mem[..], log, tail);
      EncodesAppend(mem[..], log, p);
      log := log + [p];
      tail := tail + PKT_AT + Pad(|p.data|);
    }

    /** Writes the end mark after the last record. */
    method Seal()
      requires Open()
      modifies this`used, mem
      ensures Valid()
    {
      Store16(tail + LEN_AT, 0);
      EncodesFrame(old(mem[..]), mem[..], log, tail);
      used := tail;
    }

    /** pktgen_packet_capture_bulk: exactly the longest fitting prefix of the burst is added. */
    method CaptureBulk(pkts: seq<Packet>)
      requires Valid() && AllUnsegmented(pkts)
      modifies this, mem
      ensures Valid() && end == old(end)
      ensures var n := Fit(pkts, old(end - tail));
              log == old(log) + pkts[..n] && used == tail == old(tail) + Off(pkts, n)
    {
      ghost var room := end - tail;
      if tail == end {
        return;
      }
      var i := 0;
      while i < |pkts|
        invariant 0 <= i <= |pkts|
        invariant Open() && end == old(end) && used == old(used)
        invariant log == old(log) + pkts[..i] && tail == old(tail) + Off(pkts, i)
        invariant Fit(pkts, room) == FitFrom(pkts, i, Off(pkts, i), room)
      {
        if tail + PKT_AT + Pad(|pkts[i].data|) > end {
          break;
        }
        Append(pkts[i]);
        i := i + 1;
      }
      Seal();
    }

    /**
     * The dump made by pktgen_set_capture when capturing is disabled; `lost` says that it would
     * read past the memory. Everything is right up to the first packet of length 0 or 65535, and
     * all of it if and only if there is none.
     */
    method Dump() returns (ds: seq<Dumped>, lost: bool)
      requires Valid()
      ensures ds == Walk(mem[..], 0) && ReadBack(ds, lost, log)
    {
      FrontReadsBack(mem[..], log);
      RoundTrip(mem[..], log);
      if AllStorable(log) {
        StorableStays(mem[..], log);
      }
      if used > 0 {
        ds, lost := DumpRecords(mem);
      } else {
        NothingUsed(log);
        ds, lost := [], false;
      }
    }
  }

  lemma NothingUsed(ps: seq<Packet>)
    requires Off(ps, |ps|) == 0
    ensures ps == []
  {
  }

  /** The dump loop at a header: `ds` is dumped, `all` and `leaves` are the whole walk. */
  ghost predicate Reading(mem: seq<byte>, all: seq<Dumped>, leaves: bool, ds: seq<Dumped>, hdr: nat) {
    all == ds + Walk(mem, hdr) && leaves == Leaves(mem, hdr)
  }

  lemma ReadNext(mem: seq<byte>, all: seq<Dumped>, leaves: bool, ds: seq<Dumped>, hdr: nat)
    returns (next: nat, d: Dumped)
    requires Reading(mem, all, leaves, ds, hdr) && hdr + PKT_AT <= |mem| && U16(mem, hdr + LEN_AT) != 0
    ensures next == hdr + PKT_AT + U16(mem, hdr + DATA_LEN_AT)
    ensures next > |mem| ==> all == ds && leaves
    ensures next <= |mem| ==>
              d == Dumped(U16(mem, hdr + LEN_AT), mem[hdr + PKT_AT..next])
              && Reading(mem, all, leaves, ds + [d], next)
  {
    next := WalkStep(mem, hdr);
    d := Dumped(U16(mem, hdr + LEN_AT), if next <= |mem| then mem[hdr + PKT_AT..next] else []);
    if next <= |mem| {
      Shift(ds, Walk(mem, hdr));
    }
  }

  lemma ReadEnd(mem: seq<byte>, all: seq<Dumped>, leaves: bool, ds: seq<Dumped>, hdr: nat)
    requires Reading(mem, all, leaves, ds, hdr)
    ensures hdr + PKT_AT > |mem| ==> all == ds && leaves
    ensures hdr + PKT_AT <= |mem| && U16(mem, hdr + LEN_AT) == 0 ==> all == ds && !leaves
  {
  }

  /** Its loop over the headers in memory: only the end mark tells it where to stop. */
  method DumpRecords(mem: array<byte>) returns (ds: seq<Dumped>, lost: bool)
    requires HDR_SIZE <= mem.Length
    ensures ds == Walk(mem[..], 0) && lost == Leaves(mem[..], 0)
  {
    ghost var m, all, leaves := mem[..], Walk(mem[..], 0), Leaves(mem[..], 0);
    var hdr := 0;
    var len := Load16(mem, hdr + LEN_AT);
    ds, lost := [], false;
    while len != 0
      invariant 0 <= hdr && hdr + PKT_AT <= mem.Length && len == U16(m, hdr + LEN_AT)
      invariant Reading(m, all, leaves, ds, hdr)
      decreases mem.Length - hdr
    {
      ghost var next', d' := ReadNext(m, all, leaves, ds, hdr);
      var size := Load16(mem, hdr + DATA_LEN_AT);
      var next := hdr + PKT_AT + size;
      if next > mem.Length {
        return ds, true;
      }
      var d := LoadRecord(mem, hdr, next, len);
      ds, hdr := ds + [d], next;
      if hdr + PKT_AT > mem.Length {
        ReadEnd(m, all, leaves, ds, hdr);
        return ds, true;
      }
      len := Load16(mem, hdr + LEN_AT);
    }
    ReadEnd(m, all, leaves, ds, hdr);
  }

  method Load16(mem: array<byte>, pos: nat) returns (v: nat)
    requires pos + 2 <= mem.Length
    ensures v == U16(mem[..], pos)
  {
    v := (mem[pos] as int) + 256 * (mem[pos + 1] as int);
  }

  method LoadRecord(mem: array<byte>, pos: nat, next: nat, len: nat) returns (d: Dumped)
    requires pos + PKT_AT <= next <= mem.Length
    ensures d == Dumped(len, mem[..][pos + PKT_AT..next])
  {
    assert mem[..][pos + PKT_AT..next] == mem[pos + PKT_AT..next];
    d := Dumped(len, mem[pos + PKT_AT..next]);
  }

  /** One burst of a session. */
  method Feed(cap: Capture, ghost bursts: seq<seq<Packet>>, ghost i: nat, burst: seq<Packet>)
    requires cap.Valid() && i < |bursts| && burst == bursts[i] && AllUnsegmented(burst)
    requires cap.log == Captured(bursts, i, cap.end)
    modifies cap, cap.mem
    ensures cap.Valid() && cap.end == old(cap.end)
    ensures cap.log == Captured(bursts, i + 1, cap.end)
  {
    cap.CaptureBulk(burst);
  }

  /** The receive loop while capturing is on. */
  method FeedAll(cap: Capture, bursts: seq<seq<Packet>>)
    requires cap.Valid() && cap.log == []
    requires forall i | 0 <= i < |bursts| :: AllUnsegmented(bursts[i])
    modifies cap, cap.mem
    ensures cap.Valid() && cap.end == old(cap.end) && cap.log == Captured(bursts, |bursts|, cap.end)
  {
    for i := 0 to |bursts|
      invariant cap.Valid() && cap.end == old(cap.end) && cap.log == Captured(bursts, i, cap.end)
    {
      Feed(cap, bursts, i, bursts[i]);
    }
  }

  /** A capture session: enabled, fed by the receive loop, dumped when disabled. What comes
      out is, in order, every burst's longest fitting prefix, up to the first packet that cannot
      be read back, and all of it if and only if none was captured. */
  method Session(mem: array<byte>, bursts: seq<seq<Packet>>) returns (ds: seq<Dumped>, lost: bool)
    requires HDR_SIZE <= mem.Length
    requires forall i | 0 <= i < |bursts| :: AllUnsegmented(bursts[i])
    modifies mem
    ensures ReadBack(ds, lost, Captured(bursts, |bursts|, mem.Length - HDR_SIZE))
  {
    var cap := new Capture(mem);
    FeedAll(cap, bursts);
    ds, lost := cap.Dump();
  }
}
