/** The kernel debug log: an append-only byte buffer of framed records, read independently by
    any number of readers. */
module DebugLog {
  import opened LittleEndian
  import opened Results

  const HEADER_SIZE := 32
  const DLOG_MAX_LEN := 256
  const MAX_DATA := 224   // the write system call never passes more
  const U64_LIMIT := 0x1_0000_0000_0000_0000

  function AlignUp4(x: nat): (r: nat) {
    x + 3 - (x + 3) % 4
  }

  lemma AlignUp4Least(x: nat)
    ensures AlignUp4(x) % 4 == 0 && x <= AlignUp4(x) < x + 4
  {
  }

  // ----- one record

  datatype Record = Record(severity: Byte, flags: nat, timestamp: nat, pid: nat, tid: nat, data: seq<Byte>)

  function WireSize(r: Record): (n: nat)
    ensures n >= HEADER_SIZE
  {
    HEADER_SIZE + AlignUp4(|r.data|)
  }

  function Size(r: Record): (n: nat) {
    HEADER_SIZE + |r.data|
  }

  function Padding(r: Record): (bs: seq<Byte>)
    ensures |bs| == WireSize(r) - Size(r)
  {
    seq(WireSize(r) - Size(r), _ => 0)
  }

  /** Bitwise or. */
  function Or(a: nat, b: nat): (r: nat) {
    if a == 0 then b else if b == 0 then a
    else 2 * Or(a / 2, b / 2) + if a % 2 == 1 || b % 2 == 1 then 1 else 0
  }

  /** `(size << 12) | wire` in 32 bits: the low 12 bits come from `wire` alone, the 20 bits
      above them from both. */
  function Rollout(size: nat, wire: nat): (r: nat) {
    Or(size, wire / 0x1000) % 0x10_0000 * 0x1000 + wire % 0x1000
  }

  function Header(r: Record): (h: seq<Byte>)
    ensures |h| == HEADER_SIZE
  {
    Store(Rollout(Size(r), WireSize(r)), 4) + Store(|r.data|, 2) + [r.severity] + Store(r.flags, 1)
    + Store(r.timestamp, 8) + Store(r.pid, 8) + Store(r.tid, 8)
  }

  function Encode(r: Record): (bs: seq<Byte>)
    ensures |bs| == WireSize(r)
  {
    Header(r) + r.data + Padding(r)
  }

  function WireSizeField(bs: seq<Byte>): (n: nat)
    requires |bs| >= HEADER_SIZE
  {
    Load(bs[..4]) % 0x1000
  }

  function SizeField(bs: seq<Byte>): (n: nat)
    requires |bs| >= HEADER_SIZE
  {
    Load(bs[..4]) / 0x1000
  }

  lemma RolloutFits(size: nat, wire: nat)
    ensures Rollout(size, wire) < Pow256(4)
    ensures Rollout(size, wire) % 0x1000 == wire % 0x1000
  {
    Pow256Values();
  }

  lemma RolloutExact(size: nat, wire: nat)
    requires size < 0x10_0000 && wire < 0x1000
    ensures Rollout(size, wire) == size * 0x1000 + wire
    ensures Rollout(size, wire) / 0x1000 == size
  {
    assert Or(size, 0) == size;
  }

  lemma HeaderRollout(r: Record, rest: seq<Byte>)
    ensures Load((Header(r) + rest)[..4]) == Rollout(Size(r), WireSize(r))
  {
    RolloutFits(Size(r), WireSize(r));
    LoadStore(Rollout(Size(r), WireSize(r)), 4);
    assert (Header(r) + rest)[..4] == Store(Rollout(Size(r), WireSize(r)), 4);
  }

  /** The 12-bit field gives the record's length back exactly when the length needs no more
      than 12 bits. */
  lemma WireSizeExact(r: Record)
    ensures WireSizeField(Encode(r)) == WireSize(r) <==> WireSize(r) < 0x1000
  {
    WireSizeModulo(r);
  }

  lemma WireSizeModulo(r: Record)
    ensures WireSizeField(Encode(r)) == WireSize(r) % 0x1000
  {
    HeaderRollout(r, r.data + Padding(r));
    assert Encode(r) == Header(r) + (r.data + Padding(r));
    RolloutFits(Size(r), WireSize(r));
  }

  /** A reader of one record gets both sizes and the payload back. */
  lemma RecordRoundTrip(r: Record)
    requires WireSize(r) < 0x1000
    ensures WireSizeField(Encode(r)) == WireSize(r)
    ensures SizeField(Encode(r)) == Size(r)
    ensures Encode(r)[HEADER_SIZE..SizeField(Encode(r))] == r.data
  {
    hide Header, Padding, Rollout, Or;
    WireSizeExact(r);
    HeaderRollout(r, r.data + Padding(r));
    assert Encode(r) == Header(r) + (r.data + Padding(r));
    RolloutExact(Size(r), WireSize(r));
  }

  /** Every header field sits where a reader of the wire layout looks for it, cut to the width
      of the field. */
  lemma HeaderFields(r: Record)
    ensures var bs := Encode(r);
            && Load(bs[4..6]) == |r.data| % 0x1_0000 && bs[6] == r.severity && bs[7] == r.flags % 256
            && Load(bs[8..16]) == r.timestamp % U64_LIMIT
            && Load(bs[16..24]) == r.pid % U64_LIMIT && Load(bs[24..32]) == r.tid % U64_LIMIT
  {
    hide WireSize, Padding, Rollout, Pow256, Load, Store;
    Pow256Values();
    LoadStore(|r.data|, 2);
    LoadStore(r.timestamp, 8);
    LoadStore(r.pid, 8);
    LoadStore(r.tid, 8);
    OneByte(r.flags);
    FieldSlices(Store(Rollout(Size(r), WireSize(r)), 4), Store(|r.data|, 2), [r.severity], Store(r.flags, 1),
                Store(r.timestamp, 8), Store(r.pid, 8), Store(r.tid, 8), r.data, Padding(r));
  }

  lemma FieldSlices(a: seq<Byte>, b: seq<Byte>, c: seq<Byte>, d: seq<Byte>, e: seq<Byte>, f: seq<Byte>, g: seq<Byte>,
                    data: seq<Byte>, pad: seq<Byte>)
    requires |a| == 4 && |b| == 2 && |c| == 1 && |d| == 1 && |e| == 8 && |f| == 8 && |g| == 8
    ensures var bs := a + b + c + d + e + f + g + data + pad;
            && bs[4..6] == b && bs[6] == c[0] && bs[7] == d[0]
            && bs[8..16] == e && bs[16..24] == f && bs[24..32] == g
  {
  }

  lemma OneByte(v: nat)
    ensures Store(v, 1) == [v % 256]
  {
    assert Store(v / 256, 0) == [];
  }

  ghost predicate Small(r: Record) {
    |r.data| <= MAX_DATA
  }

  /** The cap of 224 bytes is what makes every record fit the read buffer. */
  lemma SmallFits(r: Record)
    ensures WireSize(r) <= DLOG_MAX_LEN <==> Small(r)
  {
  }

  // ----- the stream

  function Stream(rs: seq<Record>): (bs: seq<Byte>) {
    if rs == [] then [] else Stream(rs[..|rs| - 1]) + Encode(rs[|rs| - 1])
  }

  lemma StreamSnoc(rs: seq<Record>, r: Record)
    ensures Stream(rs + [r]) == Stream(rs) + Encode(r)
  {
    assert (rs + [r])[..|rs|] == rs;
  }

  /** A record is filled up with zeros, as few as its length being a multiple of four needs. */
  lemma RecordPadded(r: Record)
    ensures WireSize(r) % 4 == 0 && Size(r) <= WireSize(r) < Size(r) + 4
    ensures forall i :: Size(r) <= i < WireSize(r) ==> Encode(r)[i] == 0
  {
    hide Header;
    AlignUp4Least(|r.data|);
  }

  /** Every record starts at a multiple of four. */
  lemma {:induction false} RecordsAligned(rs: seq<Record>)
    ensures |Stream(rs)| % 4 == 0
  {
    hide Encode, WireSize;
    if rs != [] {
      RecordsAligned(rs[..|rs| - 1]);
      RecordPadded(rs[|rs| - 1]);
    }
  }

  lemma {:induction false} StreamSplit(rs: seq<Record>, k: nat)
    requires k <= |rs|
    ensures |Stream(rs[..k])| <= |Stream(rs)|
    ensures Stream(rs)[..|Stream(rs[..k])|] == Stream(rs[..k])
    ensures k < |rs| ==> |Stream(rs[..k])| + WireSize(rs[k]) <= |Stream(rs)|
    ensures k < |rs| ==> Stream(rs)[|Stream(rs[..k])|..|Stream(rs[..k])| + WireSize(rs[k])] == Encode(rs[k])
  {
    hide Encode, WireSize;
    if k == |rs| {
      assert rs[..k] == rs;
    } else {
      var n := |rs| - 1;
      if k < n {
        StreamSplit(rs[..n], k);
        assert rs[..n][..k] == rs[..k];
      }
    }
  }

  /** What a read at `offset` delivers into a buffer of `room` bytes: nothing at the end, else
      as many bytes as the length field there says.  There is no result where a slice is out
      of range and the read panics. */
  function ReadAt(buf: seq<Byte>, offset: nat, room: nat): (r: Option<seq<Byte>>) {
    if room < DLOG_MAX_LEN then None
    else if offset == |buf| then Some([])
    else if offset + HEADER_SIZE > |buf| then None
    else
      var len := WireSizeField(buf[offset..]);
      if len < HEADER_SIZE || len > room || offset + len > |buf| then None else Some(buf[offset..offset + len])
  }

  lemma ShortBufferPanics(buf: seq<Byte>, offset: nat, room: nat)
    requires room < DLOG_MAX_LEN
    ensures ReadAt(buf, offset, room) == None
  {
  }

  lemma SliceOfSlice(buf: seq<Byte>, o: nat, w: nat, n: nat)
    requires n <= w && o + w <= |buf|
    ensures buf[o..][..n] == buf[o..o + w][..n] && buf[o..o + n] == buf[o..o + w][..n]
  {
  }

  /** At a record boundary a read delivers as much of the record as the low 12 bits of its
      length say, or panics when those are fewer than a header or more than the buffer. */
  lemma ReadAtBoundary(rs: seq<Record>, k: nat, room: nat)
    requires k <= |rs| && room >= DLOG_MAX_LEN
    ensures k == |rs| ==> ReadAt(Stream(rs), |Stream(rs[..k])|, room) == Some([])
    ensures k < |rs| ==>
              var n := WireSize(rs[k]) % 0x1000;
              ReadAt(Stream(rs), |Stream(rs[..k])|, room)
              == if HEADER_SIZE <= n <= room then Some(Encode(rs[k])[..n]) else None
    ensures k < |rs| ==> |Stream(rs[..k + 1])| == |Stream(rs[..k])| + WireSize(rs[k])
  {
    hide Encode, WireSize;
    StreamSplit(rs, k);
    if k == |rs| {
      assert rs[..k] == rs;
    } else {
      var buf, o, n := Stream(rs), |Stream(rs[..k])|, WireSize(rs[k]) % 0x1000;
      WireSizeModulo(rs[k]);
      assert buf[o..o + WireSize(rs[k])] == Encode(rs[k]);
      assert n <= WireSize(rs[k]);
      SliceOfSlice(buf, o, WireSize(rs[k]), 4);
      SliceOfSlice(buf, o, WireSize(rs[k]), n);
      assert rs[..k + 1][..k] == rs[..k];
    }
  }

  /** The record needs no more than 12 bits for its length and fits the buffer. */
  predicate Fits(r: Record, room: nat) {
    WireSize(r) < 0x1000 && WireSize(r) <= room
  }

  /** At a record boundary a read delivers that record, whole, exactly when it fits.  Any other
      record makes the read panic or leaves the reader inside the record. */
  lemma WholeRecordRead(rs: seq<Record>, k: nat, room: nat)
    requires k < |rs| && room >= DLOG_MAX_LEN
    ensures ReadAt(Stream(rs), |Stream(rs[..k])|, room) == Some(Encode(rs[k])) <==> Fits(rs[k], room)
    ensures !Fits(rs[k], room) ==>
              match ReadAt(Stream(rs), |Stream(rs[..k])|, room)
              case None => true
              case Some(bs) => 0 < |bs| < WireSize(rs[k]) && bs <= Encode(rs[k])
  {
    hide Encode, WireSize;
    ReadAtBoundary(rs, k, room);
    assert Encode(rs[k])[..WireSize(rs[k])] == Encode(rs[k]);
  }

  /** A record of 4104 bytes of data announces 40 bytes, and that is all a read delivers. */
  lemma LongRecordIsCut(r: Record, room: nat)
    requires |r.data| == 4104 && room >= DLOG_MAX_LEN
    ensures ReadAt(Stream([r]), 0, room) == Some(Encode(r)[..40]) && WireSize(r) == 4136
  {
    hide Encode;
    assert [r][..0] == [];
    ReadAtBoundary([r], 0, room);
  }

  // ----- the buffer and its readers, updated in place

  method CopyTo(bs: seq<Byte>, dest: array<Byte>)
    requires |bs| <= dest.Length
    modifies dest
    ensures dest[..|bs|] == bs
    ensures forall j :: |bs| <= j < dest.Length ==> dest[j] == old(dest[j])
  {
    for i := 0 to |bs|
      invariant dest[..i] == bs[..i]
      invariant forall j :: i <= j < dest.Length ==> dest[j] == old(dest[j])
    {
      dest[i] := bs[i];
      assert dest[..i + 1] == dest[..i] + [bs[i]];
    }
  }

  class DlogBuffer {
    var buf: seq<Byte>
    ghost var records: seq<Record>

    ghost predicate Valid()
      reads this
    {
      buf == Stream(records)
    }

    constructor ()
      ensures Valid() && records == []
    {
      buf := [];
      records := [];
    }

    method Write(r: Record)
      requires Valid()
      modifies this
      ensures Valid() && records == old(records) + [r]
    {
      hide Header, Padding, WireSize, Stream;
      buf := buf + Header(r);
      buf := buf + r.data;
      buf := buf + Padding(r);
      StreamSnoc(records, r);
      assert buf == old(buf) + Encode(r);
      records := records + [r];
    }

    /** Copy what is at `offset` to the front of `dest`; no result means a panic. */
    method Read(offset: nat, dest: array<Byte>) returns (len: Option<nat>)
      modifies dest
      ensures match ReadAt(buf, offset, dest.Length)
              case None => len == None
              case Some(bs) =>
                && len == Some(|bs|) && |bs| <= dest.Length && dest[..|bs|] == bs
                && forall j :: |bs| <= j < dest.Length ==> dest[j] == old(dest[j])
    {
      if dest.Length < DLOG_MAX_LEN {
        return None;
      }
      if offset == |buf| {
        return Some(0);
      }
      if offset + HEADER_SIZE > |buf| {
        return None;
      }
      var n := Load(buf[offset..offset + 4]) % 0x1000;
      assert buf[offset..][..4] == buf[offset..offset + 4];
      if n < HEADER_SIZE || n > dest.Length || offset + n > |buf| {
        return None;
      }
      CopyTo(buf[offset..offset + n], dest);
      return Some(n);
    }
  }

  class Reader {
    var readOffset: nat
    ghost var taken: nat   // records read so far

    ghost predicate Valid(log: DlogBuffer)
      reads this, log
    {
      taken <= |log.records| && readOffset == |Stream(log.records[..taken])|
    }

    constructor (log: DlogBuffer)
      ensures Valid(log) && taken == 0
    {
      readOffset := 0;
      taken := 0;
    }

    /** The next record is delivered whole, and the reader goes on to the boundary behind it,
        exactly when the record fits the buffer. */
    method Read(log: DlogBuffer, dest: array<Byte>) returns (len: Option<nat>)
      requires log.Valid() && Valid(log)
      modifies this, dest
      ensures dest.Length < DLOG_MAX_LEN ==> len == None && unchanged(this)
      ensures dest.Length >= DLOG_MAX_LEN && old(taken) == |log.records| ==> len == Some(0) && unchanged(this)
      ensures dest.Length >= DLOG_MAX_LEN && old(taken) < |log.records| ==>
                var rec := log.records[old(taken)];
                && (Valid(log) && taken == old(taken) + 1 <==> Fits(rec, dest.Length))
                && (Fits(rec, dest.Length) ==>
                      len == Some(WireSize(rec)) && dest[..WireSize(rec)] == Encode(rec))
    {
      hide Encode, WireSize, ReadAt, Fits, Stream;
      if dest.Length >= DLOG_MAX_LEN {
        ReadAtBoundary(log.records, taken, dest.Length);
        if taken < |log.records| {
          WholeRecordRead(log.records, taken, dest.Length);
        }
      } else {
        ShortBufferPanics(log.buf, readOffset, dest.Length);
      }
      len := log.Read(readOffset, dest);
      if len.Some? && len.value > 0 {
        readOffset := readOffset + len.value;
        taken := taken + 1;
      }
    }
  }

  // ----- every interleaving

  type ReaderId = nat

  datatype Log = Log(buf: seq<Byte>, written: seq<Record>, offsets: map<ReaderId, nat>, got: map<ReaderId, seq<seq<Byte>>>,
                     panicked: bool)

  datatype Action = Open(id: ReaderId) | Append(record: Record) | Fetch(id: ReaderId)

  ghost predicate Allowed(s: Log, a: Action) {
    match a
    case Open(id) => id !in s.offsets
    case Append(r) => Small(r)
    case Fetch(id) => id in s.offsets && id in s.got
  }

  function Perform(s: Log, a: Action): (s': Log)
    requires a.Fetch? ==> a.id in s.offsets && a.id in s.got
  {
    match a
    case Open(id) => s.(offsets := s.offsets[id := 0], got := s.got[id := []])
    case Append(r) => s.(buf := s.buf + Encode(r), written := s.written + [r])
    case Fetch(id) =>
      match ReadAt(s.buf, s.offsets[id], DLOG_MAX_LEN)
      case None => s.(panicked := true)
      case Some(bs) =>
        if bs == [] then s
        else s.(offsets := s.offsets[id := s.offsets[id] + |bs|], got := s.got[id := s.got[id] + [bs]])
  }

  ghost predicate IsRun(s: Log, actions: seq<Action>)
    decreases |actions|
  {
    actions == [] || (Allowed(s, actions[0]) && IsRun(Perform(s, actions[0]), actions[1..]))
  }

  ghost function After(s: Log, actions: seq<Action>): (s': Log)
    requires IsRun(s, actions)
    decreases |actions|
  {
    if actions == [] then s else After(Perform(s, actions[0]), actions[1..])
  }

  const EMPTY := Log([], [], map[], map[], false)

  /** A reader has seen a prefix of the records and stands at the boundary behind it. */
  ghost predicate ReaderOk(s: Log, id: ReaderId)
    requires id in s.offsets && id in s.got
  {
    && |s.got[id]| <= |s.written|
    && s.offsets[id] == |Stream(s.written[..|s.got[id]|])|
    && forall k :: 0 <= k < |s.got[id]| ==> s.got[id][k] == Encode(s.written[k]) && |s.got[id][k]| <= DLOG_MAX_LEN
  }

  ghost predicate Inv(s: Log) {
    && !s.panicked
    && s.buf == Stream(s.written)
    && (forall i :: 0 <= i < |s.written| ==> Small(s.written[i]))
    && s.offsets.Keys == s.got.Keys
    && forall id :: id in s.offsets ==> ReaderOk(s, id)
  }

  lemma AppendKeepsInv(s: Log, r: Record)
    requires Inv(s) && Small(r)
    ensures Inv(Perform(s, Append(r)))
  {
    hide Encode, WireSize, Small;
    var s' := Perform(s, Append(r));
    assert s'.written[..|s.written|] == s.written;
    forall id | id in s'.offsets
      ensures ReaderOk(s', id)
    {
      assert ReaderOk(s, id);
      assert s'.written[..|s.got[id]|] == s.written[..|s.got[id]|];
    }
  }

  lemma FetchKeepsInv(s: Log, id: ReaderId)
    requires Inv(s) && Allowed(s, Fetch(id))
    ensures Inv(Perform(s, Fetch(id)))
  {
    hide Encode, WireSize, Small, ReadAt, Stream;
    assert ReaderOk(s, id);
    var k := |s.got[id]|;
    ReadAtBoundary(s.written, k, DLOG_MAX_LEN);
    if k < |s.written| {
      SmallFits(s.written[k]);
      WholeRecordRead(s.written, k, DLOG_MAX_LEN);
    }
    var s' := Perform(s, Fetch(id));
    forall j | j in s'.offsets
      ensures ReaderOk(s', j)
    {
      assert ReaderOk(s, j);
    }
  }

  lemma {:induction false} RunKeepsInv(s: Log, actions: seq<Action>)
    requires Inv(s) && IsRun(s, actions)
    ensures Inv(After(s, actions))
    decreases |actions|
  {
    hide Encode, WireSize, Small, ReadAt;
    if actions != [] {
      match actions[0] {
        case Append(r) => AppendKeepsInv(s, r);
        case Fetch(id) => FetchKeepsInv(s, id);
        case Open(id) =>
          forall j | j in s.offsets ensures ReaderOk(s, j) {}
      }
      RunKeepsInv(Perform(s, actions[0]), actions[1..]);
    }
  }

  /** The records appended by a run, and the readers it opens. */
  function Records(actions: seq<Action>): (rs: seq<Record>) {
    if actions == [] then [] else
      (if actions[0].Append? then [actions[0].record] else []) + Records(actions[1..])
  }

  function Opened(actions: seq<Action>): (ids: set<ReaderId>) {
    if actions == [] then {} else
      (if actions[0].Open? then {actions[0].id} else {}) + Opened(actions[1..])
  }

  predicate ReadersKnown(s: Log) {
    s.offsets.Keys == s.got.Keys
  }

  /** One action appends its record, opens its reader, or does neither. */
  lemma ActionEffect(s: Log, a: Action)
    requires ReadersKnown(s) && Allowed(s, a)
    ensures var s' := Perform(s, a);
            && ReadersKnown(s')
            && s'.written == s.written + Records([a])
            && s'.got.Keys == s.got.Keys + Opened([a])
            && (a.Open? ==> s'.got[a.id] == [])
  {
    hide Encode, ReadAt, Small;
    assert [a][1..] == [];
  }

  /** The log of a run is what the run appended, in order. */
  lemma {:induction false} LogIsWhatWasAppended(s: Log, actions: seq<Action>)
    requires ReadersKnown(s) && IsRun(s, actions)
    ensures After(s, actions).written == s.written + Records(actions)
    decreases |actions|
  {
    hide Perform, Small, ReadersKnown;
    if actions != [] {
      var a, rest := actions[0], actions[1..];
      ActionEffect(s, a);
      LogIsWhatWasAppended(Perform(s, a), rest);
      assert [a][1..] == [];
      assert s.written + (Records([a]) + Records(rest)) == (s.written + Records([a])) + Records(rest);
    }
  }

  /** Its readers are those the run opened. */
  lemma {:induction false} ReadersAreThoseOpened(s: Log, actions: seq<Action>)
    requires ReadersKnown(s) && IsRun(s, actions)
    ensures After(s, actions).got.Keys == s.got.Keys + Opened(actions)
    decreases |actions|
  {
    hide Perform, Small, ReadersKnown;
    if actions != [] {
      var a, rest := actions[0], actions[1..];
      ActionEffect(s, a);
      ReadersAreThoseOpened(Perform(s, a), rest);
      assert [a][1..] == [];
      assert Opened(actions) == Opened([a]) + Opened(rest);
    }
  }

  /** A reader that is behind obtains the next record, and one that is not obtains nothing. */
  lemma FetchDelivers(s: Log, id: ReaderId)
    requires Inv(s) && Allowed(s, Fetch(id))
    ensures var s', k := Perform(s, Fetch(id)), |s.got[id]|;
            if k < |s.written|
            then id in s'.got && s'.got[id] == s.got[id] + [Encode(s.written[k])] && s'.written == s.written
            else s' == s
  {
    hide Encode, WireSize, Small, ReadAt, Stream;
    assert ReaderOk(s, id);
    var k := |s.got[id]|;
    ReadAtBoundary(s.written, k, DLOG_MAX_LEN);
    if k < |s.written| {
      SmallFits(s.written[k]);
      WholeRecordRead(s.written, k, DLOG_MAX_LEN);
      NotNothing(s.written[k]);
    }
  }

  lemma NotNothing(r: Record)
    ensures Encode(r) != []
  {
  }

  function Fetches(id: ReaderId, n: nat): (actions: seq<Action>) {
    if n == 0 then [] else [Fetch(id)] + Fetches(id, n - 1)
  }

  /** From every state, as many reads as it is behind bring a reader the whole log. */
  lemma {:induction false} ReaderCatchesUp(s: Log, id: ReaderId)
    requires Inv(s) && id in s.got && id in s.offsets
    ensures |s.got[id]| <= |s.written|
    ensures IsRun(s, Fetches(id, |s.written| - |s.got[id]|))
    ensures var s' := After(s, Fetches(id, |s.written| - |s.got[id]|));
            && id in s'.got && |s'.got[id]| == |s.written| && s'.written == s.written
            && forall k :: 0 <= k < |s.written| ==> s'.got[id][k] == Encode(s.written[k])
    decreases |s.written| - |s.got[id]|
  {
    hide Encode, Small, Stream, Perform;
    assert ReaderOk(s, id);
    var n := |s.written| - |s.got[id]|;
    if n > 0 {
      FetchDelivers(s, id);
      FetchKeepsInv(s, id);
      ReaderCatchesUp(Perform(s, Fetch(id)), id);
      assert Fetches(id, n)[1..] == Fetches(id, n - 1);
    }
  }

  /** However writes and reads interleave, no read panics, the `k`-th record a reader obtains is
      the `k`-th record written, and no read delivers more than 256 bytes. */
  lemma ReadersSeeTheLog(actions: seq<Action>, id: ReaderId, k: nat)
    requires IsRun(EMPTY, actions)
    requires id in After(EMPTY, actions).got && k < |After(EMPTY, actions).got[id]|
    ensures var s := After(EMPTY, actions);
            !s.panicked && k < |s.written| && s.got[id][k] == Encode(s.written[k]) && |s.got[id][k]| <= DLOG_MAX_LEN
  {
    RunKeepsInv(EMPTY, actions);
    assert ReaderOk(After(EMPTY, actions), id);
  }
}
