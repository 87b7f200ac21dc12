/** Sending a channel message: handles leave the process before anything is validated, and
    whatever fails later, no handle is left behind or sent twice.

    User memory is an oracle: a read or a write-back succeeds with given contents or fails
    with a given error. */
module HandleTransfer {
  import opened LittleEndian
  import opened Results

  type HandleValue = nat

  datatype ZxError =
    | NOT_SUPPORTED | INVALID_ARGS | BAD_HANDLE | WRONG_TYPE | OUT_OF_RANGE | ACCESS_DENIED
    | Fault(code: int)   // whatever else a user-memory access reports

  type ZxResult<+T> = Result<T, ZxError>

  function Code(e: ZxError): int {
    match e
    case NOT_SUPPORTED => -2
    case INVALID_ARGS => -10
    case BAD_HANDLE => -11
    case WRONG_TYPE => -12
    case OUT_OF_RANGE => -14
    case ACCESS_DENIED => -30
    case Fault(code) => code
  }

  // ----- handles and rights

  const ALL_RIGHTS: bv32 := 0x81FF_FFFF
  type Rights = r: bv32 | r & !ALL_RIGHTS == 0 witness 0

  const DUPLICATE: bv32 := 1
  const TRANSFER: bv32 := 2
  const READ: bv32 := 4
  const WRITE: bv32 := 8
  const SAME_RIGHTS: bv32 := 0x8000_0000

  predicate Contains(rights: bv32, wanted: bv32) {
    rights & wanted == wanted
  }

  /** Some right is asked for that the source does not have. */
  predicate Exceeds(source: bv32, asked: bv32) {
    !source & asked != 0
  }

  function FromBits(bits: bv32): Option<Rights> {
    if bits & !ALL_RIGHTS == 0 then Some(bits) else None
  }

  datatype KernelObject = KernelObject(koid: nat, kind: nat)
  datatype Handle = Handle(target: KernelObject, rights: Rights)
  type HandleTable = map<HandleValue, Handle>

  const CHANNEL_KIND := 4

  function Lookup(table: HandleTable, v: HandleValue): (r: ZxResult<Handle>) {
    if v in table then Ok(table[v]) else Err(BAD_HANDLE)
  }

  function GetChannel(table: HandleTable, v: HandleValue, wanted: bv32): (r: ZxResult<KernelObject>) {
    if v !in table then Err(BAD_HANDLE)
    else if table[v].target.kind != CHANNEL_KIND then Err(WRONG_TYPE)
    else if !Contains(table[v].rights, wanted) then Err(ACCESS_DENIED)
    else Ok(table[v].target)
  }

  // ----- dispositions

  const OP_MOVE := 0
  const OP_DUP := 1

  datatype Disposition = Disposition(op: nat, handle: HandleValue, kind: nat, rights: bv32, result: int)

  type UserReads<!T> = (nat, nat) -> ZxResult<seq<T>>

  /** The two send interfaces: plain handle values, or dispositions that may be written back. */
  datatype HandleBuffer =
    | Values(values: UserReads<HandleValue>)
    | Dispositions(entries: UserReads<Disposition>, writeBack: nat -> ZxResult<()>)

  function MoveOf(v: HandleValue): Disposition {
    Disposition(OP_MOVE, v, 0, SAME_RIGHTS, 0)
  }

  function ReadChunk(b: HandleBuffer, offset: nat, count: nat): (r: ZxResult<seq<Disposition>>) {
    match b
    case Dispositions(entries, _) => entries(offset, count)
    case Values(values) =>
      match values(offset, count)
      case Err(e) => Err(e)
      case Ok(vs) => Ok(seq(|vs|, i requires 0 <= i < |vs| => MoveOf(vs[i])))
  }

  /** The handle values a batch takes out of the process: all that are not duplicated. */
  function Named(ds: seq<Disposition>): (s: set<HandleValue>) {
    set i | 0 <= i < |ds| && ds[i].op != OP_DUP :: ds[i].handle
  }

  /** What entry `i` obtains: the handle it names, unless an earlier entry took it away. */
  function Obtained(table: HandleTable, ds: seq<Disposition>, i: nat): (r: ZxResult<Handle>)
    requires i < |ds|
  {
    Lookup(table - Named(ds[..i]), ds[i].handle)
  }

  function AllObtained(table: HandleTable, ds: seq<Disposition>): (rs: seq<ZxResult<Handle>>)
    ensures |rs| == |ds|
  {
    seq(|ds|, i requires 0 <= i < |ds| => Obtained(table, ds, i))
  }

  lemma NamedSnoc(ds: seq<Disposition>, d: Disposition)
    ensures Named(ds + [d]) == Named(ds) + if d.op != OP_DUP then {d.handle} else {}
  {
    var all := ds + [d];
    forall v | v in Named(ds) + if d.op != OP_DUP then {d.handle} else {}
      ensures v in Named(all)
    {
      if v in Named(ds) {
        var i :| 0 <= i < |ds| && ds[i].op != OP_DUP && ds[i].handle == v;
        assert all[i] == ds[i];
      } else {
        assert all[|ds|] == d;
      }
    }
  }

  // ----- closing

  /** The handles a batch owns: those its non-duplicating entries took out of the process. */
  function Owned(ds: seq<Disposition>, rs: seq<ZxResult<Handle>>): (s: seq<(HandleValue, Handle)>)
    requires |ds| == |rs|
  {
    if ds == [] then [] else
      var n := |ds| - 1;
      Owned(ds[..n], rs[..n]) + if ds[n].op != OP_DUP && rs[n].Ok? then [(ds[n].handle, rs[n].value)] else []
  }

  lemma AllObtainedInit(table: HandleTable, ds: seq<Disposition>)
    requires ds != []
    ensures var n := |ds| - 1;
            AllObtained(table, ds)[..n] == AllObtained(table, ds[..n])
            && AllObtained(table, ds)[n] == Obtained(table, ds, n)
  {
    hide Named;
    var n := |ds| - 1;
    forall i | 0 <= i < n
      ensures AllObtained(table, ds)[i] == AllObtained(table, ds[..n])[i]
    {
      assert ds[..n][..i] == ds[..i];
    }
  }

  /** A batch owns exactly the named handles that existed, each of them once. */
  lemma {:induction false} OwnedExactly(table: HandleTable, ds: seq<Disposition>)
    ensures var owned := Owned(ds, AllObtained(table, ds));
            && (forall p :: p in owned <==> p.0 in table && p.0 in Named(ds) && p.1 == table[p.0])
            && (forall i, j :: 0 <= i < j < |owned| ==> owned[i].0 != owned[j].0)
  {
    if ds != [] {
      hide Named, AllObtained;
      var n := |ds| - 1;
      OwnedExactly(table, ds[..n]);
      AllObtainedInit(table, ds);
      assert ds == ds[..n] + [ds[n]];
      NamedSnoc(ds[..n], ds[n]);
    }
  }

  // ----- validation

  function HandleCheck(d: Disposition, source: Handle, channel: HandleValue): (r: ZxResult<()>) {
    if !Contains(source.rights, TRANSFER) then Err(ACCESS_DENIED)
    else if d.handle == channel then Err(NOT_SUPPORTED)
    else if d.kind != 0 && d.kind != source.target.kind then Err(WRONG_TYPE)
    else if (d.op != OP_MOVE && d.op != OP_DUP) || (d.rights != SAME_RIGHTS && Exceeds(source.rights, d.rights))
    then Err(INVALID_ARGS)
    else if d.op == OP_DUP && !Contains(source.rights, DUPLICATE) then Err(ACCESS_DENIED)
    else Ok(())
  }

  /** The handle that goes into the message for one entry, or why it may not. */
  function Validated(d: Disposition, r: ZxResult<Handle>, channel: HandleValue): (v: ZxResult<Handle>) {
    match r
    case Err(e) => Err(e)
    case Ok(h) =>
      match HandleCheck(d, h, channel)
      case Err(e) => Err(e)
      case Ok(_) =>
        if d.rights == SAME_RIGHTS then Ok(h) else
          match FromBits(d.rights)
          case None => Err(INVALID_ARGS)
          case Some(rights) => Ok(h.(rights := rights))
  }

  function AllValidated(ds: seq<Disposition>, rs: seq<ZxResult<Handle>>, channel: HandleValue)
    : (vs: seq<ZxResult<Handle>>)
    requires |ds| == |rs|
  {
    seq(|ds|, i requires 0 <= i < |ds| => Validated(ds[i], rs[i], channel))
  }

  function FirstError(vs: seq<ZxResult<Handle>>): (r: Option<ZxError>) {
    if vs == [] then None else
      var n := |vs| - 1;
      match FirstError(vs[..n])
      case Some(e) => Some(e)
      case None => if vs[n].Err? then Some(vs[n].error) else None
  }

  /** The error kept is the one at the lowest failing index. */
  lemma {:induction false} FirstErrorIsLowest(vs: seq<ZxResult<Handle>>)
    ensures FirstError(vs).None? <==> forall i :: 0 <= i < |vs| ==> vs[i].Ok?
    ensures FirstError(vs).Some? ==>
              exists i :: 0 <= i < |vs| && vs[i] == Err(FirstError(vs).value) && forall j :: 0 <= j < i ==> vs[j].Ok?
  {
    if vs != [] {
      var n := |vs| - 1;
      FirstErrorIsLowest(vs[..n]);
      if FirstError(vs[..n]).Some? {
        var i :| 0 <= i < n && vs[..n][i] == Err(FirstError(vs[..n]).value) && forall j :: 0 <= j < i ==> vs[..n][j].Ok?;
        assert vs[i] == Err(FirstError(vs).value);
        assert forall j :: 0 <= j < i ==> vs[j] == vs[..n][j];
      } else {
        assert forall j :: 0 <= j < n ==> vs[j] == vs[..n][j];
      }
    }
  }

  /** The dispositions as they are written back: each failing entry carries its own error. */
  function Recorded(ds: seq<Disposition>, vs: seq<ZxResult<Handle>>): (r: seq<Disposition>)
    requires |ds| == |vs|
  {
    seq(|ds|, i requires 0 <= i < |ds| =>
      match vs[i]
      case Ok(_) => ds[i]
      case Err(e) => ds[i].(result := Code(e)))
  }

  ghost predicate AllOk(vs: seq<ZxResult<Handle>>) {
    forall i :: 0 <= i < |vs| ==> vs[i].Ok?
  }

  /** What a successful batch sends, entry by entry and in terms of the process before the
      call: the object named, no more rights than the source had, and only if the source
      allowed it.  Values moved are distinct and the channel never travels through itself. */
  lemma SentHandles(table: HandleTable, ds: seq<Disposition>, channel: HandleValue, i: nat)
    requires AllOk(AllValidated(ds, AllObtained(table, ds), channel))
    requires i < |ds|
    ensures ds[i].handle in table
    ensures var sent, source := AllValidated(ds, AllObtained(table, ds), channel)[i].value, table[ds[i].handle];
            && sent.target == source.target
            && !Exceeds(source.rights, sent.rights)
            && sent.rights == (if ds[i].rights == SAME_RIGHTS then source.rights else ds[i].rights)
            && Contains(source.rights, TRANSFER)
            && (ds[i].op == OP_MOVE || ds[i].op == OP_DUP)
            && (ds[i].op == OP_DUP ==> Contains(source.rights, DUPLICATE))
            && ds[i].handle != channel
    ensures forall j :: 0 <= j < i && ds[j].op == OP_MOVE ==> ds[j].handle != ds[i].handle
  {
    var vs := AllValidated(ds, AllObtained(table, ds), channel);
    assert vs[i].Ok?;
    assert vs[i] == Validated(ds[i], Obtained(table, ds, i), channel);
    forall j | 0 <= j < i && ds[j].op == OP_MOVE
      ensures ds[j].handle != ds[i].handle
    {
      assert ds[..i][j] == ds[j];
      assert ds[j].handle in Named(ds[..i]);
    }
  }

  /** Entry `i` may be sent, judged on the process before the call. */
  ghost predicate Sendable(table: HandleTable, ds: seq<Disposition>, channel: HandleValue, i: nat)
    requires i < |ds|
  {
    var d := ds[i];
    && d.handle in table && d.handle !in Named(ds[..i]) && d.handle != channel
    && Contains(table[d.handle].rights, TRANSFER)
    && (d.op == OP_MOVE || (d.op == OP_DUP && Contains(table[d.handle].rights, DUPLICATE)))
    && (d.kind == 0 || d.kind == table[d.handle].target.kind)
    && (d.rights == SAME_RIGHTS || !Exceeds(table[d.handle].rights, d.rights))
  }

  /** A batch is accepted exactly when each of its entries may be sent. */
  lemma BatchAcceptedExactly(table: HandleTable, ds: seq<Disposition>, channel: HandleValue)
    ensures AllOk(AllValidated(ds, AllObtained(table, ds), channel))
       <==> forall i :: 0 <= i < |ds| ==> Sendable(table, ds, channel, i)
  {
    hide Named, Exceeds, Contains, FromBits;
    var vs := AllValidated(ds, AllObtained(table, ds), channel);
    forall i | 0 <= i < |ds|
      ensures vs[i].Ok? <==> Sendable(table, ds, channel, i)
    {
      assert vs[i] == Validated(ds[i], Obtained(table, ds, i), channel);
      if ds[i].handle in table && !Exceeds(table[ds[i].handle].rights, ds[i].rights) {
        NarrowedRightsAreKnown(table[ds[i].handle], ds[i].rights);
      }
    }
  }

  /** The plain interface sends every handle as it was. */
  lemma PlainValuesSentUnchanged(table: HandleTable, values: seq<HandleValue>, channel: HandleValue, i: nat)
    requires i < |values|
    requires var ds := seq(|values|, k requires 0 <= k < |values| => MoveOf(values[k]));
             AllOk(AllValidated(ds, AllObtained(table, ds), channel))
    ensures values[i] in table
    ensures var ds := seq(|values|, k requires 0 <= k < |values| => MoveOf(values[k]));
            AllValidated(ds, AllObtained(table, ds), channel)[i] == Ok(table[values[i]])
  {
    var ds := seq(|values|, k requires 0 <= k < |values| => MoveOf(values[k]));
    SentHandles(table, ds, channel, i);
  }

  /** A narrowed right is always a known right: the conversion after the check cannot fail. */
  lemma NarrowedRightsAreKnown(source: Handle, asked: bv32)
    requires !Exceeds(source.rights, asked)
    ensures FromBits(asked).Some?
  {
    SubsetKnown(source.rights, asked);
  }

  lemma SubsetKnown(source: bv32, asked: bv32)
    requires source & !ALL_RIGHTS == 0 && !Exceeds(source, asked)
    ensures asked & !ALL_RIGHTS == 0
  {
    assert asked & !source == 0;
    assert asked == asked & source;
    assert asked & !ALL_RIGHTS == asked & (source & !ALL_RIGHTS);
  }

  // ----- which error

  predicate HasBit(rights: bv32, bit: bv32) {
    rights & bit != 0
  }

  lemma RightsBits(rights: bv32)
    ensures Contains(rights, DUPLICATE) <==> HasBit(rights, 1)
    ensures Contains(rights, TRANSFER) <==> HasBit(rights, 2)
    ensures Contains(rights, WRITE) <==> HasBit(rights, 8)
    ensures Contains(rights, READ | WRITE) <==> HasBit(rights, 4) && HasBit(rights, 8)
  {
    assert READ | WRITE == 12;
    assert rights & 12 == (rights & 8) | (rights & 4);
    assert rights & 1 == 0 || rights & 1 == 1;
    assert rights & 2 == 0 || rights & 2 == 2;
    assert rights & 4 == 0 || rights & 4 == 4;
    assert rights & 8 == 0 || rights & 8 == 8;
  }

  /** Which error an entry gets, test by test: a later test speaks only when the earlier ones
      pass.  The bits are 1 for DUPLICATE and 2 for TRANSFER. */
  lemma HandleCheckErrors(d: Disposition, source: Handle, channel: HandleValue)
    ensures var r := HandleCheck(d, source, channel);
            var stays, itself := !HasBit(source.rights, 2), d.handle == channel;
            var other := d.kind != 0 && d.kind != source.target.kind;
            var invalid := d.op > 1 || (d.rights != SAME_RIGHTS && Exceeds(source.rights, d.rights));
            var single := d.op == 1 && !HasBit(source.rights, 1);
            && (r == Err(NOT_SUPPORTED) <==> !stays && itself)
            && (r == Err(WRONG_TYPE) <==> !stays && !itself && other)
            && (r == Err(INVALID_ARGS) <==> !stays && !itself && !other && invalid)
            && (r == Err(ACCESS_DENIED) <==> stays || (!itself && !other && !invalid && single))
            && (r.Ok? <==> !stays && !itself && !other && !invalid && !single)
  {
    hide Contains, Exceeds, HasBit;
    RightsBits(source.rights);
  }

  /** A call needs both rights on the channel, a write only one. */
  lemma ChannelResolved(table: HandleTable, v: HandleValue, isCall: bool)
    ensures var r := GetChannel(table, v, if isCall then READ | WRITE else WRITE);
            && (r == Err(BAD_HANDLE) <==> v !in table)
            && (r == Err(WRONG_TYPE) <==> v in table && table[v].target.kind != CHANNEL_KIND)
            && (r.Ok? <==> v in table && table[v].target.kind == CHANNEL_KIND
                           && HasBit(table[v].rights, 8) && (isCall ==> HasBit(table[v].rights, 4)))
            && (r.Ok? ==> r.value == table[v].target)
            && (r.Err? ==> r.error in {BAD_HANDLE, WRONG_TYPE, ACCESS_DENIED})
  {
    hide Contains, HasBit;
    if v in table {
      RightsBits(table[v].rights);
    }
  }

  /** An entry is written back as it was, but for the result of a failed one; different errors
      leave different results. */
  lemma RecordedResults(ds: seq<Disposition>, vs: seq<ZxResult<Handle>>, i: nat, j: nat)
    requires |ds| == |vs| && i < |ds| && j < |ds|
    ensures var r := Recorded(ds, vs);
            && |r| == |ds| && r[i].(result := ds[i].result) == ds[i]
            && (vs[i].Ok? ==> r[i] == ds[i])
            && (vs[i].Err? && vs[j].Err? && !vs[i].error.Fault? && !vs[j].error.Fault? ==>
                  r[i].result < 0 && (r[i].result == r[j].result <==> vs[i].error == vs[j].error))
            && (vs[i] == Err(BAD_HANDLE) ==> r[i].result == -11) && (vs[i] == Err(ACCESS_DENIED) ==> r[i].result == -30)
            && (vs[i] == Err(WRONG_TYPE) ==> r[i].result == -12) && (vs[i] == Err(INVALID_ARGS) ==> r[i].result == -10)
            && (vs[i] == Err(NOT_SUPPORTED) ==> r[i].result == -2)
  {
  }

  // ----- message bytes

  const MAX_MESSAGE_BYTES := 65536
  const MAX_MESSAGE_HANDLES := 64
  const MAX_IOVECS := 8192

  /** One segment, with what reading its buffer gives. */
  datatype IoVec = IoVec(reserved: nat, capacity: nat, content: ZxResult<seq<Byte>>)

  ghost predicate Faithful(v: IoVec) {
    v.content.Ok? ==> |v.content.value| == v.capacity
  }

  function Gather(vs: seq<IoVec>): (r: ZxResult<seq<Byte>>) {
    if vs == [] then Ok([]) else
      var n := |vs| - 1;
      match Gather(vs[..n])
      case Err(e) => Err(e)
      case Ok(data) =>
        if vs[n].reserved != 0 then Err(INVALID_ARGS)
        else if |data| + vs[n].capacity > MAX_MESSAGE_BYTES then Err(OUT_OF_RANGE)
        else match vs[n].content
          case Err(e) => Err(e)
          case Ok(bytes) => Ok(data + bytes)
  }

  function Joined(vs: seq<IoVec>): (r: seq<Byte>) {
    if vs == [] then [] else
      Joined(vs[..|vs| - 1]) + match vs[|vs| - 1].content case Ok(bytes) => bytes case Err(_) => []
  }

  function Capacity(vs: seq<IoVec>): (n: nat) {
    if vs == [] then 0 else Capacity(vs[..|vs| - 1]) + vs[|vs| - 1].capacity
  }

  /** Segments are joined in order exactly when all are well formed and readable and their
      total fits in one message. */
  lemma {:induction false} GatherExact(vs: seq<IoVec>)
    requires forall i :: 0 <= i < |vs| ==> Faithful(vs[i])
    ensures Gather(vs).Ok? <==>
              (forall i :: 0 <= i < |vs| ==> vs[i].reserved == 0 && vs[i].content.Ok?) && Capacity(vs) <= MAX_MESSAGE_BYTES
    ensures Gather(vs).Ok? ==> Gather(vs).value == Joined(vs) && |Joined(vs)| == Capacity(vs)
  {
    if vs != [] {
      var n := |vs| - 1;
      GatherExact(vs[..n]);
      assert forall i :: 0 <= i < n ==> vs[..n][i] == vs[i];
    }
  }

  /** Why segment `i` cannot be added to the ones before it. */
  ghost function SegmentError(vs: seq<IoVec>, i: nat): (r: Option<ZxError>)
    requires i < |vs|
  {
    if vs[i].reserved != 0 then Some(INVALID_ARGS)
    else if Capacity(vs[..i + 1]) > MAX_MESSAGE_BYTES then Some(OUT_OF_RANGE)
    else match vs[i].content case Err(e) => Some(e) case Ok(_) => None
  }

  /** The first segment that cannot be added decides the error. */
  lemma {:induction false} GatherError(vs: seq<IoVec>)
    requires forall i :: 0 <= i < |vs| ==> Faithful(vs[i])
    ensures Gather(vs).Err? ==>
              exists i :: 0 <= i < |vs| && SegmentError(vs, i) == Some(Gather(vs).error)
                          && forall j :: 0 <= j < i ==> SegmentError(vs, j).None?
    ensures Gather(vs).Ok? ==> forall j :: 0 <= j < |vs| ==> SegmentError(vs, j).None?
  {
    if vs != [] {
      var n := |vs| - 1;
      var init := vs[..n];
      GatherError(init);
      forall j | 0 <= j < n
        ensures SegmentError(init, j) == SegmentError(vs, j)
      {
        assert init[..j + 1] == vs[..j + 1];
      }
      if Gather(init).Err? {
        var i :| 0 <= i < |init| && SegmentError(init, i) == Some(Gather(init).error)
                 && forall j :: 0 <= j < i ==> SegmentError(init, j).None?;
        assert SegmentError(vs, i) == Some(Gather(vs).error);
      } else {
        GatherExact(init);
        assert vs[..n + 1] == vs;
        assert Gather(vs).Err? ==> SegmentError(vs, n) == Some(Gather(vs).error);
      }
    }
  }

  /** What the user passes as message bytes: a plain buffer, or an array of segments. */
  datatype UserBytes = UserBytes(plain: nat -> ZxResult<seq<Byte>>, iovecs: nat -> ZxResult<seq<IoVec>>)

  const USE_IOVEC: bv32 := 2

  function ReadData(options: bv32, user: UserBytes, count: nat): (r: ZxResult<seq<Byte>>) {
    if options & USE_IOVEC != 0 then
      if count > MAX_IOVECS then Err(OUT_OF_RANGE)
      else match user.iovecs(count)
        case Err(e) => Err(e)
        case Ok(vs) => Gather(vs)
    else if count > MAX_MESSAGE_BYTES then Err(OUT_OF_RANGE)
    else user.plain(count)
  }

  /** Bytes come from one buffer of at most 65536, or from at most 8192 segments. */
  lemma DataLimits(options: bv32, user: UserBytes, count: nat)
    requires options == 0 || options == 2
    ensures var r := ReadData(options, user, count);
            && (r.Ok? ==> count <= if options == 0 then 65536 else 8192)
            && (count > (if options == 0 then 65536 else 8192) ==> r == Err(OUT_OF_RANGE))
            && (options == 0 && count <= 65536 ==> r == user.plain(count))
            && (options == 2 && count <= 8192 && user.iovecs(count).Ok? ==> r == Gather(user.iovecs(count).value))
  {
    assert 0 & USE_IOVEC == 0 && 2 & USE_IOVEC == 2;
  }

  method ReadIovecs(user: UserBytes, count: nat) returns (r: ZxResult<seq<Byte>>)
    ensures r == ReadData(USE_IOVEC, user, count)
  {
    if count > MAX_IOVECS {
      return Err(OUT_OF_RANGE);
    }
    var vs;
    match user.iovecs(count) {
      case Err(e) => return Err(e);
      case Ok(read) => vs := read;
    }
    var data: seq<Byte> := [];
    for i := 0 to |vs|
      invariant Gather(vs[..i]) == Ok(data)
    {
      GatherStep(vs, i);
      if vs[i].reserved != 0 {
        return Err(INVALID_ARGS);
      }
      if |data| + vs[i].capacity > MAX_MESSAGE_BYTES {
        return Err(OUT_OF_RANGE);
      }
      match vs[i].content {
        case Err(e) => return Err(e);
        case Ok(bytes) => data := data + bytes;
      }
    }
    assert vs[..|vs|] == vs;
    r := Ok(data);
  }

  /** A failing segment fails the whole gathering. */
  lemma GatherStep(vs: seq<IoVec>, i: nat)
    requires i < |vs|
    ensures vs[..i + 1][..i] == vs[..i]
    ensures Gather(vs[..i + 1]).Err? ==> Gather(vs) == Gather(vs[..i + 1])
  {
    assert vs[..i + 1][..i] == vs[..i];
    if Gather(vs[..i + 1]).Err? {
      GatherFails(vs, i + 1);
    }
  }

  lemma {:induction false} GatherFails(vs: seq<IoVec>, k: nat)
    requires k <= |vs| && Gather(vs[..k]).Err?
    ensures Gather(vs) == Gather(vs[..k])
    decreases |vs|
  {
    if k == |vs| {
      assert vs[..k] == vs;
    } else {
      var n := |vs| - 1;
      assert vs[..n][..k] == vs[..k];
      GatherFails(vs[..n], k);
    }
  }
}
