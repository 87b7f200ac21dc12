/** The process side of a channel send: taking handles, checking them, and giving up. */
module ChannelSend {
  import opened HandleTransfer
  import opened LittleEndian
  import opened Results

  datatype Message = Message(data: seq<Byte>, handles: seq<Handle>)

  function Min(a: nat, b: nat): nat {
    if a < b then a else b
  }

  /** The chunks of an oversized request up to the first one that cannot be read. */
  function Readable(b: HandleBuffer, offset: nat, count: nat): (ds: seq<Disposition>)
    decreases if offset < count then count - offset else 0
  {
    if offset >= count then [] else
      match ReadChunk(b, offset, Min(count - offset, MAX_MESSAGE_HANDLES))
      case Err(_) => []
      case Ok(chunk) => chunk + Readable(b, offset + MAX_MESSAGE_HANDLES, count)
  }

  lemma ReadableStep(b: HandleBuffer, offset: nat, count: nat)
    ensures Readable(b, offset, count) == if offset >= count then [] else
              match ReadChunk(b, offset, Min(count - offset, MAX_MESSAGE_HANDLES))
              case Err(_) => []
              case Ok(chunk) => chunk + Readable(b, offset + MAX_MESSAGE_HANDLES, count)
  {
  }

  lemma NothingTaken(table: HandleTable)
    ensures table - Named([]) == table && Owned([], AllObtained(table, [])) == []
  {
  }

  lemma OwnedStep(ds: seq<Disposition>, rs: seq<ZxResult<Handle>>, i: nat)
    requires |ds| == |rs| && i < |ds|
    ensures Owned(ds[..i + 1], rs[..i + 1])
         == Owned(ds[..i], rs[..i]) + if ds[i].op != OP_DUP && rs[i].Ok? then [(ds[i].handle, rs[i].value)] else []
  {
    assert ds[..i + 1][..i] == ds[..i] && rs[..i + 1][..i] == rs[..i];
  }

  lemma OwnedSnoc(table: HandleTable, ds: seq<Disposition>, d: Disposition)
    ensures Owned(ds + [d], AllObtained(table, ds + [d]))
         == Owned(ds, AllObtained(table, ds))
            + if d.op != OP_DUP && d.handle in table - Named(ds) then [(d.handle, table[d.handle])] else []
  {
    var all, n := ds + [d], |ds|;
    assert all[..n] == ds;
    assert AllObtained(table, all)[..n] == AllObtained(table, ds) by {
      forall i | 0 <= i < n
        ensures AllObtained(table, all)[i] == AllObtained(table, ds)[i]
      {
        assert all[..i] == ds[..i];
      }
    }
    assert AllObtained(table, all)[n] == Obtained(table, all, n);
  }

  // ----- which handles a request takes

  /** Entry `i` of a successful read names the handle `v` for anything but duplication. */
  ghost predicate NamesAt(b: HandleBuffer, offset: nat, count: nat, i: nat, v: HandleValue) {
    match b
    case Values(values) =>
      match values(offset, count) {
        case Err(_) => false
        case Ok(vs) => i < |vs| && vs[i] == v
      }
    case Dispositions(entries, _) =>
      match entries(offset, count) {
        case Err(_) => false
        case Ok(ds) => i < |ds| && ds[i].op != OP_DUP && ds[i].handle == v
      }
  }

  predicate Reads(b: HandleBuffer, offset: nat, count: nat) {
    match b
    case Values(values) => values(offset, count).Ok?
    case Dispositions(entries, _) => entries(offset, count).Ok?
  }

  /** The length of chunk `c` of an oversized request. */
  function ChunkLen(count: nat, c: nat): (n: nat) {
    if c * 64 < count then Min(count - c * 64, 64) else 0
  }

  /** The chunks from `from` to `c` exist and can be read. */
  ghost predicate Reached(b: HandleBuffer, count: nat, from: nat, c: nat) {
    forall j: nat :: from <= j <= c ==> ChunkLen(count, j) > 0 && Reads(b, j * 64, ChunkLen(count, j))
  }

  /** The request takes handle value `v`: an entry that can be read names it.  An oversized
      request is read in chunks of 64 up to the first that cannot be read. */
  ghost predicate TakenBy(b: HandleBuffer, count: nat, v: HandleValue) {
    if count <= 64 then exists i: nat :: NamesAt(b, 0, count, i, v)
    else exists c: nat, i: nat :: Reached(b, count, 0, c) && NamesAt(b, c * 64, ChunkLen(count, c), i, v)
  }

  lemma ChunkNames(b: HandleBuffer, offset: nat, count: nat, v: HandleValue)
    ensures ReadChunk(b, offset, count).Ok? <==> Reads(b, offset, count)
    ensures (ReadChunk(b, offset, count).Ok? && v in Named(ReadChunk(b, offset, count).value))
       <==> exists i: nat :: NamesAt(b, offset, count, i, v)
  {
    if ReadChunk(b, offset, count).Ok? {
      var ds := ReadChunk(b, offset, count).value;
      if v in Named(ds) {
        var i :| 0 <= i < |ds| && ds[i].op != OP_DUP && ds[i].handle == v;
        assert NamesAt(b, offset, count, i, v);
      }
      if i: nat :| NamesAt(b, offset, count, i, v) {
        assert ds[i].op != OP_DUP && ds[i].handle == v;
      }
    }
  }

  lemma NamedConcat(a: seq<Disposition>, b: seq<Disposition>, v: HandleValue)
    ensures v in Named(a + b) <==> v in Named(a) || v in Named(b)
  {
    var all := a + b;
    if v in Named(a) {
      var i :| 0 <= i < |a| && a[i].op != OP_DUP && a[i].handle == v;
      assert all[i] == a[i];
    }
    if v in Named(b) {
      var i :| 0 <= i < |b| && b[i].op != OP_DUP && b[i].handle == v;
      assert all[|a| + i] == b[i];
    }
  }

  /** Some chunk from `from` on is reached and names `v`. */
  ghost predicate TakenFrom(b: HandleBuffer, count: nat, from: nat, v: HandleValue) {
    exists c: nat, i: nat :: from <= c && Reached(b, count, from, c) && NamesAt(b, c * 64, ChunkLen(count, c), i, v)
  }

  lemma TakenFromStep(b: HandleBuffer, count: nat, from: nat, v: HandleValue)
    ensures TakenFrom(b, count, from, v) <==>
              && ChunkLen(count, from) > 0 && Reads(b, from * 64, ChunkLen(count, from))
              && ((exists i: nat :: NamesAt(b, from * 64, ChunkLen(count, from), i, v)) || TakenFrom(b, count, from + 1, v))
  {
    hide NamesAt, Reads, ChunkLen;
    if c: nat, i: nat :| from <= c && Reached(b, count, from, c) && NamesAt(b, c * 64, ChunkLen(count, c), i, v) {
      if c > from {
        assert Reached(b, count, from + 1, c);
      }
    }
    if ChunkLen(count, from) > 0 && Reads(b, from * 64, ChunkLen(count, from)) {
      if i: nat :| NamesAt(b, from * 64, ChunkLen(count, from), i, v) {
        assert Reached(b, count, from, from);
      }
      if c: nat, i: nat :| from + 1 <= c && Reached(b, count, from + 1, c) && NamesAt(b, c * 64, ChunkLen(count, c), i, v) {
        assert Reached(b, count, from, c);
      }
    }
  }

  lemma {:induction false} ReadableNames(b: HandleBuffer, count: nat, from: nat, v: HandleValue)
    ensures v in Named(Readable(b, from * 64, count)) <==> TakenFrom(b, count, from, v)
    decreases if from * 64 < count then count - from * 64 else 0
  {
    hide Named, NamesAt, Reads, TakenFrom, ReadChunk, Readable;
    TakenFromStep(b, count, from, v);
    ReadableStep(b, from * 64, count);
    NothingTaken(map[]);
    if from * 64 < count {
      ChunkNames(b, from * 64, ChunkLen(count, from), v);
      if ReadChunk(b, from * 64, ChunkLen(count, from)).Ok? {
        var chunk := ReadChunk(b, from * 64, ChunkLen(count, from)).value;
        NamedConcat(chunk, Readable(b, (from + 1) * 64, count), v);
        ReadableNames(b, count, from + 1, v);
      } else {
        NothingNamed(v);
      }
    } else {
      NothingNamed(v);
    }
  }

  lemma NothingNamed(v: HandleValue)
    ensures v !in Named([])
  {
  }

  /** The handles left are those the request does not take. */
  ghost predicate LeftBy(b: HandleBuffer, count: nat, before: HandleTable, after: HandleTable) {
    && (forall v :: v in after ==> v in before && after[v] == before[v])
    && (forall v :: v in before ==> (v !in after <==> TakenBy(b, count, v)))
  }

  lemma TakesExactly(b: HandleBuffer, count: nat, before: HandleTable, after: HandleTable)
    requires count > 64 ==> after == before - Named(Readable(b, 0, count))
    requires count <= 64 && ReadChunk(b, 0, count).Err? ==> after == before
    requires count <= 64 && ReadChunk(b, 0, count).Ok? ==> after == before - Named(ReadChunk(b, 0, count).value)
    ensures LeftBy(b, count, before, after)
  {
    hide Named, NamesAt, Reads, Reached, ReadChunk, Readable;
    forall v | v in before
      ensures v !in after <==> TakenBy(b, count, v)
    {
      ChunkNames(b, 0, count, v);
      ReadableNames(b, count, 0, v);
      if count > 64 {
        TakenFromStart(b, count, v);
      }
    }
  }

  lemma TakenFromStart(b: HandleBuffer, count: nat, v: HandleValue)
    requires count > 64
    ensures TakenFrom(b, count, 0, v) <==> TakenBy(b, count, v)
  {
    hide NamesAt, Reached;
  }

  // ----- a plain send

  type CloseLog = seq<(HandleValue, Handle)>

  /** Through the plain interface a successful message carries the handles named, as they were
      and each once, and nothing is closed.  Otherwise exactly the handles named are closed,
      each once. */
  ghost predicate PlainOutcome(before: HandleTable, values: seq<HandleValue>, r: ZxResult<(KernelObject, Message)>,
                               closed: CloseLog, closed': CloseLog)
    requires closed <= closed'
  {
    var dropped := closed'[|closed|..];
    match r
    case Ok((_, message)) =>
      && dropped == []
      && |message.handles| == |values|
      && (forall i :: 0 <= i < |values| ==> values[i] in before && message.handles[i] == before[values[i]])
      && (forall i, j :: 0 <= i < j < |values| ==> values[i] != values[j])
    case Err(_) =>
      && (forall p :: p in dropped <==> p.0 in values && p.0 in before && p.1 == before[p.0])
      && (forall i, j :: 0 <= i < j < |dropped| ==> dropped[i].0 != dropped[j].0)
  }

  function Moves(values: seq<HandleValue>): (ds: seq<Disposition>)
    ensures |ds| == |values|
  {
    seq(|values|, i requires 0 <= i < |values| => MoveOf(values[i]))
  }

  lemma PlainChunk(b: HandleBuffer, count: nat)
    ensures b.Values? && b.values(0, count).Ok? ==> ReadChunk(b, 0, count) == Ok(Moves(b.values(0, count).value))
  {
    if b.Values? && b.values(0, count).Ok? {
      var vs := b.values(0, count).value;
      assert Moves(vs) == seq(|vs|, i requires 0 <= i < |vs| => MoveOf(vs[i]));
    }
  }

  lemma MovesNamed(values: seq<HandleValue>, v: HandleValue)
    ensures v in Named(Moves(values)) <==> v in values
  {
    if v in values {
      var i :| 0 <= i < |values| && values[i] == v;
      assert Moves(values)[i] == MoveOf(v);
    }
  }

  lemma PlainSent(before: HandleTable, values: seq<HandleValue>, channel: HandleValue, target: KernelObject,
                  message: Message, closed: CloseLog)
    requires var vs := AllValidated(Moves(values), AllObtained(before, Moves(values)), channel);
             AllOk(vs) && |message.handles| == |values| && forall i :: 0 <= i < |values| ==> vs[i] == Ok(message.handles[i])
    ensures PlainOutcome(before, values, Ok((target, message)), closed, closed)
  {
    hide AllValidated, AllObtained, AllOk;
    forall i | 0 <= i < |values|
      ensures values[i] in before && message.handles[i] == before[values[i]]
      ensures forall j :: 0 <= j < i ==> values[j] != values[i]
    {
      PlainValuesSentUnchanged(before, values, channel, i);
      SentHandles(before, Moves(values), channel, i);
      forall j | 0 <= j < i
        ensures values[j] != values[i]
      {
        assert Moves(values)[j] == MoveOf(values[j]);
      }
    }
  }

  lemma PlainDropped(before: HandleTable, values: seq<HandleValue>, e: ZxError, closed: CloseLog)
    ensures PlainOutcome(before, values, Err(e), closed, closed + Owned(Moves(values), AllObtained(before, Moves(values))))
  {
    hide Owned, AllObtained, Named;
    var owned := Owned(Moves(values), AllObtained(before, Moves(values)));
    assert (closed + owned)[|closed|..] == owned;
    OwnedExactly(before, Moves(values));
    forall v: HandleValue
      ensures v in Named(Moves(values)) <==> v in values
    {
      MovesNamed(values, v);
    }
  }

  // ----- the verdict on a whole request

  function WantedRights(isCall: bool): bv32 {
    if isCall then READ | WRITE else WRITE
  }

  /** Why a request whose dispositions have been read is refused before its handles are
      checked; the order of the tests decides which error is seen. */
  function EarlyError(table: HandleTable, channel: HandleValue, options: bv32, user: UserBytes, numBytes: nat, isCall: bool)
    : (r: Option<ZxError>)
  {
    if options & !USE_IOVEC != 0 then Some(INVALID_ARGS) else
      match GetChannel(table, channel, WantedRights(isCall))
      case Err(e) => Some(e)
      case Ok(_) =>
        match ReadData(options, user, numBytes)
        case Err(e) => Some(e)
        case Ok(data) => if isCall && |data| < 4 then Some(INVALID_ARGS) else None
  }

  /** A request passes the early tests exactly when its options are known, the channel is one
      and grants a write (and a read for a call), the bytes can be gathered, and a call has
      room for its transaction number.  Options are judged before the channel, the channel
      before the bytes. */
  lemma EarlyErrorExact(table: HandleTable, channel: HandleValue, options: bv32, user: UserBytes, numBytes: nat, isCall: bool)
    ensures var data := ReadData(options, user, numBytes);
            EarlyError(table, channel, options, user, numBytes, isCall).None? <==>
              && (options == 0 || options == 2)
              && channel in table && table[channel].target.kind == CHANNEL_KIND
              && HasBit(table[channel].rights, 8) && (isCall ==> HasBit(table[channel].rights, 4))
              && data.Ok? && (isCall ==> |data.value| >= 4)
    ensures options != 0 && options != 2 ==>
              EarlyError(table, channel, options, user, numBytes, isCall) == Some(INVALID_ARGS)
    ensures (options == 0 || options == 2) && GetChannel(table, channel, WantedRights(isCall)).Err? ==>
              EarlyError(table, channel, options, user, numBytes, isCall)
              == Some(GetChannel(table, channel, WantedRights(isCall)).error)
    ensures (options == 0 || options == 2) && GetChannel(table, channel, WantedRights(isCall)).Ok?
            && isCall && ReadData(options, user, numBytes).Ok? && |ReadData(options, user, numBytes).value| < 4 ==>
              EarlyError(table, channel, options, user, numBytes, isCall) == Some(INVALID_ARGS)
    ensures (options == 0 || options == 2) && GetChannel(table, channel, WantedRights(isCall)).Ok?
            && ReadData(options, user, numBytes).Err? ==>
              EarlyError(table, channel, options, user, numBytes, isCall) == Some(ReadData(options, user, numBytes).error)
  {
    hide HasBit, Contains, GetChannel, ReadData;
    OptionBits(options);
    ChannelResolved(table, channel, isCall);
  }

  lemma OptionBits(options: bv32)
    ensures options & !USE_IOVEC == 0 <==> options == 0 || options == 2
  {
    assert options == (options & !2) | (options & 2);
    assert options & 2 == 0 || options & 2 == 2;
  }

  /** The error reported when some entries fail.  A failure to write the dispositions back
      replaces it. */
  function LateError(b: HandleBuffer, n: nat, first: ZxError): (e: ZxError) {
    match b
    case Values(_) => first
    case Dispositions(_, writeBack) => match writeBack(n) case Ok(_) => first case Err(e) => e
  }

  /** Nothing has to be written back, or doing so does not fail with an error of its own. */
  predicate KeepsError(b: HandleBuffer, n: nat, first: ZxError) {
    b.Values? || b.writeBack(n).Ok? || b.writeBack(n).error == first
  }

  /** In a successful send every handle taken out of the process is in the message, at the
      one position that names it. */
  lemma MovedHandlesAreSentOnce(table: HandleTable, ds: seq<Disposition>, channel: HandleValue, v: HandleValue)
    requires AllOk(AllValidated(ds, AllObtained(table, ds), channel))
    requires v in Named(ds)
    ensures v in table
    ensures exists i :: 0 <= i < |ds| && ds[i].op == OP_MOVE && ds[i].handle == v
                        && AllValidated(ds, AllObtained(table, ds), channel)[i].value.target == table[v].target
                        && forall j :: 0 <= j < |ds| && j != i && ds[j].op != OP_DUP ==> ds[j].handle != v
  {
    var i :| 0 <= i < |ds| && ds[i].op != OP_DUP && ds[i].handle == v;
    SentHandles(table, ds, channel, i);
    forall j | 0 <= j < |ds| && j != i && ds[j].op != OP_DUP
      ensures ds[j].handle != v
    {
      SentHandles(table, ds, channel, j);
    }
  }

  class Process {
    var handles: HandleTable
    var closed: seq<(HandleValue, Handle)>   // every handle dropped so far; the order is not a claim

    constructor (table: HandleTable)
      ensures handles == table && closed == []
    {
      handles := table;
      closed := [];
    }

    method RemoveHandle(v: HandleValue) returns (r: ZxResult<Handle>)
      modifies this`handles
      ensures r == Lookup(old(handles), v)
      ensures handles == old(handles) - {v}
    {
      r := Lookup(handles, v);
      handles := handles - {v};
    }

    /** Dropping a batch closes what it owns. */
    method Close(ds: seq<Disposition>, rs: seq<ZxResult<Handle>>)
      requires |ds| == |rs|
      modifies this`closed
      ensures closed == old(closed) + Owned(ds, rs)
    {
      for i := 0 to |ds|
        invariant closed == old(closed) + Owned(ds[..i], rs[..i])
      {
        hide Owned;
        OwnedStep(ds, rs, i);
        if ds[i].op != OP_DUP && rs[i].Ok? {
          closed := closed + [(ds[i].handle, rs[i].value)];
        }
      }
      assert ds[..|ds|] == ds && rs[..|rs|] == rs;
    }

    /** Remove and drop the handles of one chunk.  `table` and `before` are the state before
        the request, `seen` the entries already handled. */
    method DropChunk(chunk: seq<Disposition>, ghost table: HandleTable, ghost before: seq<(HandleValue, Handle)>,
                     ghost seen: seq<Disposition>)
      requires handles == table - Named(seen)
      requires closed == before + Owned(seen, AllObtained(table, seen))
      modifies this
      ensures handles == table - Named(seen + chunk)
      ensures closed == before + Owned(seen + chunk, AllObtained(table, seen + chunk))
    {
      hide Owned, Named;
      assert seen + chunk[..0] == seen;
      for i := 0 to |chunk|
        invariant handles == table - Named(seen + chunk[..i])
        invariant closed == before + Owned(seen + chunk[..i], AllObtained(table, seen + chunk[..i]))
      {
        assert seen + chunk[..i + 1] == seen + chunk[..i] + [chunk[i]];
        NamedSnoc(seen + chunk[..i], chunk[i]);
        OwnedSnoc(table, seen + chunk[..i], chunk[i]);
        if chunk[i].op != OP_DUP {
          var h := RemoveHandle(chunk[i].handle);
          if h.Ok? {
            closed := closed + [(chunk[i].handle, h.value)];
          }
        }
      }
      assert chunk[..|chunk|] == chunk;
    }

    /** Take the handles of an oversized request and drop them, chunk by chunk. */
    method TakeOversized(b: HandleBuffer, count: nat)
      modifies this
      ensures handles == old(handles) - Named(Readable(b, 0, count))
      ensures closed == old(closed)
                        + Owned(Readable(b, 0, count), AllObtained(old(handles), Readable(b, 0, count)))
    {
      hide Owned, Named, Readable, ReadChunk, AllObtained;
      var offset := 0;
      ghost var seen: seq<Disposition> := [];
      NothingTaken(handles);
      assert Readable(b, 0, count) == [] + Readable(b, 0, count);
      while offset < count
        invariant Readable(b, 0, count) == seen + Readable(b, offset, count)
        invariant handles == old(handles) - Named(seen)
        invariant closed == old(closed) + Owned(seen, AllObtained(old(handles), seen))
        decreases if offset < count then count - offset else 0
      {
        ReadableStep(b, offset, count);
        var len := Min(count - offset, MAX_MESSAGE_HANDLES);
        var chunk;
        match ReadChunk(b, offset, len) {
          case Err(_) => break;
          case Ok(read) => chunk := read;
        }
        DropChunk(chunk, old(handles), old(closed), seen);
        assert seen + (chunk + Readable(b, offset + MAX_MESSAGE_HANDLES, count))
            == (seen + chunk) + Readable(b, offset + MAX_MESSAGE_HANDLES, count);
        seen := seen + chunk;
        offset := offset + MAX_MESSAGE_HANDLES;
      }
      ReadableStep(b, offset, count);
      assert seen + [] == seen;
    }

    /** Take ownership of the named handles before anything is validated. */
    method Take(b: HandleBuffer, count: nat)
      returns (r: ZxResult<(seq<Disposition>, seq<ZxResult<Handle>>)>)
      modifies this
      ensures count > MAX_MESSAGE_HANDLES ==>
                && r == Err(OUT_OF_RANGE)
                && handles == old(handles) - Named(Readable(b, 0, count))
                && closed == old(closed)
                             + Owned(Readable(b, 0, count), AllObtained(old(handles), Readable(b, 0, count)))
      ensures count <= MAX_MESSAGE_HANDLES ==>
                && closed == old(closed)
                && match ReadChunk(b, 0, count)
                   case Err(e) => r == Err(e) && handles == old(handles)
                   case Ok(ds) => r == Ok((ds, AllObtained(old(handles), ds))) && handles == old(handles) - Named(ds)
    {
      if count > MAX_MESSAGE_HANDLES {
        TakeOversized(b, count);
        return Err(OUT_OF_RANGE);
      }
      var ds;
      match ReadChunk(b, 0, count) {
        case Err(e) => return Err(e);
        case Ok(read) => ds := read;
      }
      var rs: seq<ZxResult<Handle>> := [];
      for i := 0 to |ds|
        invariant handles == old(handles) - Named(ds[..i])
        invariant rs == AllObtained(old(handles), ds)[..i]
        invariant closed == old(closed)
      {
        assert ds[..i + 1] == ds[..i] + [ds[i]];
        NamedSnoc(ds[..i], ds[i]);
        var h;
        if ds[i].op == OP_DUP {
          h := Lookup(handles, ds[i].handle);
        } else {
          h := RemoveHandle(ds[i].handle);
        }
        assert h == Obtained(old(handles), ds, i);
        rs := rs + [h];
      }
      assert ds[..|ds|] == ds;
      assert rs == AllObtained(old(handles), ds);
      r := Ok((ds, rs));
    }

    /** Validate every entry, then either hand the handles over or close them all. */
    method Finish(b: HandleBuffer, ds: seq<Disposition>, rs: seq<ZxResult<Handle>>, channel: HandleValue)
      returns (r: ZxResult<seq<Handle>>, back: Option<seq<Disposition>>)
      requires |ds| == |rs|
      modifies this`closed
      ensures r.Ok? <==> AllOk(AllValidated(ds, rs, channel))
      ensures r.Ok? ==>
                && closed == old(closed) && back == None
                && |r.value| == |ds|
                && forall i :: 0 <= i < |ds| ==> AllValidated(ds, rs, channel)[i] == Ok(r.value[i])
      ensures r.Err? ==>
                && closed == old(closed) + Owned(ds, rs)
                && FirstError(AllValidated(ds, rs, channel)).Some?
                && r.error == LateError(b, |ds|, FirstError(AllValidated(ds, rs, channel)).value)
                && (r.error == FirstError(AllValidated(ds, rs, channel)).value
                    <==> KeepsError(b, |ds|, FirstError(AllValidated(ds, rs, channel)).value))
                && back == if b.Dispositions? && b.writeBack(|ds|).Ok?
                           then Some(Recorded(ds, AllValidated(ds, rs, channel))) else None
    {
      ghost var vs := AllValidated(ds, rs, channel);
      var entries := ds;
      var firstError: Option<ZxError> := None;
      var sent: seq<Handle> := [];
      for i := 0 to |ds|
        invariant |entries| == |ds|
        invariant forall j :: 0 <= j < i ==> entries[j] == Recorded(ds, vs)[j]
        invariant forall j :: i <= j < |ds| ==> entries[j] == ds[j]
        invariant firstError == FirstError(vs[..i])
        invariant firstError.None? ==> |sent| == i && forall j :: 0 <= j < i ==> vs[j] == Ok(sent[j])
      {
        assert vs[..i + 1][..i] == vs[..i];
        match Validated(entries[i], rs[i], channel) {
          case Ok(h) => sent := sent + [h];
          case Err(e) =>
            entries := entries[i := entries[i].(result := Code(e))];
            firstError := if firstError.None? then Some(e) else firstError;
        }
      }
      assert vs[..|ds|] == vs;
      FirstErrorIsLowest(vs);
      if firstError.None? {
        return Ok(sent), None;
      }
      Close(ds, rs);
      assert entries == Recorded(ds, vs);
      match b {
        case Values(_) => return Err(firstError.value), None;
        case Dispositions(_, writeBack) =>
          match writeBack(|entries|) {
            case Err(e) => return Err(e), None;
            case Ok(_) => return Err(firstError.value), Some(entries);
          }
      }
    }

    /** The whole send, up to the message that is handed to the channel. */
    method PrepareMessage(channel: HandleValue, options: bv32, user: UserBytes, numBytes: nat,
                          b: HandleBuffer, numHandles: nat, isCall: bool)
      returns (r: ZxResult<(KernelObject, Message)>, back: Option<seq<Disposition>>)
      modifies this
      ensures LeftBy(b, numHandles, old(handles), handles)
      ensures old(closed) <= closed
      ensures b.Values? && numHandles <= 64 && b.values(0, numHandles).Ok? ==>
                PlainOutcome(old(handles), b.values(0, numHandles).value, r, old(closed), closed)
      ensures numHandles > MAX_MESSAGE_HANDLES ==>
                && r == Err(OUT_OF_RANGE) && back == None
                && handles == old(handles) - Named(Readable(b, 0, numHandles))
                && closed == old(closed)
                             + Owned(Readable(b, 0, numHandles), AllObtained(old(handles), Readable(b, 0, numHandles)))
      ensures numHandles <= MAX_MESSAGE_HANDLES && ReadChunk(b, 0, numHandles).Err? ==>
                && r == Err(ReadChunk(b, 0, numHandles).error) && back == None
                && handles == old(handles) && closed == old(closed)
      ensures numHandles <= MAX_MESSAGE_HANDLES && ReadChunk(b, 0, numHandles).Ok? ==>
                var ds := ReadChunk(b, 0, numHandles).value;
                var vs := AllValidated(ds, AllObtained(old(handles), ds), channel);
                var early := EarlyError(old(handles), channel, options, user, numBytes, isCall);
                && handles == old(handles) - Named(ds)
                && (r.Ok? <==> early.None? && AllOk(vs))
                && back == (if r.Err? && early.None? && b.Dispositions? && b.writeBack(|ds|).Ok?
                            then Some(Recorded(ds, vs)) else None)
                && (r.Err? ==>
                      && closed == old(closed) + Owned(ds, AllObtained(old(handles), ds))
                      && (early.Some? ==> r.error == early.value)
                      && (early.None? ==>
                            && FirstError(vs).Some?
                            && r.error == LateError(b, |ds|, FirstError(vs).value)
                            && (r.error == FirstError(vs).value <==> KeepsError(b, |ds|, FirstError(vs).value))))
                && (r.Ok? ==>
                      && closed == old(closed)
                      && GetChannel(old(handles), channel, WantedRights(isCall)) == Ok(r.value.0)
                      && ReadData(options, user, numBytes) == Ok(r.value.1.data)
                      && |r.value.1.handles| == |ds|
                      && forall i :: 0 <= i < |ds| ==> vs[i] == Ok(r.value.1.handles[i]))
    {
      hide LeftBy, PlainOutcome, Owned, Named, Readable, ReadChunk, Moves;
      back := None;
      var target := GetChannel(handles, channel, WantedRights(isCall));
      var ds, rs;
      var taken := Take(b, numHandles);
      TakesExactly(b, numHandles, old(handles), handles);
      PlainChunk(b, numHandles);
      match taken {
        case Err(e) => return Err(e), None;
        case Ok((entries, results)) => ds, rs := entries, results;
      }
      forall e: ZxError | b.Values? && b.values(0, numHandles).Ok?
        ensures PlainOutcome(old(handles), b.values(0, numHandles).value, Err(e), old(closed), old(closed) + Owned(ds, rs))
      {
        PlainDropped(old(handles), b.values(0, numHandles).value, e, old(closed));
      }
      if options & !USE_IOVEC != 0 {
        Close(ds, rs);
        return Err(INVALID_ARGS), None;
      }
      if target.Err? {
        Close(ds, rs);
        return Err(target.error), None;
      }
      var data := ReadBytes(options, user, numBytes);
      if data.Err? {
        Close(ds, rs);
        return Err(data.error), None;
      }
      if isCall && |data.value| < 4 {
        Close(ds, rs);
        return Err(INVALID_ARGS), None;
      }
      var sent;
      sent, back := Finish(b, ds, rs, channel);
      match sent {
        case Err(e) => return Err(e), back;
        case Ok(hs) =>
          if b.Values? && b.values(0, numHandles).Ok? {
            PlainSent(old(handles), b.values(0, numHandles).value, channel, target.value, Message(data.value, hs), closed);
          }
          return Ok((target.value, Message(data.value, hs))), back;
      }
    }
  }

  method ReadBytes(options: bv32, user: UserBytes, count: nat) returns (r: ZxResult<seq<Byte>>)
    ensures r == ReadData(options, user, count)
  {
    if options & USE_IOVEC != 0 {
      r := ReadIovecs(user, count);
      assert USE_IOVEC & USE_IOVEC != 0;
    } else if count > MAX_MESSAGE_BYTES {
      r := Err(OUT_OF_RANGE);
    } else {
      r := user.plain(count);
    }
  }

  const NO_SUCH_HANDLE: HandleValue := 7
  const CHANNEL: HandleValue := 1

  /** A request that names a handle the process does not have, with dispositions that cannot
      be written back: the sender is told about the write-back, not about the handle. */
  method LateErrorCanDiffer()
    returns (r: ZxResult<(KernelObject, Message)>, table: HandleTable, ds: seq<Disposition>)
    ensures ds == [MoveOf(NO_SUCH_HANDLE)] && CHANNEL in table && NO_SUCH_HANDLE !in table
    ensures FirstError(AllValidated(ds, AllObtained(table, ds), CHANNEL)) == Some(BAD_HANDLE)
    ensures r == Err(INVALID_ARGS)
  {
    table := map[CHANNEL := Handle(KernelObject(0, CHANNEL_KIND), WRITE)];
    ds := [MoveOf(NO_SUCH_HANDLE)];
    var entries := ds;
    var b := Dispositions((_, _) => Ok(entries), _ => Err(INVALID_ARGS));
    var user := UserBytes(_ => Ok([]), _ => Ok([]));
    var process := new Process(table);
    ghost var vs := AllValidated(ds, AllObtained(table, ds), CHANNEL);
    assert vs[0] == Err(BAD_HANDLE);
    assert vs[..0] == [] && FirstError(vs) == Some(BAD_HANDLE);
    var back;
    r, back := process.PrepareMessage(CHANNEL, 0, user, 0, b, 1, false);
  }
}
