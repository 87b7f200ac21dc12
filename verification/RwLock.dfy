/** The reader/writer/upgradable lock as a step system over its one lock word.

    Each atomic access to the word is one step.  The word is an integer on which the source
    does `fetch_add`, `fetch_sub`, `fetch_or`, `fetch_and` and compare-exchange: bit 0 is
    WRITER, bit 1 is UPGRADED, and READER counts in units of four.  Any number of
    acquisitions may be in progress. */
module RwLock {

  type Id = nat

  const READER := 4
  const UPGRADED := 2
  const WRITER := 1

  datatype Phase =
    | ReadGuard
    | ReadUndo                // `try_read` saw WRITER or UPGRADED and will subtract READER again
    | UpgradableGuard
    | UpgradableDowngrading   // READER added, UPGRADED not yet removed
    | WriteGuard
    | WriteDowngrading        // READER added, WRITER not yet cleared

  /** `sticky` is history only: a failed `try_upgradeable_read` has set UPGRADED under the
      current writer.  No step reads it. */
  datatype State = State(word: int, data: int, holders: map<Id, Phase>, sticky: bool)

  datatype Step =
    | TryRead(id: Id)
    | UndoRead(id: Id)
    | DropRead(id: Id)
    | TryWrite(id: Id)
    | DropWrite(id: Id)
    | TryUpgradable(id: Id)
    | DropUpgradable(id: Id)
    | TryUpgrade(id: Id)
    | DowngradeUpgradable(id: Id)
    | FinishDowngradeUpgradable(id: Id)
    | DowngradeWrite(id: Id)
    | FinishDowngradeWrite(id: Id)
    | Store(id: Id, value: int)   // through the `&mut` of a write guard
    | Spurious(id: Id)            // a weak compare-exchange fails although it could succeed

  predicate In(s: State, id: Id, phase: Phase) {
    id in s.holders && s.holders[id] == phase
  }

  predicate Enabled(s: State, step: Step) {
    match step
    case TryRead(id) => id !in s.holders
    case TryWrite(id) => id !in s.holders
    case TryUpgradable(id) => id !in s.holders
    case UndoRead(id) => In(s, id, ReadUndo)
    case DropRead(id) => In(s, id, ReadGuard)
    case DropWrite(id) => In(s, id, WriteGuard)
    case DropUpgradable(id) => In(s, id, UpgradableGuard)
    case TryUpgrade(id) => In(s, id, UpgradableGuard)
    case DowngradeUpgradable(id) => In(s, id, UpgradableGuard)
    case FinishDowngradeUpgradable(id) => In(s, id, UpgradableDowngrading)
    case DowngradeWrite(id) => In(s, id, WriteGuard)
    case FinishDowngradeWrite(id) => In(s, id, WriteDowngrading)
    case Store(id, _) => In(s, id, WriteGuard)
    case Spurious(_) => true
  }

  function Bits(word: int): int {
    word % READER
  }

  function WriterBit(word: int): int {
    word % 2
  }

  predicate UpgradedBit(word: int) {
    word / UPGRADED % 2 == 1
  }

  function OrUpgraded(word: int): int {
    if UpgradedBit(word) then word else word + UPGRADED
  }

  function Set(s: State, id: Id, phase: Phase, word: int): State {
    s.(word := word, holders := s.holders[id := phase])
  }

  function Remove(s: State, id: Id, word: int): State {
    s.(word := word, holders := s.holders - {id})
  }

  function Apply(s: State, step: Step): (s': State)
    requires Enabled(s, step)
  {
    var w := s.word;
    match step
    case TryRead(id) => Set(s, id, if Bits(w) != 0 then ReadUndo else ReadGuard, w + READER)
    case UndoRead(id) => Remove(s, id, w - READER)
    case DropRead(id) => Remove(s, id, w - READER)
    case TryWrite(id) => if w == 0 then Set(s, id, WriteGuard, WRITER) else s
    case DropWrite(id) => Remove(s, id, w - Bits(w)).(sticky := false)
    case TryUpgradable(id) =>
      if Bits(w) == 0 then Set(s, id, UpgradableGuard, OrUpgraded(w))
      else s.(word := OrUpgraded(w), sticky := s.sticky || WriterBit(w) == WRITER)
    case DropUpgradable(id) => Remove(s, id, w - UPGRADED)
    case TryUpgrade(id) => if w == UPGRADED then Set(s, id, WriteGuard, WRITER) else s
    case DowngradeUpgradable(id) => Set(s, id, UpgradableDowngrading, w + READER)
    case FinishDowngradeUpgradable(id) => Set(s, id, ReadGuard, w - UPGRADED)
    case DowngradeWrite(id) => Set(s, id, WriteDowngrading, w + READER)
    case FinishDowngradeWrite(id) => Set(s, id, ReadGuard, w - Bits(w)).(sticky := false)
    case Store(id, value) => s.(data := value)
    case Spurious(_) => s
  }

  function Initial(data: int): State {
    State(0, data, map[], false)
  }

  ghost predicate IsRun(s: State, steps: seq<Step>)
    decreases |steps|
  {
    steps == [] || (Enabled(s, steps[0]) && IsRun(Apply(s, steps[0]), steps[1..]))
  }

  ghost function After(s: State, steps: seq<Step>): (s': State)
    requires IsRun(s, steps)
    decreases |steps|
  {
    if steps == [] then s else After(Apply(s, steps[0]), steps[1..])
  }

  // ----- counting acquisitions

  datatype Class = Reader | Upgradable | Writer | Reading | Transient

  predicate Belongs(phase: Phase, c: Class) {
    match c
    case Reader => phase.ReadGuard? || phase.ReadUndo? || phase.UpgradableDowngrading? || phase.WriteDowngrading?
    case Upgradable => phase.UpgradableGuard? || phase.UpgradableDowngrading?
    case Writer => phase.WriteGuard? || phase.WriteDowngrading?
    case Reading => phase.ReadGuard?
    case Transient => phase.ReadUndo? || phase.UpgradableDowngrading? || phase.WriteDowngrading?
  }

  function Members(h: map<Id, Phase>, c: Class): set<Id> {
    set id | id in h && Belongs(h[id], c)
  }

  function Count(h: map<Id, Phase>, c: Class): nat {
    |Members(h, c)|
  }

  function One(b: bool): nat {
    if b then 1 else 0
  }

  /** Moving one acquisition to another phase. */
  lemma CountSet(h: map<Id, Phase>, id: Id, phase: Phase, c: Class)
    ensures Count(h[id := phase], c)
         == Count(h, c) - One(id in h && Belongs(h[id], c)) + One(Belongs(phase, c))
  {
    hide Belongs;
    var h' := h[id := phase];
    CountRemove(h, id, c);
    CountRemove(h', id, c);
    assert h' - {id} == h - {id};
  }

  lemma CountRemove(h: map<Id, Phase>, id: Id, c: Class)
    ensures Count(h - {id}, c) == Count(h, c) - One(id in h && Belongs(h[id], c))
  {
    hide Belongs;
    assert Members(h - {id}, c) == Members(h, c) - {id};
  }

  lemma MemberCounts(h: map<Id, Phase>, id: Id, c: Class)
    requires id in h && Belongs(h[id], c)
    ensures Count(h, c) >= 1
    ensures Count(h, c) == 1 ==> Members(h, c) == {id}
  {
    assert id in Members(h, c);
    if Count(h, c) == 1 {
      assert |Members(h, c) - {id}| == 0;
    }
  }

  /** Read guards and the acquisitions passing through a read count make up the readers. */
  lemma ReadersSplit(h: map<Id, Phase>)
    ensures Count(h, Reader) == Count(h, Reading) + Count(h, Transient)
  {
    assert Members(h, Reader) == Members(h, Reading) + Members(h, Transient);
    assert Members(h, Reading) !! Members(h, Transient);
  }

  // ----- the invariant

  /** The word is determined by who is in which phase. */
  predicate WordCounts(s: State) {
    s.word == READER * Count(s.holders, Reader)
              + UPGRADED * One(Count(s.holders, Upgradable) == 1 || s.sticky)
              + WRITER * Count(s.holders, Writer)
  }

  predicate Inv(s: State) {
    && WordCounts(s)
    && Count(s.holders, Writer) + Count(s.holders, Upgradable) <= 1
    && (s.sticky ==> Count(s.holders, Writer) == 1)
    && (Count(s.holders, Writer) == 1 ==> Count(s.holders, Reading) == 0)
  }

  /** The parts of a word that is put together from a count and two bits. */
  lemma WordParts(readers: nat, upgraded: bool, writer: bool)
    ensures var word := READER * readers + UPGRADED * One(upgraded) + WRITER * One(writer);
            && Bits(word) == UPGRADED * One(upgraded) + WRITER * One(writer)
            && WriterBit(word) == One(writer)
            && (UpgradedBit(word) <==> upgraded)
            && word / READER == readers
  {
  }

  lemma InvParts(s: State)
    requires Inv(s)
    ensures var upgraded := Count(s.holders, Upgradable) == 1 || s.sticky;
            && Bits(s.word) == UPGRADED * One(upgraded) + WRITER * Count(s.holders, Writer)
            && WriterBit(s.word) == Count(s.holders, Writer)
            && (UpgradedBit(s.word) <==> upgraded)
            && s.word / READER == Count(s.holders, Reader)
  {
    hide Count, Bits, WriterBit, UpgradedBit;
    WordParts(Count(s.holders, Reader), Count(s.holders, Upgradable) == 1 || s.sticky, Count(s.holders, Writer) == 1);
  }

  lemma CountsAfter(s: State, step: Step, c: Class)
    requires Enabled(s, step)
    ensures var h, h', id := s.holders, Apply(s, step).holders, step.id;
            && Count(h', c) == Count(h, c) - One(id in h && Belongs(h[id], c)) + One(id in h' && Belongs(h'[id], c))
            && (id in h && Belongs(h[id], c) ==> Count(h, c) >= 1)
  {
    hide Count, Belongs;
    var h, h', id := s.holders, Apply(s, step).holders, step.id;
    if id in h' {
      assert h' == h[id := h'[id]];
      CountSet(h, id, h'[id], c);
    } else {
      assert h' == h - {id};
      CountRemove(h, id, c);
    }
    if id in h && Belongs(h[id], c) {
      MemberCounts(h, id, c);
    }
  }

  /** Every atomic step keeps the word and the phases in agreement. */
  lemma StepKeepsInv(s: State, step: Step)
    requires Inv(s) && Enabled(s, step)
    ensures Inv(Apply(s, step))
  {
    hide Count, Bits, WriterBit, UpgradedBit;
    InvParts(s);
    CountsAfter(s, step, Reader);
    CountsAfter(s, step, Upgradable);
    CountsAfter(s, step, Writer);
    CountsAfter(s, step, Reading);
    ReadersSplit(s.holders);
    match step {
      case TryRead(_) =>
      case UndoRead(_) =>
      case DropRead(_) =>
      case TryWrite(_) =>
      case DropWrite(_) =>
      case TryUpgradable(_) =>
      case DropUpgradable(_) =>
      case TryUpgrade(_) =>
      case DowngradeUpgradable(_) =>
      case FinishDowngradeUpgradable(_) =>
      case DowngradeWrite(_) =>
      case FinishDowngradeWrite(_) =>
      case Store(_, _) =>
      case Spurious(_) =>
    }
  }

  lemma {:induction false} RunKeepsInv(s: State, steps: seq<Step>)
    requires Inv(s) && IsRun(s, steps)
    ensures Inv(After(s, steps))
    decreases |steps|
  {
    if steps != [] {
      StepKeepsInv(s, steps[0]);
      RunKeepsInv(Apply(s, steps[0]), steps[1..]);
    }
  }

  lemma EveryRunKeepsInv(data: int, steps: seq<Step>)
    requires IsRun(Initial(data), steps)
    ensures Inv(After(Initial(data), steps))
  {
    assert forall c :: Members(Initial(data).holders, c) == {};
    RunKeepsInv(Initial(data), steps);
  }

  // ----- what the lock promises, in every run

  /** A write guard is alone: whatever else is in progress is a reader about to back out. */
  lemma WriterIsAlone(data: int, steps: seq<Step>, i: Id, j: Id)
    requires IsRun(Initial(data), steps)
    requires In(After(Initial(data), steps), i, WriteGuard)
    requires j in After(Initial(data), steps).holders && j != i
    ensures In(After(Initial(data), steps), j, ReadUndo)
  {
    hide Count;
    EveryRunKeepsInv(data, steps);
    var h := After(Initial(data), steps).holders;
    MemberCounts(h, i, Writer);
    NotAMember(h, j, Writer);
    NotAMember(h, j, Upgradable);
    NotAMember(h, j, Reading);
  }

  /** An acquisition outside a full class is not in it. */
  lemma NotAMember(h: map<Id, Phase>, id: Id, c: Class)
    requires id in h
    ensures Count(h, c) == 0 ==> !Belongs(h[id], c)
    ensures forall other :: Members(h, c) == {other} && other != id ==> !Belongs(h[id], c)
  {
    if Belongs(h[id], c) {
      assert id in Members(h, c);
    }
  }

  /** At most one upgradable guard exists. */
  lemma OneUpgradable(data: int, steps: seq<Step>, i: Id, j: Id)
    requires IsRun(Initial(data), steps)
    requires In(After(Initial(data), steps), i, UpgradableGuard) && In(After(Initial(data), steps), j, UpgradableGuard)
    ensures i == j
  {
    hide Count;
    EveryRunKeepsInv(data, steps);
    var h := After(Initial(data), steps).holders;
    MemberCounts(h, i, Upgradable);
    NotAMember(h, j, Upgradable);
  }

  /** The lock word at every point of every run; UPGRADED is never left behind. */
  lemma LockWord(data: int, steps: seq<Step>)
    requires IsRun(Initial(data), steps)
    ensures var s := After(Initial(data), steps);
            && WordCounts(s) && s.word >= 0
            && (UpgradedBit(s.word) ==> Count(s.holders, Upgradable) + Count(s.holders, Writer) == 1)
            && (s.holders == map[] ==> s.word == 0)
  {
    hide UpgradedBit, Count;
    EveryRunKeepsInv(data, steps);
    var s := After(Initial(data), steps);
    InvParts(s);
    if s.holders == map[] {
      forall c ensures Count(s.holders, c) == 0 { NobodyCounts(s.holders, c); }
    }
  }

  lemma NobodyCounts(h: map<Id, Phase>, c: Class)
    ensures h == map[] ==> Count(h, c) == 0
  {
    if h == map[] {
      assert Members(h, c) == {};
    }
  }

  lemma DropAssertion(s: State, id: Id)
    requires Inv(s) && id in s.holders
    ensures In(s, id, ReadGuard) ==> s.word - Bits(s.word) > 0
    ensures In(s, id, UpgradableGuard) || In(s, id, UpgradableDowngrading) ==> Bits(s.word) == UPGRADED
    ensures In(s, id, WriteGuard) || In(s, id, WriteDowngrading) ==> WriterBit(s.word) == WRITER
  {
    hide Count, Bits, WriterBit, UpgradedBit;
    InvParts(s);
    var h := s.holders;
    match h[id] {
      case ReadGuard => MemberCounts(h, id, Reader);
      case ReadUndo =>
      case UpgradableGuard => MemberCounts(h, id, Upgradable);
      case UpgradableDowngrading => MemberCounts(h, id, Upgradable);
      case WriteGuard => MemberCounts(h, id, Writer);
      case WriteDowngrading => MemberCounts(h, id, Writer);
    }
  }

  /** The assertions made when a guard is dropped never fail. */
  lemma DropAssertionsHold(data: int, steps: seq<Step>, id: Id)
    requires IsRun(Initial(data), steps)
    ensures var s := After(Initial(data), steps);
            && (In(s, id, ReadGuard) ==> s.word - Bits(s.word) > 0)
            && (In(s, id, UpgradableGuard) || In(s, id, UpgradableDowngrading) ==> Bits(s.word) == UPGRADED)
            && (In(s, id, WriteGuard) || In(s, id, WriteDowngrading) ==> WriterBit(s.word) == WRITER)
  {
    hide Inv, Bits, Initial, After;
    EveryRunKeepsInv(data, steps);
    if id in After(Initial(data), steps).holders {
      DropAssertion(After(Initial(data), steps), id);
    }
  }

  // ----- when an attempt is granted

  /** Whoever is in progress is counted by one of three classes. */
  lemma NobodyInProgress(h: map<Id, Phase>)
    ensures h == map[] <==> Count(h, Reader) == 0 && Count(h, Upgradable) == 0 && Count(h, Writer) == 0
  {
    hide Count;
    NobodyCounts(h, Reader);
    NobodyCounts(h, Upgradable);
    NobodyCounts(h, Writer);
    if h != map[] {
      var id :| id in h;
      NotAMember(h, id, Reader);
      NotAMember(h, id, Upgradable);
      NotAMember(h, id, Writer);
    }
  }

  /** A read attempt is granted exactly when there is no writer and no upgradable guard, and is
      about to back out otherwise. */
  lemma ReadGranted(s: State, id: Id)
    requires Inv(s) && Enabled(s, TryRead(id))
    ensures var s' := Apply(s, TryRead(id));
            && (In(s', id, ReadGuard) <==> Count(s.holders, Writer) == 0 && Count(s.holders, Upgradable) == 0)
            && (!In(s', id, ReadGuard) ==> In(s', id, ReadUndo))
  {
    hide Count, Bits, WriterBit, UpgradedBit;
    InvParts(s);
  }

  /** A write attempt is granted exactly when nothing at all is in progress. */
  lemma WriteGranted(s: State, id: Id)
    requires Inv(s) && Enabled(s, TryWrite(id))
    ensures var s' := Apply(s, TryWrite(id));
            && (In(s', id, WriteGuard) <==> s.holders == map[])
            && (!In(s', id, WriteGuard) ==> s' == s)
  {
    hide Count, Bits, WriterBit, UpgradedBit;
    NobodyInProgress(s.holders);
  }

  /** An upgradable attempt is granted exactly when there is no writer and no upgradable guard;
      readers do not stand in its way. */
  lemma UpgradableGranted(s: State, id: Id)
    requires Inv(s) && Enabled(s, TryUpgradable(id))
    ensures var s' := Apply(s, TryUpgradable(id));
            && (In(s', id, UpgradableGuard) <==> Count(s.holders, Writer) == 0 && Count(s.holders, Upgradable) == 0)
            && (!In(s', id, UpgradableGuard) ==> s'.holders == s.holders && s'.data == s.data)
  {
    hide Count, Bits, WriterBit, UpgradedBit;
    InvParts(s);
  }

  /** An upgrade is granted exactly when no reader is counted. */
  lemma UpgradeGranted(s: State, id: Id)
    requires Inv(s) && Enabled(s, TryUpgrade(id))
    ensures var s' := Apply(s, TryUpgrade(id));
            && (In(s', id, WriteGuard) <==> Count(s.holders, Reader) == 0)
            && (!In(s', id, WriteGuard) ==> s' == s)
  {
    hide Count, Bits, WriterBit, UpgradedBit;
    MemberCounts(s.holders, id, Upgradable);
  }

  // ----- what one step undoes

  /** Whether it was granted or not, a read attempt that ends leaves the lock as it was. */
  lemma ReadRoundTrip(s: State, id: Id)
    requires Enabled(s, TryRead(id))
    ensures var s' := Apply(s, TryRead(id));
            var end := if In(s', id, ReadGuard) then DropRead(id) else UndoRead(id);
            Enabled(s', end) && Apply(s', end) == s
  {
    hide Bits;
    var s' := Apply(s, TryRead(id));
    assert s'.holders - {id} == s.holders;
  }

  lemma WriteRoundTrip(s: State, id: Id)
    requires Inv(s) && Enabled(s, TryWrite(id)) && In(Apply(s, TryWrite(id)), id, WriteGuard)
    ensures Apply(Apply(s, TryWrite(id)), DropWrite(id)) == s
  {
    hide Count;
    var s' := Apply(s, TryWrite(id));
    assert s'.holders - {id} == s.holders;
  }

  lemma UpgradableRoundTrip(s: State, id: Id)
    requires Inv(s) && Enabled(s, TryUpgradable(id)) && In(Apply(s, TryUpgradable(id)), id, UpgradableGuard)
    ensures Apply(Apply(s, TryUpgradable(id)), DropUpgradable(id)) == s
  {
    hide Count, Bits, WriterBit, UpgradedBit;
    InvParts(s);
    var s' := Apply(s, TryUpgradable(id));
    assert s'.holders - {id} == s.holders;
  }

  /** A store is what is read afterwards, and changes nothing else. */
  lemma StoreReadBack(s: State, id: Id, value: int)
    requires Enabled(s, Store(id, value))
    ensures Apply(s, Store(id, value)).data == value
    ensures Apply(s, Store(id, value)).(data := s.data) == s
  {
  }

  // ----- conversions, each of them a release and a new acquisition in one

  lemma DowngradeWriteIsDropThenRead(s: State, id: Id)
    requires Inv(s) && In(s, id, WriteGuard)
    ensures var s' := Apply(s, DropWrite(id));
            && Enabled(s', TryRead(id)) && In(Apply(s', TryRead(id)), id, ReadGuard)
            && Apply(Apply(s, DowngradeWrite(id)), FinishDowngradeWrite(id)) == Apply(s', TryRead(id))
  {
    hide Count;
    var dropped := Apply(s, DropWrite(id));
    assert dropped.holders[id := ReadGuard] == s.holders[id := ReadGuard];
    assert s.holders[id := WriteDowngrading][id := ReadGuard] == s.holders[id := ReadGuard];
    WordShift(s.word);
  }

  lemma WordShift(word: int)
    ensures Bits(word + READER) == Bits(word) && Bits(word - Bits(word)) == 0
  {
  }

  lemma DowngradeUpgradableIsDropThenRead(s: State, id: Id)
    requires Inv(s) && In(s, id, UpgradableGuard)
    ensures var s' := Apply(s, DropUpgradable(id));
            && Enabled(s', TryRead(id)) && In(Apply(s', TryRead(id)), id, ReadGuard)
            && Apply(Apply(s, DowngradeUpgradable(id)), FinishDowngradeUpgradable(id)) == Apply(s', TryRead(id))
  {
    hide Count, Bits, WriterBit, UpgradedBit;
    var dropped := Apply(s, DropUpgradable(id));
    StepKeepsInv(s, DropUpgradable(id));
    ReadGranted(dropped, id);
    CountsAfter(s, DropUpgradable(id), Upgradable);
    CountsAfter(s, DropUpgradable(id), Writer);
    assert dropped.holders[id := ReadGuard] == s.holders[id := ReadGuard];
    assert s.holders[id := UpgradableDowngrading][id := ReadGuard] == s.holders[id := ReadGuard];
  }

  lemma UpgradeIsDropThenWrite(s: State, id: Id)
    requires Inv(s) && In(s, id, UpgradableGuard) && In(Apply(s, TryUpgrade(id)), id, WriteGuard)
    ensures var s' := Apply(s, DropUpgradable(id));
            Enabled(s', TryWrite(id)) && Apply(s, TryUpgrade(id)) == Apply(s', TryWrite(id))
  {
    hide Count, Bits, WriterBit, UpgradedBit;
    var dropped := Apply(s, DropUpgradable(id));
    assert dropped.holders[id := WriteGuard] == s.holders[id := WriteGuard];
  }

  // ----- data is stable under shared access

  /** The phases that hand out `&T`, and the ones that keep it across a downgrade. */
  predicate Shares(s: State, id: Id) {
    id in s.holders && (Belongs(s.holders[id], Reading) || Belongs(s.holders[id], Upgradable)
                        || s.holders[id] == WriteDowngrading)
  }

  ghost predicate SharesThroughout(s: State, steps: seq<Step>, id: Id)
    requires IsRun(s, steps)
    decreases |steps|
  {
    Shares(s, id) && (steps != [] ==> SharesThroughout(Apply(s, steps[0]), steps[1..], id))
  }

  lemma StoreExcludesSharers(s: State, step: Step, id: Id)
    requires Inv(s) && Enabled(s, step) && Shares(s, id)
    ensures Apply(s, step).data == s.data
  {
    hide Count;
    if step.Store? {
      MemberCounts(s.holders, step.id, Writer);
      NotAMember(s.holders, id, Writer);
      NotAMember(s.holders, id, Upgradable);
      NotAMember(s.holders, id, Reading);
    }
  }

  /** Whoever holds shared access over a stretch of a run sees one value throughout it,
      including the last value its own write guard stored before a downgrade. */
  lemma {:induction false} DataStableWhileShared(s: State, steps: seq<Step>, id: Id)
    requires Inv(s) && IsRun(s, steps) && SharesThroughout(s, steps, id)
    ensures After(s, steps).data == s.data
    decreases |steps|
  {
    if steps != [] {
      StoreExcludesSharers(s, steps[0], id);
      StepKeepsInv(s, steps[0]);
      DataStableWhileShared(Apply(s, steps[0]), steps[1..], id);
    }
  }

  // ----- the advisory counters

  function ReaderCount(word: int): int {
    word / READER + One(UpgradedBit(word))
  }

  function WriterCount(word: int): int {
    WriterBit(word) / WRITER
  }

  /** `writer_count` is exact; `reader_count` is exact just when no acquisition is between two
      atomic steps and no failed upgradable attempt has left its mark on the writer. */
  lemma CountersExact(data: int, steps: seq<Step>)
    requires IsRun(Initial(data), steps)
    ensures var s := After(Initial(data), steps);
            && WriterCount(s.word) == Count(s.holders, Writer)
            && (ReaderCount(s.word) == Count(s.holders, Reading) + Count(s.holders, Upgradable)
                <==> Count(s.holders, Transient) == 0 && !s.sticky)
  {
    hide Count, Bits, WriterBit, UpgradedBit, IsRun, After, Initial;
    EveryRunKeepsInv(data, steps);
    InvParts(After(Initial(data), steps));
    ReadersSplit(After(Initial(data), steps).holders);
  }

  /** A writer with a reader about to back out, and one with a failed upgradable attempt. */
  const READ_UNDER_WRITER := [TryWrite(0), TryRead(1)]
  const UPGRADABLE_UNDER_WRITER := [TryWrite(0), TryUpgradable(1)]

  lemma {:induction false} TwoSteps(s: State, a: Step, b: Step)
    requires Enabled(s, a) && Enabled(Apply(s, a), b)
    ensures IsRun(s, [a, b]) && After(s, [a, b]) == Apply(Apply(s, a), b)
  {
    var s1 := Apply(s, a);
    var s2 := Apply(s1, b);
    assert [a, b][1..] == [b] && [b][1..] == [];
    assert IsRun(s2, []) && IsRun(s1, [b]);
    assert After(s1, [b]) == s2;
  }

  lemma RunsUnderWriter()
    ensures IsRun(Initial(0), READ_UNDER_WRITER)
    ensures After(Initial(0), READ_UNDER_WRITER)
         == State(READER + WRITER, 0, map[0 := WriteGuard, 1 := ReadUndo], false)
    ensures IsRun(Initial(0), UPGRADABLE_UNDER_WRITER)
    ensures After(Initial(0), UPGRADABLE_UNDER_WRITER) == State(UPGRADED + WRITER, 0, map[0 := WriteGuard], true)
  {
    TwoSteps(Initial(0), TryWrite(0), TryRead(1));
    TwoSteps(Initial(0), TryWrite(0), TryUpgradable(1));
  }

  /** In both runs `reader_count` is 1 although nobody reads. */
  lemma ReaderCountCanDiffer(run: seq<Step>)
    requires run == READ_UNDER_WRITER || run == UPGRADABLE_UNDER_WRITER
    ensures IsRun(Initial(0), run)
    ensures var s := After(Initial(0), run);
            && ReaderCount(s.word) == 1
            && Count(s.holders, Reading) + Count(s.holders, Upgradable) == 0
  {
    RunsUnderWriter();
    var s := After(Initial(0), run);
    assert Members(s.holders, Reading) == {} && Members(s.holders, Upgradable) == {};
  }

  // ----- the downgrade that stores over the word

  /** `downgrade_to_upgradeable` replaces the whole word instead of changing two bits. */
  function StoreUpgraded(s: State, id: Id): State {
    Set(s, id, UpgradableGuard, UPGRADED).(sticky := false)
  }

  /** The debug assertion in front of the store: WRITER is the only low bit. */
  predicate DowngradeAsserted(s: State) {
    Bits(s.word) == WRITER
  }

  /** The assertion passes exactly when no failed upgradable attempt has left its mark, and the
      store keeps the accounting exactly when no reader is about to undo its count.  Both are
      right exactly when the word is WRITER and nothing else. */
  lemma StoreUpgradedExact(s: State, id: Id)
    requires Inv(s) && In(s, id, WriteGuard)
    ensures DowngradeAsserted(s) <==> !s.sticky
    ensures Inv(StoreUpgraded(s, id)) <==> Count(s.holders, Reader) == 0
    ensures DowngradeAsserted(s) && Inv(StoreUpgraded(s, id)) <==> s.word == WRITER
  {
    hide Count, Bits, WriterBit, UpgradedBit;
    InvParts(s);
    var h := s.holders;
    CountSet(h, id, UpgradableGuard, Reader);
    CountSet(h, id, UpgradableGuard, Upgradable);
    CountSet(h, id, UpgradableGuard, Writer);
    CountSet(h, id, UpgradableGuard, Reading);
    MemberCounts(h, id, Writer);
  }

  /** A reader can be about to undo its count; its undo then takes the word below zero. */
  lemma StoreUpgradedCanLoseAReader()
    ensures IsRun(Initial(0), READ_UNDER_WRITER)
    ensures var s := After(Initial(0), READ_UNDER_WRITER);
            && In(s, 0, WriteGuard) && DowngradeAsserted(s)
            && Enabled(StoreUpgraded(s, 0), UndoRead(1))
            && Apply(StoreUpgraded(s, 0), UndoRead(1)).word < 0
  {
    RunsUnderWriter();
  }

  /** With no reader at all, a failed upgradable attempt makes the assertion fail. */
  lemma DowngradeAssertionCanFail()
    ensures IsRun(Initial(0), UPGRADABLE_UNDER_WRITER)
    ensures var s := After(Initial(0), UPGRADABLE_UNDER_WRITER);
            In(s, 0, WriteGuard) && Count(s.holders, Reader) == 0 && !DowngradeAsserted(s)
  {
    RunsUnderWriter();
    assert Members(After(Initial(0), UPGRADABLE_UNDER_WRITER).holders, Reader) == {};
  }
}
