/** The gate reader answers what the contract would: for every note and every way storage may render
    it, and never by skipping a gate it could not read. */
module WithdrawRefinement {
  import opened Wrappers
  import opened Numerals
  import opened Lists
  import opened Json
  import opened WithdrawGate

  /** What one field says about its gate. */
  datatype Reading = Closed | Open(gate: Gate) | Unread

  function Or<T>(o: Option<T>, default: T): T {
    if o.Some? then o.value else default
  }

  /** A count or an amount closes its gate when it is zero. */
  function Counted(n: Option<nat>, gate: Gate): (r: Reading) {
    if n.None? then Unread else if n.value == 0 then Closed else Open(gate)
  }

  /** What the `k`-th field of `j` says about its gate. */
  function ReadingOf(j: Json, k: nat): (r: Reading)
    requires k < 11
  {
    var v := Get(j, GATE_FIELDS[k]);
    if v.None? then Unread
    else match k
      case 0 =>
        var b := ReadBool(v.value);
        if b.None? then Unread else if b.value then Open(HasWithdrawn) else Closed
      case 1 =>
        var busy := ReadBusy(v.value);
        if busy.None? then Unread else if busy.value.Some? then Open(Busy(busy.value.value)) else Closed
      case 2 => Counted(StorageMapLen(j, "_stakes"), Stakes(Or(StorageMapLen(j, "_stakes"), 0)))
      case 3 => Counted(StorageUint(j, "_debt"), Debt(Or(StorageUint(j, "_debt"), 0)))
      case 4 =>
        var rows := LockedRows(j);
        if rows.None? then Unread
        else if FirstLocked(rows.value).None? then Closed
        else Open(LockedInOrders(FirstLocked(rows.value).value.0, FirstLocked(rows.value).value.1))
      case 5 =>
        var n := StorageUint(j, "_pendingPlaceBuyLock");
        Counted(n, PendingPlaceBuyLock(Or(n, 0)))
      case 6 =>
        var n := StorageUint(j, "_pendingBatchBuyLock");
        Counted(n, PendingBatchBuyLock(Or(n, 0)))
      case 7 =>
        Counted(StorageUint(j, "_openOrderCount"), OpenOrders(SaturatedU32(Or(StorageUint(j, "_openOrderCount"), 0))))
      case 8 => Counted(StorageMapLen(j, "_restingInf"), RestingInference(Or(StorageMapLen(j, "_restingInf"), 0)))
      case 9 => Counted(StorageMapLen(j, "_pendingInf"), PendingInference(Or(StorageMapLen(j, "_pendingInf"), 0)))
      case _ => Counted(StorageMapLen(j, "_liveDeals"), LiveDeals(Or(StorageMapLen(j, "_liveDeals"), 0)))
  }

  /** The verdict of the fields from the `k`-th on, taken in order. */
  function VerdictFrom(j: Json, k: nat): (r: Verdict)
    requires k <= 11
    decreases 11 - k
  {
    if k == 11 then Clear
    else match ReadingOf(j, k)
      case Closed => VerdictFrom(j, k + 1)
      case Open(gate) => Held(gate)
      case Unread => Unreadable(GATE_FIELDS[k])
  }

  lemma VerdictStep(j: Json, k: nat)
    requires k < 11
    ensures VerdictFrom(j, k) ==
            match ReadingOf(j, k)
            case Closed => VerdictFrom(j, k + 1)
            case Open(gate) => Held(gate)
            case Unread => Unreadable(GATE_FIELDS[k])
  {
  }

  lemma OrderGatesInOrder(j: Json)
    ensures ReadOrderGates(j) == VerdictFrom(j, 5)
  {
    VerdictStep(j, 5);
    VerdictStep(j, 6);
    VerdictStep(j, 7);
    VerdictStep(j, 8);
    VerdictStep(j, 9);
    VerdictStep(j, 10);
    assert VerdictFrom(j, 11) == Clear;
  }

  /** The cascade is those readings in the contract's order. */
  lemma CascadeInOrder(j: Json)
    ensures ReadGates(j) == VerdictFrom(j, 0)
  {
    VerdictStep(j, 0);
    VerdictStep(j, 1);
    VerdictStep(j, 2);
    VerdictStep(j, 3);
    VerdictStep(j, 4);
    OrderGatesInOrder(j);
  }

  // ------------------------------------------------------------------ one field against the note

  /** A reading agrees with the `k`-th `require`: closed when it passes, open at its gate when not. */
  predicate Agrees(r: Reading, note: Note, k: nat)
    requires k < 11
  {
    match r
    case Closed => !Stops(note, k)
    case Open(gate) => Stops(note, k) && Names(gate, note, k)
    case Unread => false
  }

  lemma RowsExactly(j: Json, rows: List<(nat, nat)>)
    ensures LockedRows(j) == Some(rows) <==>
            Get(j, "_lockedInOrders").Some? && RendersRows(Get(j, "_lockedInOrders").value, rows)
  {
    var v := Get(j, "_lockedInOrders");
    if v.Some? && v.value.Obj? {
      FieldRowsExactly(v.value.fields, rows);
    } else if v.Some? && v.value.Arr? {
      ItemRowsExactly(v.value.items, rows);
    }
  }

  lemma LocksExactly(j: Json, note: Note)
    ensures Renders(j, 4, note) <==> LockedRows(j).Some? && ListsLocks(LockedRows(j).value, note.locked)
  {
    if LockedRows(j).Some? {
      RowsExactly(j, LockedRows(j).value);
    }
    if Renders(j, 4, note) {
      var rows :| RendersRows(Get(j, GATE_FIELDS[4]).value, rows) && ListsLocks(rows, note.locked);
      RowsExactly(j, rows);
    }
  }

  lemma UintExactly(j: Json, name: string, n: nat)
    ensures StorageUint(j, name) == Some(n) <==> Get(j, name).Some? && RendersUint(Get(j, name).value, n)
  {
    if Get(j, name).Some? {
      ReadUintExactly(Get(j, name).value, n);
    }
  }

  lemma LocksAgree(j: Json, note: Note)
    requires Renders(j, 4, note)
    ensures Agrees(ReadingOf(j, 4), note, 4)
  {
    LocksExactly(j, note);
    LockNamed(LockedRows(j).value, note.locked);
  }

  /** A field that renders a note's part is read as that part. */
  lemma RenderedIsRead(j: Json, k: nat, note: Note)
    requires k < 11 && Renders(j, k, note)
    ensures Agrees(ReadingOf(j, k), note, k)
  {
    match k
    case 0 => ReadBoolExactly(Get(j, "_hasWithdrawn").value, note.hasWithdrawn);
    case 1 => ReadBusyExactly(Get(j, "_busy").value, note.busy);
    case 3 => UintExactly(j, "_debt", note.debt);
    case 4 => LocksAgree(j, note);
    case 5 => UintExactly(j, "_pendingPlaceBuyLock", note.placeLock);
    case 6 => UintExactly(j, "_pendingBatchBuyLock", note.batchLock);
    case 7 => UintExactly(j, "_openOrderCount", note.openOrders);
    case _ =>
  }

  /** The note the readable fields of `j` render. */
  function NoteRead(j: Json): (note: Note) {
    var withdrawn, busy := Get(j, "_hasWithdrawn"), Get(j, "_busy");
    Note(
      if withdrawn.None? then false else Or(ReadBool(withdrawn.value), false),
      if busy.None? then None else Or(ReadBusy(busy.value), None),
      Or(StorageMapLen(j, "_stakes"), 0),
      Or(StorageUint(j, "_debt"), 0),
      MapOf(Or(LockedRows(j), Nil)),
      Or(StorageUint(j, "_pendingPlaceBuyLock"), 0),
      Or(StorageUint(j, "_pendingBatchBuyLock"), 0),
      Or(StorageUint(j, "_openOrderCount"), 0),
      Or(StorageMapLen(j, "_restingInf"), 0),
      Or(StorageMapLen(j, "_pendingInf"), 0),
      Or(StorageMapLen(j, "_liveDeals"), 0))
  }

  /** The `_busy` field is an object that renders nothing. */
  predicate BusyDefect(j: Json) {
    Get(j, "_busy").Some? && BusyUnusable(Get(j, "_busy").value)
  }

  /** The `_lockedInOrders` rows give one token type two amounts. */
  ghost predicate LockConflict(j: Json) {
    LockedRows(j).Some? && Conflict(LockedRows(j).value)
  }

  lemma ReadLocks(j: Json)
    requires LockedRows(j).Some?
    ensures Agrees(ReadingOf(j, 4), NoteRead(j), 4)
    ensures Renders(j, 4, NoteRead(j)) <==> !LockConflict(j)
    ensures ReadingOf(j, 4) == Closed ==> !LockConflict(j)
  {
    var rows := LockedRows(j).value;
    LocksExactly(j, NoteRead(j));
    ListsExactly(rows);
    FirstLockedHas(rows);
    if FirstLocked(rows).Some? {
      FirstLockedInMap(rows);
    } else {
      LockNamed(rows, MapOf(rows));
    }
  }

  /** A field that is read is read as the note's part, and renders it, but for a `_busy` object that
      reads as free and for rows that contradict each other. */
  lemma ReadIsRendered(j: Json, k: nat)
    requires k < 11 && !ReadingOf(j, k).Unread?
    ensures Agrees(ReadingOf(j, k), NoteRead(j), k)
    ensures Renders(j, k, NoteRead(j)) <==>
            && !(k == 1 && ReadingOf(j, k) == Closed && BusyDefect(j))
            && !(k == 4 && ReadingOf(j, k) != Closed && LockConflict(j))
  {
    var note := NoteRead(j);
    match k
    case 0 => ReadBoolExactly(Get(j, "_hasWithdrawn").value, note.hasWithdrawn);
    case 1 => ReadBusyExactly(Get(j, "_busy").value, note.busy);
    case 3 => UintExactly(j, "_debt", note.debt);
    case 4 => ReadLocks(j);
    case 5 => UintExactly(j, "_pendingPlaceBuyLock", note.placeLock);
    case 6 => UintExactly(j, "_pendingBatchBuyLock", note.batchLock);
    case 7 => UintExactly(j, "_openOrderCount", note.openOrders);
    case _ =>
  }

  // ------------------------------------------------------------------ the verdict against the contract

  /** The fields up to the `require` that stops the call, or all of them, render the note. */
  ghost predicate RendersToStop(j: Json, note: Note, k: nat)
    requires k <= 11
  {
    var s := FirstStop(note, k);
    forall i :: k <= i < (if s.Some? then s.value + 1 else 11) ==> Renders(j, i, note)
  }

  /** The verdict tells where the contract stops, counting from the `k`-th `require`. */
  predicate Tells(v: Verdict, note: Note, k: nat)
    requires k <= 11
  {
    var s := FirstStop(note, k);
    if s.None? then v == Clear else v.Held? && Names(v.gate, note, s.value)
  }

  lemma {:induction false} VerdictFromNote(j: Json, note: Note, k: nat)
    requires k <= 11 && RendersToStop(j, note, k)
    ensures Tells(VerdictFrom(j, k), note, k)
    decreases 11 - k
  {
    if k < 11 {
      assert Renders(j, k, note);
      RenderedIsRead(j, k, note);
      if !Stops(note, k) {
        VerdictFromNote(j, note, k + 1);
      }
    }
  }

  /** THE READER REFINES THE CONTRACT. However storage renders the fields up to the `require` that
      stops the withdrawal, with map rows in any order, the reader names that `require`'s gate, with its
      field, its exit code and what the note holds there; and it answers clear when none stops it. */
  lemma RefinesContract(j: Json, note: Note)
    requires RendersToStop(j, note, 0)
    ensures FirstStop(note, 0).None? ==> ReadGates(j) == Clear
    ensures FirstStop(note, 0).Some? ==>
              var k := FirstStop(note, 0).value;
              var v := ReadGates(j);
              v.Held? && Names(v.gate, note, k)
              && GateField(v.gate) == GATE_FIELDS[k] && ExitCodeOf(v.gate) == REQUIRE_CODES[k]
  {
    CascadeInOrder(j);
    VerdictFromNote(j, note, 0);
    if FirstStop(note, 0).Some? {
      GateOfRequire(ReadGates(j).gate, note, FirstStop(note, 0).value);
    }
  }

  lemma GateOfRequire(gate: Gate, note: Note, k: nat)
    requires k < 11 && Names(gate, note, k)
    ensures GateField(gate) == GATE_FIELDS[k] && ExitCodeOf(gate) == REQUIRE_CODES[k]
  {
  }

  /** Where the rows of `_lockedInOrders` are rendered by ascending token type, the lock named is the
      one the contract's own loop stops at. */
  lemma AscendingNamesTheContractsLock(j: Json, note: Note, t: nat)
    requires RendersToStop(j, note, 0) && FirstStop(note, 0) == Some(4)
    requires LockedRows(j).Some? && Ascending(LockedRows(j).value)
    requires t in note.locked && note.locked[t] != 0
    ensures ReadGates(j).Held? && ReadGates(j).gate.LockedInOrders? && ReadGates(j).gate.tokenType <= t
  {
    var rows := LockedRows(j).value;
    assert Renders(j, 4, note);
    LocksExactly(j, note);
    LockNamed(rows, note.locked);
    LeastLockNamed(rows, t, note.locked[t]);
    CascadeInOrder(j);
    ClosedBefore(j, note, 0, 4);
  }

  lemma {:induction false} ClosedBefore(j: Json, note: Note, k: nat, stop: nat)
    requires k <= stop < 11 && FirstStop(note, k) == Some(stop) && RendersToStop(j, note, k)
    ensures VerdictFrom(j, k) == VerdictFrom(j, stop)
    decreases stop - k
  {
    if k < stop {
      assert Renders(j, k, note);
      RenderedIsRead(j, k, note);
      ClosedBefore(j, note, k + 1, stop);
    }
  }

  /** How far the reader got: the first field it did not find closed. */
  lemma {:induction false} StoppedAt(j: Json, k: nat) returns (stop: nat)
    requires k <= 11
    ensures k <= stop <= 11 && forall i :: k <= i < stop ==> ReadingOf(j, i) == Closed
    ensures VerdictFrom(j, k) == VerdictFrom(j, stop)
    ensures stop < 11 ==> ReadingOf(j, stop) != Closed
    decreases 11 - k
  {
    stop := k;
    if k < 11 && ReadingOf(j, k) == Closed {
      stop := StoppedAt(j, k + 1);
    }
  }

  /** THE READER NEVER SKIPS, on any JSON at all. There is a note whose parts the fields up to the stop
      render, unless they are defective; none before the stop stops the contract; a held verdict is the
      gate that note is held by; an unreadable verdict names the first field that renders no note
      whatever. */
  lemma NeverSkips(j: Json) returns (note: Note, stop: nat)
    ensures stop <= 11 && forall i :: 0 <= i < stop ==>
              && ReadingOf(j, i) == Closed && !Stops(note, i)
              && (Renders(j, i, note) <==> !(i == 1 && BusyDefect(j)))
    ensures ReadGates(j) == Clear <==> stop == 11
    ensures ReadGates(j).Held? ==>
      && stop < 11 && Stops(note, stop) && Names(ReadGates(j).gate, note, stop)
      && (Renders(j, stop, note) <==> !(stop == 4 && LockConflict(j)))
    ensures ReadGates(j).Unreadable? ==>
      stop < 11 && ReadGates(j).field == GATE_FIELDS[stop] && forall n :: !Renders(j, stop, n)
  {
    note := NoteRead(j);
    stop := StoppedAt(j, 0);
    CascadeInOrder(j);
    forall i | 0 <= i < stop
      ensures !Stops(note, i) && (Renders(j, i, note) <==> !(i == 1 && BusyDefect(j)))
    {
      ReadIsRendered(j, i);
    }
    if stop < 11 {
      if ReadingOf(j, stop).Unread? {
        forall n
          ensures !Renders(j, stop, n)
        {
          if Renders(j, stop, n) { RenderedIsRead(j, stop, n); }
        }
      } else {
        ReadIsRendered(j, stop);
      }
    }
  }

  // ------------------------------------------------------------------ which verdicts are true

  /** The note is rendered up to where the contract stops, and the verdict tells that stop. */
  ghost predicate Explains(j: Json, note: Note) {
    RendersToStop(j, note, 0) && Tells(ReadGates(j), note, 0)
  }

  /** A field that renders nothing, with every field before it read as closed. */
  ghost predicate Misled(j: Json) {
    || (BusyDefect(j) && ReadingOf(j, 0) == Closed)
    || (LockConflict(j) && forall i :: 0 <= i < 4 ==> ReadingOf(j, i) == Closed)
  }

  lemma FirstStopIs(note: Note, k: nat, stop: nat)
    requires k <= stop <= 11 && (forall i :: k <= i < stop ==> !Stops(note, i)) && (stop < 11 ==> Stops(note, stop))
    ensures FirstStop(note, k) == if stop < 11 then Some(stop) else None
  {
  }

  lemma MisledIsFalse(j: Json, note: Note)
    requires Misled(j)
    ensures !Explains(j, note)
  {
    if BusyDefect(j) && ReadingOf(j, 0) == Closed {
      ReadBusyExactly(Get(j, "_busy").value, note.busy);
      NotExplainedAt(j, note, 1);
    } else {
      LocksExactly(j, note);
      if Renders(j, 4, note) {
        ListedDoesNotConflict(LockedRows(j).value, note.locked);
      }
      NotExplainedAt(j, note, 4);
    }
  }

  lemma NotExplainedAt(j: Json, note: Note, k: nat)
    requires k < 11 && (forall i :: 0 <= i < k ==> ReadingOf(j, i) == Closed) && !Renders(j, k, note)
    ensures !Explains(j, note)
  {
    var s := FirstStop(note, 0);
    if s.Some? && s.value < k && Renders(j, s.value, note) {
      RenderedIsRead(j, s.value, note);
    }
  }

  /** WHEN A VERDICT IS TRUE: whatever the reader answers, clear or held, some note explains the answer,
      if and only if no `_busy` object that renders nothing, and no `_lockedInOrders` rows that contradict
      each other, stand behind nothing but closed gates. */
  lemma VerdictIsTrueExactly(j: Json)
    requires !ReadGates(j).Unreadable?
    ensures (exists note :: Explains(j, note)) <==> !Misled(j)
  {
    var note, stop := NeverSkips(j);
    if Misled(j) {
      forall n
        ensures !Explains(j, n)
      {
        MisledIsFalse(j, n);
      }
    } else {
      FirstStopIs(note, 0, stop);
      assert forall i :: 0 <= i <= stop && i < 11 ==> Renders(j, i, note);
      assert Explains(j, note);
    }
  }

  // ------------------------------------------------------------------ documents with a false verdict

  const EMPTY := Arr(Nil)

  /** A storage document, free of everything but what is given. */
  function Document(busy: Json, debt: nat, locked: Json): (j: Json) {
    Obj(Cons(Field("_hasWithdrawn", Bool(false)), Cons(Field("_busy", busy), Cons(Field("_stakes", EMPTY),
        Cons(Field("_debt", Int(debt)), Cons(Field("_lockedInOrders", locked), OrderFields()))))))
  }

  function OrderFields(): (fields: List<Field>) {
    Cons(Field("_pendingPlaceBuyLock", Int(0)), Cons(Field("_pendingBatchBuyLock", Int(0)),
      Cons(Field("_openOrderCount", Int(0)), Cons(Field("_restingInf", EMPTY),
        Cons(Field("_pendingInf", EMPTY), Cons(Field("_liveDeals", EMPTY), Nil))))))
  }

  lemma OrderFieldsNamed()
    ensures var f := OrderFields();
            && FieldNamed(f, "_pendingPlaceBuyLock") == FieldNamed(f, "_pendingBatchBuyLock") == Some(Int(0))
            && FieldNamed(f, "_openOrderCount") == Some(Int(0))
            && FieldNamed(f, "_restingInf") == FieldNamed(f, "_pendingInf") == Some(EMPTY)
            && FieldNamed(f, "_liveDeals") == Some(EMPTY)
  {
    var live := Cons(Field("_liveDeals", EMPTY), Nil);
    var pending := Cons(Field("_pendingInf", EMPTY), live);
    var resting := Cons(Field("_restingInf", EMPTY), pending);
    var count := Cons(Field("_openOrderCount", Int(0)), resting);
    var batch := Cons(Field("_pendingBatchBuyLock", Int(0)), count);
    assert FieldNamed(live, "_liveDeals") == Some(EMPTY);
    assert FieldNamed(pending, "_liveDeals") == FieldNamed(pending, "_pendingInf") == Some(EMPTY);
    assert FieldNamed(resting, "_liveDeals") == FieldNamed(resting, "_pendingInf") == Some(EMPTY);
    assert FieldNamed(count, "_liveDeals") == FieldNamed(count, "_pendingInf") == Some(EMPTY);
    assert FieldNamed(count, "_restingInf") == Some(EMPTY);
    assert FieldNamed(batch, "_liveDeals") == FieldNamed(batch, "_pendingInf") == Some(EMPTY);
    assert FieldNamed(batch, "_restingInf") == Some(EMPTY) && FieldNamed(batch, "_openOrderCount") == Some(Int(0));
  }

  /** The fields behind `_debt` are found where they stand. */
  lemma PastDebt(busy: Json, debt: nat, locked: Json, name: string)
    requires |name| > 1 && name[0] == '_' && name !in ["_hasWithdrawn", "_busy", "_stakes", "_debt"]
    ensures Get(Document(busy, debt, locked), name)
         == FieldNamed(Cons(Field("_lockedInOrders", locked), OrderFields()), name)
  {
    var locks := Cons(Field("_lockedInOrders", locked), OrderFields());
    var debts := Cons(Field("_debt", Int(debt)), locks);
    var stakes := Cons(Field("_stakes", EMPTY), debts);
    var busies := Cons(Field("_busy", busy), stakes);
    assert FieldNamed(debts, name) == FieldNamed(locks, name);
    assert FieldNamed(stakes, name) == FieldNamed(debts, name);
    assert FieldNamed(busies, name) == FieldNamed(stakes, name);
  }

  lemma FrontFields(busy: Json, debt: nat, locked: Json)
    ensures var j := Document(busy, debt, locked);
            && Get(j, "_hasWithdrawn") == Some(Bool(false)) && Get(j, "_busy") == Some(busy)
            && Get(j, "_stakes") == Some(EMPTY) && Get(j, "_debt") == Some(Int(debt))
  {
    var debts := Cons(Field("_debt", Int(debt)), Cons(Field("_lockedInOrders", locked), OrderFields()));
    var stakes := Cons(Field("_stakes", EMPTY), debts);
    var busies := Cons(Field("_busy", busy), stakes);
    assert FieldNamed(debts, "_debt") == Some(Int(debt));
    assert FieldNamed(stakes, "_debt") == Some(Int(debt)) by { assert "_stakes"[1] != "_debt"[1]; }
    assert FieldNamed(busies, "_debt") == Some(Int(debt)) by { assert "_busy"[1] != "_debt"[1]; }
    assert FieldNamed(busies, "_stakes") == Some(EMPTY);
    assert FieldNamed(busies, "_busy") == Some(busy);
    assert |"_hasWithdrawn"| != |"_busy"| && |"_hasWithdrawn"| != |"_stakes"| && |"_hasWithdrawn"| != |"_debt"|;
  }

  lemma RearFields(busy: Json, debt: nat, locked: Json)
    ensures var j := Document(busy, debt, locked);
            && Get(j, "_lockedInOrders") == Some(locked) && Get(j, "_openOrderCount") == Some(Int(0))
            && Get(j, "_pendingPlaceBuyLock") == Get(j, "_pendingBatchBuyLock") == Some(Int(0))
            && Get(j, "_restingInf") == Get(j, "_pendingInf") == Get(j, "_liveDeals") == Some(EMPTY)
  {
    OrderFieldsNamed();
    PastDebt(busy, debt, locked, "_lockedInOrders");
    PastDebt(busy, debt, locked, "_openOrderCount");
    PastDebt(busy, debt, locked, "_pendingPlaceBuyLock");
    PastDebt(busy, debt, locked, "_pendingBatchBuyLock");
    PastDebt(busy, debt, locked, "_restingInf");
    PastDebt(busy, debt, locked, "_pendingInf");
    PastDebt(busy, debt, locked, "_liveDeals");
  }

  /** How a document reads: field by field, up to the first gate that is not closed. */
  lemma DocumentReads(busy: Json, debt: nat, locked: Json)
    requires ReadBusy(busy) == Some(None) && debt <= U64_MAX
    ensures var j := Document(busy, debt, locked);
            && (debt != 0 ==> ReadGates(j) == Held(Debt(debt)))
            && (debt == 0 && LockedRows(j).Some? ==>
                  var row := FirstLocked(LockedRows(j).value);
                  ReadGates(j) == if row.Some? then Held(LockedInOrders(row.value.0, row.value.1)) else Clear)
  {
    FrontFields(busy, debt, locked);
    RearFields(busy, debt, locked);
  }

  /** A `_busy` object with an address under its second key. */
  const HIDDEN := Obj(Cons(Field("value", Bool(true)), Cons(Field("0", Str("0:ab")), Nil)))

  lemma HiddenIsUnusable()
    ensures ReadBusy(HIDDEN) == Some(None) && BusyUnusable(HIDDEN)
  {
    assert FieldNamed(HIDDEN.fields, "value") == Some(Bool(true));
  }

  /** COUNTEREXAMPLES: one document reads clear and one is held by its debt, with a latch that renders
      nothing and hides an address; one is held by a lock that another row denies. No note explains
      any of the three verdicts. */
  lemma FalseVerdicts(note: Note)
    ensures var j := Document(HIDDEN, 0, EMPTY); ReadGates(j) == Clear && !Explains(j, note)
    ensures var j := Document(HIDDEN, 5, EMPTY); ReadGates(j) == Held(Debt(5)) && !Explains(j, note)
    ensures var j := Document(Null, 0, DENIED); ReadGates(j) == Held(LockedInOrders(1, 5)) && !Explains(j, note)
  {
    BusyMisleads(0, note);
    BusyMisleads(5, note);
    RowsMislead(note);
  }

  lemma BusyMisleads(debt: nat, note: Note)
    requires debt <= U64_MAX
    ensures var j := Document(HIDDEN, debt, EMPTY);
            ReadGates(j) == (if debt == 0 then Clear else Held(Debt(debt))) && !Explains(j, note)
  {
    var j := Document(HIDDEN, debt, EMPTY);
    HiddenIsUnusable();
    FrontFields(HIDDEN, debt, EMPTY);
    RearFields(HIDDEN, debt, EMPTY);
    DocumentReads(HIDDEN, debt, EMPTY);
    assert LockedRows(j) == Some(Nil);
    MisledIsFalse(j, note);
  }

  /** Two rows for token type 1: nothing locked, and five. */
  const DENIED := Arr(Cons(Arr(Cons(Int(1), Cons(Int(0), Nil))), Cons(Arr(Cons(Int(1), Cons(Int(5), Nil))), Nil)))

  lemma RowsMislead(note: Note)
    ensures var j := Document(Null, 0, DENIED); ReadGates(j) == Held(LockedInOrders(1, 5)) && !Explains(j, note)
  {
    var j := Document(Null, 0, DENIED);
    FrontFields(Null, 0, DENIED);
    RearFields(Null, 0, DENIED);
    DocumentReads(Null, 0, DENIED);
    var last := Cons((1, 5), Nil);
    var rows := Cons((1, 0), last);
    assert ItemRows(DENIED.items.tail) == Some(last);
    assert LockedRows(j) == Some(rows);
    assert FirstLocked(last) == Some((1, 5)) && Has(last, 1, 5);
    assert Has(rows, 1, 0) && Has(rows, 1, 5);
    MisledIsFalse(j, note);
  }
}
