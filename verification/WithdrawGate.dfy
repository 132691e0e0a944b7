/** The withdraw-gate reader of `note_withdraw_gate.rs`: eleven storage fields read in the order the
    contract's `withdrawTokens` checks them. */
module WithdrawGate {
  import opened Wrappers
  import opened Text
  import opened Numerals
  import opened Lists
  import opened Json

  datatype Gate =
    | HasWithdrawn
    | Busy(with: string)
    | Stakes(count: nat)
    | Debt(raw: nat)
    | LockedInOrders(tokenType: nat, locked: nat)
    | PendingPlaceBuyLock(raw: nat)
    | PendingBatchBuyLock(raw: nat)
    | OpenOrders(count: nat)
    | RestingInference(count: nat)
    | PendingInference(count: nat)
    | LiveDeals(count: nat)

  datatype Verdict = Clear | Held(gate: Gate) | Unreadable(field: string)

  const GATE_FIELDS: seq<string> := [
    "_hasWithdrawn", "_busy", "_stakes", "_debt", "_lockedInOrders", "_pendingPlaceBuyLock",
    "_pendingBatchBuyLock", "_openOrderCount", "_restingInf", "_pendingInf", "_liveDeals"]

  function GateField(g: Gate): (s: string) {
    match g
    case HasWithdrawn => "_hasWithdrawn"
    case Busy(_) => "_busy"
    case Stakes(_) => "_stakes"
    case Debt(_) => "_debt"
    case LockedInOrders(_, _) => "_lockedInOrders"
    case PendingPlaceBuyLock(_) => "_pendingPlaceBuyLock"
    case PendingBatchBuyLock(_) => "_pendingBatchBuyLock"
    case OpenOrders(_) => "_openOrderCount"
    case RestingInference(_) => "_restingInf"
    case PendingInference(_) => "_pendingInf"
    case LiveDeals(_) => "_liveDeals"
  }

  function ExitCodeOf(g: Gate): (code: nat) {
    match g
    case HasWithdrawn => 151
    case Busy(_) => 121
    case Stakes(_) => 121
    case Debt(_) => 150
    case LockedInOrders(_, _) => 144
    case PendingPlaceBuyLock(_) => 144
    case PendingBatchBuyLock(_) => 144
    case OpenOrders(_) => 167
    case RestingInference(_) => 167
    case PendingInference(_) => 167
    case LiveDeals(_) => 167
  }

  // ------------------------------------------------------------------ the readers

  /** An unsigned integer: a number, or a decimal or `0x` text. */
  function ReadUint(v: Json): (r: Option<nat>)
    ensures r.Some? ==> r.value <= U128_MAX
  {
    if AsU64(v).Some? then AsU64(v)
    else if v.Str? then
      var s := Trim(v.s);
      var hex := HexBody(s);
      if hex.Some? then ParseUnsigned(hex.value, 16, U128_MAX) else ParseUnsigned(s, 10, U128_MAX)
    else None
  }

  function StorageUint(fields: Json, name: string): (r: Option<nat>) {
    var v := Get(fields, name);
    if v.None? then None else ReadUint(v.value)
  }

  /** The size of a map, rendered as an object or as an array of rows. */
  function StorageMapLen(fields: Json, name: string): (r: Option<nat>) {
    match Get(fields, name)
    case Some(Obj(entries)) => Some(Length(entries))
    case Some(Arr(entries)) => Some(Length(entries))
    case _ => None
  }

  function Either(a: Option<Json>, b: Option<Json>): Option<Json> {
    if a.Some? then a else b
  }

  function ReadRow(key: Option<Json>, value: Option<Json>): (r: Option<(nat, nat)>) {
    if key.None? || value.None? then None
    else
      var id, locked := ReadUint(key.value), ReadUint(value.value);
      if id.None? || id.value > U32_MAX || locked.None? then None else Some((id.value, locked.value))
  }

  function EntryRow(entry: Json): (r: Option<(nat, nat)>) {
    match entry
    case Obj(_) =>
      ReadRow(Either(Get(entry, "key"), Get(entry, "0")), Either(Get(entry, "value"), Get(entry, "1")))
    case Arr(Cons(key, Cons(value, Nil))) => ReadRow(Some(key), Some(value))
    case _ => None
  }

  function FieldRows(fields: List<Field>): (r: Option<List<(nat, nat)>>) {
    if fields.Nil? then Some(Nil)
    else
      var row := ReadRow(Some(Str(fields.head.key)), Some(fields.head.value));
      if row.None? then None
      else
        var rest := FieldRows(fields.tail);
        if rest.None? then None else Some(Cons(row.value, rest.value))
  }

  function ItemRows(items: List<Json>): (r: Option<List<(nat, nat)>>) {
    if items.Nil? then Some(Nil)
    else
      var row := EntryRow(items.head);
      if row.None? then None
      else
        var rest := ItemRows(items.tail);
        if rest.None? then None else Some(Cons(row.value, rest.value))
  }

  /** The `_lockedInOrders` entries; one that cannot be read makes the field unreadable. */
  function LockedRows(fields: Json): (r: Option<List<(nat, nat)>>) {
    match Get(fields, "_lockedInOrders")
    case Some(Obj(entries)) => FieldRows(entries)
    case Some(Arr(entries)) => ItemRows(entries)
    case _ => None
  }

  function ReadBool(v: Json): (r: Option<bool>) {
    match v
    case Bool(b) => Some(b)
    case Str(s) =>
      var t := Lower(Trim(s));
      if t == "true" || t == "1" then Some(true)
      else if t == "false" || t == "0" then Some(false)
      else None
    case _ => None
  }

  /** The `_busy` latch, an optional address. An object without a usable value reads as not busy. */
  function ReadBusy(v: Json): (r: Option<Option<string>>) {
    match v
    case Null => Some(None)
    case Str(s) => if Trim(s) == [] then None else Some(Some(Trim(s)))
    case Obj(_) =>
      var content := Either(Get(v, "value"), Get(v, "0"));
      if content.Some? && content.value.Str? && Trim(content.value.s) != []
      then Some(Some(Trim(content.value.s))) else Some(None)
    case _ => None
  }

  function FirstLocked(rows: List<(nat, nat)>): (r: Option<(nat, nat)>) {
    if rows.Nil? then None
    else if rows.head.1 != 0 then Some(rows.head)
    else FirstLocked(rows.tail)
  }

  /** `u32::try_from(n).unwrap_or(u32::MAX)`. */
  function SaturatedU32(n: nat): (r: nat) {
    if n <= U32_MAX then n else U32_MAX
  }

  /** A count is told as it is, up to the largest `u32`. */
  lemma SaturatedExactly(n: nat, x: nat)
    ensures x <= SaturatedU32(n) <==> x <= n && x <= U32_MAX
  {
  }

  /** `note_withdraw_gate_from_storage`. */
  function ReadGates(j: Json): (r: Verdict) {
    var withdrawnField := Get(j, "_hasWithdrawn");
    var withdrawn := if withdrawnField.None? then None else ReadBool(withdrawnField.value);
    if withdrawn.None? then Unreadable("_hasWithdrawn")
    else if withdrawn.value then Held(HasWithdrawn)
    else
    var busyField := Get(j, "_busy");
    var busy := if busyField.None? then None else ReadBusy(busyField.value);
    if busy.None? then Unreadable("_busy")
    else if busy.value.Some? then Held(Busy(busy.value.value))
    else
    var stakes := StorageMapLen(j, "_stakes");
    if stakes.None? then Unreadable("_stakes")
    else if stakes.value > 0 then Held(Stakes(stakes.value))
    else
    var debt := StorageUint(j, "_debt");
    if debt.None? then Unreadable("_debt")
    else if debt.value != 0 then Held(Debt(debt.value))
    else
    var rows := LockedRows(j);
    if rows.None? then Unreadable("_lockedInOrders")
    else if FirstLocked(rows.value).Some? then
      var row := FirstLocked(rows.value).value;
      Held(LockedInOrders(row.0, row.1))
    else ReadOrderGates(j)
  }

  /** The second half of the cascade: the buy locks, the open orders and the inference maps. */
  function ReadOrderGates(j: Json): (r: Verdict) {
    var place := StorageUint(j, "_pendingPlaceBuyLock");
    if place.None? then Unreadable("_pendingPlaceBuyLock")
    else if place.value != 0 then Held(PendingPlaceBuyLock(place.value))
    else
    var batch := StorageUint(j, "_pendingBatchBuyLock");
    if batch.None? then Unreadable("_pendingBatchBuyLock")
    else if batch.value != 0 then Held(PendingBatchBuyLock(batch.value))
    else
    var open := StorageUint(j, "_openOrderCount");
    if open.None? then Unreadable("_openOrderCount")
    else if open.value != 0 then Held(OpenOrders(SaturatedU32(open.value)))
    else
    var resting := StorageMapLen(j, "_restingInf");
    if resting.None? then Unreadable("_restingInf")
    else if resting.value > 0 then Held(RestingInference(resting.value))
    else
    var pending := StorageMapLen(j, "_pendingInf");
    if pending.None? then Unreadable("_pendingInf")
    else if pending.value > 0 then Held(PendingInference(pending.value))
    else
    var live := StorageMapLen(j, "_liveDeals");
    if live.None? then Unreadable("_liveDeals")
    else if live.value > 0 then Held(LiveDeals(live.value))
    else Clear
  }

  // ------------------------------------------------------------------ the contract

  /** What the contract itself holds. The map fields appear by their sizes, except
      `_lockedInOrders`, whose amounts per token type matter. */
  datatype Note = Note(
    hasWithdrawn: bool,
    busy: Option<string>,
    stakes: nat,
    debt: nat,
    locked: map<nat, nat>,
    placeLock: nat,
    batchLock: nat,
    openOrders: nat,
    resting: nat,
    pending: nat,
    live: nat)

  predicate HoldsLock(locked: map<nat, nat>) {
    exists t :: t in locked && locked[t] != 0
  }

  /** The `require`s of `withdrawTokens`, in order: whether the `k`-th one stops the call. The fifth is
      a loop that asks of each token type that nothing is locked. */
  predicate Stops(note: Note, k: nat)
    requires k < 11
  {
    match k
    case 0 => note.hasWithdrawn
    case 1 => note.busy.Some?
    case 2 => note.stakes > 0
    case 3 => note.debt != 0
    case 4 => HoldsLock(note.locked)
    case 5 => note.placeLock != 0
    case 6 => note.batchLock != 0
    case 7 => note.openOrders != 0
    case 8 => note.resting > 0
    case 9 => note.pending > 0
    case _ => note.live > 0
  }

  /** The gate tells what the `k`-th `require` stopped at: that field, with what the note holds in it.
      Of several locks it names one. */
  predicate Names(gate: Gate, note: Note, k: nat)
    requires k < 11
  {
    match k
    case 0 => gate == HasWithdrawn
    case 1 => note.busy.Some? && gate == Busy(note.busy.value)
    case 2 => gate == Stakes(note.stakes)
    case 3 => gate == Debt(note.debt)
    case 4 =>
      gate.LockedInOrders? && gate.tokenType in note.locked && note.locked[gate.tokenType] == gate.locked != 0
    case 5 => gate == PendingPlaceBuyLock(note.placeLock)
    case 6 => gate == PendingBatchBuyLock(note.batchLock)
    case 7 => gate == OpenOrders(SaturatedU32(note.openOrders))
    case 8 => gate == RestingInference(note.resting)
    case 9 => gate == PendingInference(note.pending)
    case _ => gate == LiveDeals(note.live)
  }

  /** The error each `require` raises: state, busy, busy, debt, three balances, four orders. */
  const REQUIRE_CODES: seq<nat> := [151, 121, 121, 150, 144, 144, 144, 167, 167, 167, 167]

  /** The first `require` from the `k`-th on that stops the call, if any. */
  function FirstStop(note: Note, k: nat): (r: Option<nat>)
    requires k <= 11
    ensures r.Some? ==> k <= r.value < 11 && Stops(note, r.value)
    ensures forall i :: k <= i < (if r.Some? then r.value else 11) ==> !Stops(note, i)
    decreases 11 - k
  {
    if k == 11 then None else if Stops(note, k) then Some(k) else FirstStop(note, k + 1)
  }

  // ------------------------------------------------------------------ how storage renders a note

  /** A `+`-or-not digit string that denotes `n`. */
  predicate Numeral(s: string, radix: nat, n: nat) {
    var d := if s != [] && s[0] == '+' then s[1..] else s;
    d != [] && AllDigits(d, radix) && Value(d, radix) == n && n <= U128_MAX
  }

  /** Decimal, or hexadecimal behind `0x`. */
  predicate Spells(s: string, n: nat) {
    if HexBody(s).Some? then Numeral(HexBody(s).value, 16, n) else Numeral(s, 10, n)
  }

  ghost predicate RendersUint(v: Json, n: nat) {
    || (v == Int(n) && n <= U64_MAX)
    || (v.Str? && exists body :: Around(v.s, body) && Spells(body, n))
  }

  ghost predicate RendersRow(key: Option<Json>, value: Option<Json>, row: (nat, nat)) {
    key.Some? && value.Some? && RendersUint(key.value, row.0) && row.0 <= U32_MAX && RendersUint(value.value, row.1)
  }

  /** A row of a map rendered as an array: a pair, or an object with named or numbered halves. */
  ghost predicate RendersEntry(entry: Json, row: (nat, nat)) {
    match entry
    case Obj(_) =>
      RendersRow(Either(Get(entry, "key"), Get(entry, "0")), Either(Get(entry, "value"), Get(entry, "1")), row)
    case Arr(Cons(key, Cons(value, Nil))) => RendersRow(Some(key), Some(value), row)
    case _ => false
  }

  ghost predicate RendersFields(fields: List<Field>, rows: List<(nat, nat)>) {
    match fields
    case Nil => rows.Nil?
    case Cons(field, rest) =>
      rows.Cons? && RendersRow(Some(Str(field.key)), Some(field.value), rows.head) && RendersFields(rest, rows.tail)
  }

  ghost predicate RendersItems(items: List<Json>, rows: List<(nat, nat)>) {
    match items
    case Nil => rows.Nil?
    case Cons(entry, rest) => rows.Cons? && RendersEntry(entry, rows.head) && RendersItems(rest, rows.tail)
  }

  ghost predicate RendersRows(v: Json, rows: List<(nat, nat)>) {
    (v.Obj? && RendersFields(v.fields, rows)) || (v.Arr? && RendersItems(v.items, rows))
  }

  predicate Has(rows: List<(nat, nat)>, t: nat, n: nat) {
    rows.Cons? && (rows.head == (t, n) || Has(rows.tail, t, n))
  }

  /** The rows are the entries of the map, in any order. */
  ghost predicate ListsLocks(rows: List<(nat, nat)>, locked: map<nat, nat>) {
    forall t: nat, n: nat :: Has(rows, t, n) <==> t in locked && locked[t] == n
  }

  predicate SpellsBool(s: string, b: bool) {
    Trimmed(s) && (if b then Lower(s) == "true" || Lower(s) == "1" else Lower(s) == "false" || Lower(s) == "0")
  }

  ghost predicate RendersBool(v: Json, b: bool) {
    || v == Bool(b)
    || (v.Str? && exists body :: Around(v.s, body) && SpellsBool(body, b))
  }

  /** An address, plain or inside an object; none is `null`, plain or inside an object. */
  ghost predicate RendersBusy(v: Json, busy: Option<string>) {
    var content := if v.Obj? then Either(Get(v, "value"), Get(v, "0")) else Some(v);
    content.Some? &&
    match busy
    case None => content.value == Null
    case Some(address) =>
      content.value.Str? && address != [] && Trimmed(address) && Around(content.value.s, address)
  }

  predicate RendersMap(v: Json, size: nat) {
    (v.Obj? && Length(v.fields) == size) || (v.Arr? && Length(v.items) == size)
  }

  /** The `k`-th gate field of `j` renders that part of the note. */
  ghost predicate Renders(j: Json, k: nat, note: Note)
    requires k < 11
  {
    var v := Get(j, GATE_FIELDS[k]);
    v.Some? &&
    match k
    case 0 => RendersBool(v.value, note.hasWithdrawn)
    case 1 => RendersBusy(v.value, note.busy)
    case 2 => RendersMap(v.value, note.stakes)
    case 3 => RendersUint(v.value, note.debt)
    case 4 => exists rows :: RendersRows(v.value, rows) && ListsLocks(rows, note.locked)
    case 5 => RendersUint(v.value, note.placeLock)
    case 6 => RendersUint(v.value, note.batchLock)
    case 7 => RendersUint(v.value, note.openOrders)
    case 8 => RendersMap(v.value, note.resting)
    case 9 => RendersMap(v.value, note.pending)
    case _ => RendersMap(v.value, note.live)
  }

  // ------------------------------------------------------------------ each reader reads exactly its renderings

  lemma NumeralEnds(s: string, radix: nat, n: nat)
    requires Numeral(s, radix, n)
    ensures s != [] && !IsSpace(s[0]) && !IsSpace(s[|s| - 1])
  {
    if s[0] == '+' {
      assert s[1..][|s| - 2] == s[|s| - 1];
    }
  }

  lemma SpellsTrimmed(s: string, n: nat)
    requires Spells(s, n)
    ensures s != [] && Trimmed(s)
  {
    if HexBody(s).Some? {
      NumeralEnds(s[2..], 16, n);
    } else {
      NumeralEnds(s, 10, n);
    }
  }

  lemma ReadUintExactly(v: Json, n: nat)
    ensures ReadUint(v) == Some(n) <==> RendersUint(v, n)
  {
    if v.Str? {
      if ReadUint(v) == Some(n) {
        TrimIsAround(v.s);
        assert Spells(Trim(v.s), n);
      }
      if RendersUint(v, n) {
        var body :| Around(v.s, body) && Spells(body, n);
        SpellsTrimmed(body, n);
        AroundExactly(v.s, body);
      }
    }
  }

  lemma ReadRowExactly(key: Option<Json>, value: Option<Json>, row: (nat, nat))
    ensures ReadRow(key, value) == Some(row) <==> RendersRow(key, value, row)
  {
    if key.Some? && value.Some? {
      ReadUintExactly(key.value, row.0);
      ReadUintExactly(value.value, row.1);
    }
  }

  lemma EntryRowExactly(entry: Json, row: (nat, nat))
    ensures EntryRow(entry) == Some(row) <==> RendersEntry(entry, row)
  {
    match entry
    case Obj(_) =>
      ReadRowExactly(Either(Get(entry, "key"), Get(entry, "0")), Either(Get(entry, "value"), Get(entry, "1")), row);
    case Arr(Cons(key, Cons(value, Nil))) => ReadRowExactly(Some(key), Some(value), row);
    case _ =>
  }

  lemma {:induction false} FieldRowsExactly(fields: List<Field>, rows: List<(nat, nat)>)
    ensures FieldRows(fields) == Some(rows) <==> RendersFields(fields, rows)
  {
    if fields.Cons? && rows.Cons? {
      ReadRowExactly(Some(Str(fields.head.key)), Some(fields.head.value), rows.head);
      FieldRowsExactly(fields.tail, rows.tail);
    }
  }

  lemma {:induction false} ItemRowsExactly(items: List<Json>, rows: List<(nat, nat)>)
    ensures ItemRows(items) == Some(rows) <==> RendersItems(items, rows)
  {
    if items.Cons? && rows.Cons? {
      EntryRowExactly(items.head, rows.head);
      ItemRowsExactly(items.tail, rows.tail);
    }
  }

  lemma ReadBoolExactly(v: Json, b: bool)
    ensures ReadBool(v) == Some(b) <==> RendersBool(v, b)
  {
    if v.Str? {
      if ReadBool(v) == Some(b) {
        TrimIsAround(v.s);
        assert SpellsBool(Trim(v.s), b);
      }
      if RendersBool(v, b) {
        var body :| Around(v.s, body) && SpellsBool(body, b);
        AroundExactly(v.s, body);
      }
    }
  }

  /** An object whose content is neither `null` nor a non-blank text: the rendering of nothing, which
      the reader nevertheless takes for a free latch. */
  predicate BusyUnusable(v: Json) {
    v.Obj? &&
    var content := Either(Get(v, "value"), Get(v, "0"));
    !(content.Some? && (content.value == Null || (content.value.Str? && Trim(content.value.s) != [])))
  }

  lemma ReadBusyExactly(v: Json, busy: Option<string>)
    ensures ReadBusy(v) == Some(busy) <==> RendersBusy(v, busy) || (busy.None? && BusyUnusable(v))
    ensures BusyUnusable(v) ==> !RendersBusy(v, busy)
  {
    var content := if v.Obj? then Either(Get(v, "value"), Get(v, "0")) else Some(v);
    if content.Some? && content.value.Str? {
      TrimIsAround(content.value.s);
      if busy.Some? && RendersBusy(v, busy) {
        AroundExactly(content.value.s, busy.value);
      }
    }
  }

  // ------------------------------------------------------------------ rows and the map they list

  /** Two rows of one token type that differ: no map has both. */
  ghost predicate Conflict(rows: List<(nat, nat)>) {
    exists t: nat, n: nat, m: nat :: n != m && Has(rows, t, n) && Has(rows, t, m)
  }

  /** The map the rows list, a lock before a zero where they disagree. */
  function MapOf(rows: List<(nat, nat)>): (locked: map<nat, nat>) {
    if rows.Nil? then map[]
    else
      var rest := MapOf(rows.tail);
      if rows.head.0 in rest && rows.head.1 == 0 then rest else rest[rows.head.0 := rows.head.1]
  }

  lemma {:induction false} MapOfRows(rows: List<(nat, nat)>, t: nat)
    ensures t in MapOf(rows) ==> Has(rows, t, MapOf(rows)[t])
    ensures (exists n: nat :: Has(rows, t, n)) ==> t in MapOf(rows)
  {
    if rows.Cons? {
      MapOfRows(rows.tail, t);
      if n: nat :| Has(rows, t, n) {
        assert rows.head == (t, n) || Has(rows.tail, t, n);
      }
    }
  }

  /** Rows list a map exactly when they do not conflict. */
  lemma ListsExactly(rows: List<(nat, nat)>)
    ensures ListsLocks(rows, MapOf(rows)) <==> !Conflict(rows)
  {
    if !Conflict(rows) {
      forall t: nat, n: nat
        ensures Has(rows, t, n) <==> t in MapOf(rows) && MapOf(rows)[t] == n
      {
        MapOfRows(rows, t);
      }
    }
  }

  lemma ListedDoesNotConflict(rows: List<(nat, nat)>, locked: map<nat, nat>)
    requires ListsLocks(rows, locked)
    ensures !Conflict(rows)
  {
  }

  lemma {:induction false} FirstLockedHas(rows: List<(nat, nat)>)
    ensures var r := FirstLocked(rows);
            if r.Some? then Has(rows, r.value.0, r.value.1) && r.value.1 != 0
            else forall t: nat, n: nat :: Has(rows, t, n) ==> n == 0
  {
    if rows.Cons? {
      FirstLockedHas(rows.tail);
    }
  }

  lemma {:induction false} FirstLockedInMap(rows: List<(nat, nat)>)
    requires FirstLocked(rows).Some?
    ensures var r := FirstLocked(rows).value; r.0 in MapOf(rows) && MapOf(rows)[r.0] == r.1
  {
    if rows.head.1 == 0 {
      FirstLockedInMap(rows.tail);
    }
  }

  /** The row named is an entry of any map the rows list, and none is named exactly when that map
      holds no lock. */
  lemma LockNamed(rows: List<(nat, nat)>, locked: map<nat, nat>)
    requires ListsLocks(rows, locked)
    ensures FirstLocked(rows).Some? <==> HoldsLock(locked)
    ensures var r := FirstLocked(rows);
            r.Some? ==> r.value.0 in locked && locked[r.value.0] == r.value.1 != 0
  {
    FirstLockedHas(rows);
    if t :| t in locked && locked[t] != 0 {
      assert Has(rows, t, locked[t]);
    }
  }

  predicate Ascending(rows: List<(nat, nat)>) {
    rows.Nil? || rows.tail.Nil? || (rows.head.0 < rows.tail.head.0 && Ascending(rows.tail))
  }

  lemma {:induction false} AscendingAbove(rows: List<(nat, nat)>, t: nat, n: nat)
    requires Ascending(rows) && Has(rows, t, n)
    ensures rows.head.0 <= t
  {
    if rows.head != (t, n) {
      AscendingAbove(rows.tail, t, n);
    }
  }

  /** In ascending rows the row named is the one the contract's loop meets first. */
  lemma {:induction false} LeastLockNamed(rows: List<(nat, nat)>, t: nat, n: nat)
    requires Ascending(rows) && Has(rows, t, n) && n != 0 && FirstLocked(rows).Some?
    ensures FirstLocked(rows).value.0 <= t
  {
    AscendingAbove(rows, t, n);
    if rows.head.1 == 0 {
      LeastLockNamed(rows.tail, t, n);
    }
  }
}
