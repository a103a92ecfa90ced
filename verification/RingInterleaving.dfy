/**
 The ring buffer shared by two threads, one inserting and one removing. Neither operation is atomic:
 the store or load, the pointer advance and the count update are separate steps that the other thread,
 or an interrupt, may come between. Only the count is read and updated with interrupts disabled.
 */
module RingInterleaving {
  import opened Bytes
  import opened RingBuffer

  /** How far the inserter has got with the byte it is inserting. */
  datatype Inserter = InsertIdle | Storing(data: byte) | Stored(data: byte) | InAdvanced(data: byte)

  /** How far the remover has got. */
  datatype Remover = RemoveIdle | Loading | Loaded | OutAdvanced

  /** The buffer, where its two threads stand, and all bytes inserted and removed so far. */
  datatype Ring = Ring(slots: seq<byte>, inPos: nat, outPos: nat, count: nat,
                       inserter: Inserter, remover: Remover, inserted: seq<byte>, removed: seq<byte>)

  datatype Step =
    | BeginInsert(data: byte)   // RingBuffer_IsFull was seen to be false
    | Store
    | AdvanceIn
    | CountUp
    | BeginRemove               // RingBuffer_IsEmpty was seen to be false
    | Load
    | AdvanceOut
    | CountDown

  predicate Enabled(r: Ring, s: Step) {
    match s
    case BeginInsert(_) => r.inserter == InsertIdle && r.count < |r.slots|
    case Store => r.inserter.Storing? && r.inPos < |r.slots|
    case AdvanceIn => r.inserter.Stored?
    case CountUp => r.inserter.InAdvanced?
    case BeginRemove => r.remover == RemoveIdle && r.count > 0
    case Load => r.remover == Loading && r.outPos < |r.slots|
    case AdvanceOut => r.remover == Loaded
    case CountDown => r.remover == OutAdvanced && r.count > 0
  }

  function Next(r: Ring, s: Step): Ring
    requires Enabled(r, s)
  {
    match s
    case BeginInsert(d) => r.(inserter := Storing(d))
    case Store => r.(slots := r.slots[r.inPos := r.inserter.data], inserter := Stored(r.inserter.data))
    case AdvanceIn =>
      r.(inPos := if r.inPos + 1 == |r.slots| then 0 else r.inPos + 1, inserter := InAdvanced(r.inserter.data))
    case CountUp => r.(count := r.count + 1, inserter := InsertIdle, inserted := r.inserted + [r.inserter.data])
    case BeginRemove => r.(remover := Loading)
    case Load => r.(removed := r.removed + [r.slots[r.outPos]], remover := Loaded)
    case AdvanceOut => r.(outPos := if r.outPos + 1 == |r.slots| then 0 else r.outPos + 1, remover := OutAdvanced)
    case CountDown => r.(count := r.count - 1, remover := RemoveIdle)
  }

  function Init(slots: seq<byte>): Ring {
    Ring(slots, 0, 0, 0, InsertIdle, RemoveIdle, [], [])
  }

  // ---------------------------------------------------------------- the invariant

  /** Slot of the oldest byte not yet removed. */
  function Front(r: Ring): nat {
    if r.remover == Loaded then Wrap(r.outPos + 1, |r.slots|) else r.outPos
  }

  /** Number of bytes inserted but not yet removed. */
  function Unread(r: Ring): int {
    |r.inserted| - |r.removed|
  }

  /** Slot of the `j`-th unread byte. */
  function SlotOf(r: Ring, j: nat): nat {
    Wrap(Front(r) + j, |r.slots|)
  }

  /** Slot behind the last inserted byte: where the inserter stores, or has stored, its byte. */
  function Back(r: Ring): nat
    requires 0 <= Unread(r)
  {
    SlotOf(r, Unread(r))
  }

  /** Pointers and count are where the unread bytes say they should be. */
  predicate Pointers(r: Ring) {
    var n := |r.slots|;
    && 0 < n && r.inPos < n && r.outPos < n
    && 0 <= Unread(r) <= n
    // the count lags behind a removal in progress
    && r.count == Unread(r) + (if r.remover == Loaded || r.remover == OutAdvanced then 1 else 0)
    && (r.inserter != InsertIdle ==> Unread(r) < n)
    && (r.remover != RemoveIdle ==> r.count > 0)
    // the in pointer is at the back, or one past it
    && r.inPos == (if r.inserter.InAdvanced? then Wrap(Back(r) + 1, n) else Back(r))
  }

  /** What was removed was inserted, what is left is in the slots, in order, and so is a byte just stored. */
  predicate InSlots(r: Ring)
    requires Pointers(r)
  {
    && (r.inserter.Stored? || r.inserter.InAdvanced? ==> r.slots[Back(r)] == r.inserter.data)
    && r.removed <= r.inserted
    && Window(r.slots, Front(r), Unread(r)) == r.inserted[|r.removed|..]
  }

  /** The buffer is a queue of the unread bytes, whatever its threads are in the middle of. */
  predicate Queue(r: Ring) {
    Pointers(r) && InSlots(r)
  }

  /** With an inserter that looks before it inserts, the count never exceeds the size either. */
  ghost predicate Inv(r: Ring) {
    && Queue(r)
    && r.count <= |r.slots|
    && (r.inserter != InsertIdle ==> r.count < |r.slots|)
  }

  lemma InitHolds(slots: seq<byte>)
    requires slots != []
    ensures Inv(Init(slots))
  {
  }

  /** The slot the inserter stores to holds no unread byte. */
  lemma StoreIsSafe(r: Ring)
    requires Queue(r) && r.inserter.Storing?
    ensures forall j :: 0 <= j < Unread(r) ==> SlotOf(r, j) != r.inPos
  {
  }

  lemma InserterKeepsPointers(r: Ring, s: Step)
    requires Pointers(r) && Enabled(r, s) && (s.BeginInsert? || s.Store? || s.AdvanceIn? || s.CountUp?)
    ensures Pointers(Next(r, s))
  {
    assert Front(Next(r, s)) == Front(r);
  }

  lemma LoadKeepsPointers(r: Ring)
    requires Pointers(r) && Enabled(r, Load)
    ensures Pointers(Next(r, Load))
  {
    assert Back(Next(r, Load)) == Back(r);
  }

  lemma RemoverKeepsPointers(r: Ring, s: Step)
    requires Pointers(r) && Enabled(r, s) && (s.BeginRemove? || s.AdvanceOut? || s.CountDown?)
    ensures Pointers(Next(r, s))
  {
    assert Front(Next(r, s)) == Front(r);
  }

  /** Pointers and count stay right in every step, whatever is in the slots. */
  lemma StepKeepsPointers(r: Ring, s: Step)
    requires Pointers(r) && Enabled(r, s)
    ensures Pointers(Next(r, s))
  {
    match s
    case Load => LoadKeepsPointers(r);
    case BeginRemove | AdvanceOut | CountDown => RemoverKeepsPointers(r, s);
    case _ => InserterKeepsPointers(r, s);
  }

  /** Storing to a slot outside the window leaves the window alone. */
  lemma WindowElsewhere(r: Ring, data: byte)
    requires Queue(r) && r.inserter.Storing?
    ensures Window(r.slots[r.inPos := data], Front(r), Unread(r)) == Window(r.slots, Front(r), Unread(r))
  {
    StoreIsSafe(r);
    var slots := r.slots[r.inPos := data];
    forall j | 0 <= j < Unread(r)
      ensures Window(slots, Front(r), Unread(r))[j] == Window(r.slots, Front(r), Unread(r))[j]
    {
      assert SlotOf(r, j) != r.inPos;
    }
  }

  lemma StoreKeeps(r: Ring)
    requires Queue(r) && Enabled(r, Store)
    ensures Queue(Next(r, Store))
  {
    StepKeepsPointers(r, Store);
    WindowElsewhere(r, r.inserter.data);
  }

  lemma CountUpKeeps(r: Ring)
    requires Queue(r) && Enabled(r, CountUp)
    ensures Queue(Next(r, CountUp))
  {
    InserterKeepsPointers(r, CountUp);
    WindowAppend(r.slots, Front(r), Unread(r), Back(r), r.inserter.data);
    assert r.slots[Back(r) := r.inserter.data] == r.slots;
  }

  lemma LoadKeeps(r: Ring)
    requires Queue(r) && Enabled(r, Load)
    ensures Queue(Next(r, Load)) && Next(r, Load).removed == r.removed + [r.inserted[|r.removed|]]
  {
    LoadKeepsPointers(r);
    WindowTail(r.slots, r.outPos, Unread(r));
    var w, w' := r.inserted[|r.removed|..], r.inserted[|r.removed| + 1..];
    assert r.slots[r.outPos] == w[0] && w[1..] == w';
    assert Back(Next(r, Load)) == Back(r);
  }

  /** The steps that move no byte: the same slots are unread before and after. */
  lemma OtherStepKeeps(r: Ring, s: Step)
    requires Queue(r) && Enabled(r, s) && s != Store && s != CountUp && s != Load
    ensures Queue(Next(r, s))
  {
    StepKeepsPointers(r, s);
    var r' := Next(r, s);
    assert Front(r') == Front(r) && Unread(r') == Unread(r) && r'.slots == r.slots;
    assert Back(r') == Back(r);
  }

  /** Every step of either thread keeps the queue. */
  lemma StepKeeps(r: Ring, s: Step)
    requires Queue(r) && Enabled(r, s)
    ensures Queue(Next(r, s))
  {
    if s == Store {
      StoreKeeps(r);
    } else if s == CountUp {
      CountUpKeeps(r);
    } else if s == Load {
      LoadKeeps(r);
    } else {
      OtherStepKeeps(r, s);
    }
  }

  // ---------------------------------------------------------------- every interleaving

  /** A run: any sequence of steps of the two threads, each possible where it is taken. */
  ghost predicate Run(states: seq<Ring>, steps: seq<Step>) {
    && |states| == |steps| + 1
    && states[0].slots != [] && states[0] == Init(states[0].slots)
    && forall i :: 0 <= i < |steps| ==> Enabled(states[i], steps[i]) && states[i + 1] == Next(states[i], steps[i])
  }

  /** The bytes whose insertion begins among the first `k` steps. */
  function Begun(steps: seq<Step>, k: nat): seq<byte>
    requires k <= |steps|
  {
    if k == 0 then [] else Begun(steps, k - 1) + match steps[k - 1] case BeginInsert(d) => [d] case _ => []
  }

  /** How many removals have loaded their byte. */
  function Loads(steps: seq<Step>, k: nat): nat
    requires k <= |steps|
  {
    if k == 0 then 0 else Loads(steps, k - 1) + if steps[k - 1] == Load then 1 else 0
  }

  /** The byte being inserted, if any. */
  function Underway(r: Ring): seq<byte> {
    if r.inserter == InsertIdle then [] else [r.inserter.data]
  }

  /** What is inserted is what insertions begin with, in order, and every removal takes one byte. */
  lemma {:induction false} HistoryInRun(states: seq<Ring>, steps: seq<Step>, k: nat)
    requires Run(states, steps) && k < |states|
    ensures states[k].inserted + Underway(states[k]) == Begun(steps, k) && |states[k].removed| == Loads(steps, k)
  {
    if k > 0 {
      HistoryInRun(states, steps, k - 1);
      assert Enabled(states[k - 1], steps[k - 1]) && states[k] == Next(states[k - 1], steps[k - 1]);
    }
  }

  lemma {:induction false} InvInEveryInterleaving(states: seq<Ring>, steps: seq<Step>, k: nat)
    requires Run(states, steps) && k < |states|
    ensures Inv(states[k])
  {
    if k == 0 {
      InitHolds(states[0].slots);
    } else {
      InvInEveryInterleaving(states, steps, k - 1);
      var r, s := states[k - 1], steps[k - 1];
      assert Enabled(r, s) && states[k] == Next(r, s);
      StepKeeps(r, s);
      hide Queue;
    }
  }

  /** At every point of every interleaving the removed bytes are a prefix of the inserted ones, never more
      than the buffer holds are outstanding, and no step stores over an unread byte. When both threads
      are idle, the buffer's contents are exactly the outstanding bytes. So what the removals have taken is the
      beginning of what the insertions were begun with, in order. */
  lemma FifoInEveryInterleaving(states: seq<Ring>, steps: seq<Step>, k: nat)
    requires Run(states, steps) && k < |states|
    ensures var r := states[k];
            && Inv(r)
            && r.removed <= r.inserted && r.count <= |r.slots|
            && r.inserted + Underway(r) == Begun(steps, k) && r.removed <= Begun(steps, k)
            && |r.removed| == Loads(steps, k)
            && (r.inserter == InsertIdle && r.remover == RemoveIdle ==>
                  Window(r.slots, r.outPos, r.count) == r.inserted[|r.removed|..])
            && (r.inserter.Storing? ==> forall j :: 0 <= j < Unread(r) ==> SlotOf(r, j) != r.inPos)
  {
    InvInEveryInterleaving(states, steps, k);
    HistoryInRun(states, steps, k);
    if states[k].inserter.Storing? { StoreIsSafe(states[k]); }
    var r := states[k];
    assert r.inserted <= r.inserted + Underway(r);
    hide Begun, Loads, Underway;
  }
}
