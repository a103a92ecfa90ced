/**
 The keypad: four rows are driven one at a time through a shift register, the four columns of the driven
 row are read and debounced, and key presses are reported.
 */
module Keypad {
  import opened Debounce

  const LOCKOUT := 0x40
  const LOOKUP := "2580147afedc369b"

  /** The column pins in one scan; a pressed key pulls its column low. */
  type Columns = s: seq<bool> | |s| == 4 witness [false, false, false, false]

  /** The keys held down, by row and column. */
  type Matrix = s: seq<Columns> | |s| == 4 witness seq(4, _ => [false, false, false, false])

  /** The columns that fire in a scan of a row, for the counters of its keys. */
  function Firing(counters: seq<nat>, pressed: Columns): (r: seq<bool>)
    requires |counters| == 4
    ensures |r| == 4 && forall c :: 0 <= c < 4 ==> r[c] == Tick(LOCKOUT, counters[c], pressed[c]).1
  {
    seq(4, c requires 0 <= c < 4 => Tick(LOCKOUT, counters[c], pressed[c]).1)
  }

  /** The counters of a row after a scan. */
  function NewCounters(counters: seq<nat>, pressed: Columns): (r: seq<nat>)
    requires |counters| == 4
    ensures |r| == 4 && forall c :: 0 <= c < 4 ==> r[c] == Tick(LOCKOUT, counters[c], pressed[c]).0
  {
    seq(4, c requires 0 <= c < 4 => Tick(LOCKOUT, counters[c], pressed[c]).0)
  }

  /** The character reported for the first `n` columns: of several keys that fire at once the one in the
      highest column, '\0' for none. */
  function Report(row: nat, fired: seq<bool>, n: nat): char
    requires row < 4 && n <= |fired| == 4
  {
    if n == 0 then '\0' else if fired[n - 1] then LOOKUP[4 * row + n - 1] else Report(row, fired, n - 1)
  }

  // ---------------------------------------------------------------- the shift register

  /** shiftreg_out: the low bits are the LEDs, the high ones drive the rows, low for the selected one. */
  function ShiftWord(leds: bv8, selector: bv8): bv8 {
    leds | (0xF0 & !selector)
  }

  /** set_led */
  function WithLed(leds: bv8, num: bv8, val: bv8): bv8 {
    if num < 3 then (leds & !(1 << num)) | ((if val == 0 then 1 else 0) << num) else leds
  }

  /** 0x10 shifted by the row. */
  function SelectorOf(row: nat): bv8
    requires row < 4
  {
    match row case 0 => 0x10 case 1 => 0x20 case 2 => 0x40 case _ => 0x80
  }

  /** Does the word drive this row low? */
  predicate Drives(word: bv8, row: nat)
    requires row < 4
  {
    word & (match row case 0 => 0x10 case 1 => 0x20 case 2 => 0x40 case _ => 0x80) == 0
  }

  /** An LED is lit by a low bit. */
  predicate Lit(leds: bv8, num: nat)
    requires num < 3
  {
    leds & (match num case 0 => 1 case 1 => 2 case _ => 4) == 0
  }

  /** Setting an LED lights it or not and leaves the others; the LEDs stay in the low three bits. */
  lemma LedSet(leds: bv8, num: bv8, val: bv8)
    requires leds & 0xF8 == 0
    ensures WithLed(leds, num, val) & 0xF8 == 0
    ensures forall b: nat :: b < 3 ==>
              (Lit(WithLed(leds, num, val), b) <==> if num == b as bv8 then val != 0 else Lit(leds, b))
  {
  }

  /** A key pulls its column low when it is held and its row is driven. */
  function Read(word: bv8, held: Matrix): (columns: Columns)
  {
    seq(4, c requires 0 <= c < 4 =>
      || (Drives(word, 0) && held[0][c]) || (Drives(word, 1) && held[1][c])
      || (Drives(word, 2) && held[2][c]) || (Drives(word, 3) && held[3][c]))
  }

  /** Whatever the LEDs show, the word drives exactly the selected row, so the columns read are those of
      that row. */
  lemma OneRowDriven(leds: bv8, row: nat, held: Matrix)
    requires leds & 0xF8 == 0 && row < 4
    ensures var word := ShiftWord(leds, SelectorOf(row));
            && (forall r :: 0 <= r < 4 ==> (Drives(word, r) <==> r == row))
            && word & 0x0F == leds && Read(word, held) == held[row]
  {
    var word := ShiftWord(leds, SelectorOf(row));
    assert Drives(word, 0) <==> row == 0;
    assert Drives(word, 1) <==> row == 1;
    assert Drives(word, 2) <==> row == 2;
    assert Drives(word, 3) <==> row == 3;
  }

  // ---------------------------------------------------------------- scanning

  /** The row to scan next and the counter of every key. */
  datatype State = State(row: nat, counters: seq<seq<nat>>) {
    ghost predicate Valid() {
      row < 4 && |counters| == 4 && forall r :: 0 <= r < 4 ==> |counters[r]| == 4
    }
  }

  /** A scan: the counters of the row take their samples, the others stay, and the next row follows. */
  function Scan(s: State, pressed: Columns): (t: State)
    requires s.Valid()
    ensures t.Valid()
  {
    State((s.row + 1) % 4, s.counters[s.row := NewCounters(s.counters[s.row], pressed)])
  }

  const START := State(0, [[0, 0, 0, 0], [0, 0, 0, 0], [0, 0, 0, 0], [0, 0, 0, 0]])

  class Scanner {
    var matrixSelector: bv8
    var row: nat
    const debouncing: array2<nat>

    constructor ()
      ensures Valid() && View() == START && fresh(debouncing)
    {
      matrixSelector, row := 0x10, 0;
      debouncing := new nat[4, 4]((_, _) => 0);
    }

    /** The selector is 0x10 shifted by the row. */
    ghost predicate Valid()
      reads this
    {
      && debouncing.Length0 == debouncing.Length1 == 4
      && row < 4 && matrixSelector == SelectorOf(row)
    }

    ghost function Row(r: nat): seq<nat>
      requires Valid() && r < 4
      reads this, debouncing
    {
      [debouncing[r, 0], debouncing[r, 1], debouncing[r, 2], debouncing[r, 3]]
    }

    ghost function View(): State
      requires Valid()
      reads this, debouncing
    {
      State(row, [Row(0), Row(1), Row(2), Row(3)])
    }

    /** One key of the current row. */
    method ScanKey(i: nat, pressed: bool) returns (fired: bool)
      requires Valid() && i < 4
      modifies debouncing
      ensures debouncing[row, i] == Tick(LOCKOUT, old(debouncing[row, i]), pressed).0
      ensures fired == Tick(LOCKOUT, old(debouncing[row, i]), pressed).1
      ensures forall r, c :: 0 <= r < 4 && 0 <= c < 4 && (r != row || c != i) ==>
                debouncing[r, c] == old(debouncing[r, c])
    {
      fired := false;
      if debouncing[row, i] <= 1 {
        if pressed {
          if debouncing[row, i] == 0 {
            fired := true;
            debouncing[row, i] := 0x40;
          }
        } else {
          debouncing[row, i] := 0;
        }
      } else {
        debouncing[row, i] := debouncing[row, i] - 1;
      }
    }

    /** The column loop of keypad_scan. */
    method ScanRow(pressed: Columns) returns (ret: char)
      requires Valid()
      modifies debouncing
      ensures ret == Report(row, Firing(old(Row(row)), pressed), 4)
      ensures forall c :: 0 <= c < 4 ==> debouncing[row, c] == Tick(LOCKOUT, old(debouncing[row, c]), pressed[c]).0
      ensures forall r, c :: 0 <= r < 4 && 0 <= c < 4 && r != row ==> debouncing[r, c] == old(debouncing[r, c])
    {
      ret := '\0';
      ghost var fired := Firing(Row(row), pressed);
      for i := 0 to 4
        invariant forall r, c :: 0 <= r < 4 && 0 <= c < 4 && (r != row || c >= i) ==>
                    debouncing[r, c] == old(debouncing[r, c])
        invariant forall c :: 0 <= c < i ==> debouncing[row, c] == Tick(LOCKOUT, old(debouncing[row, c]), pressed[c]).0
        invariant ret == Report(row, fired, i)
      {
        var f := ScanKey(i, pressed[i]);
        if f {
          ret := LOOKUP[row * 4 + i];
        }
      }
    }

    /** keypad_scan */
    method KeypadScan(pressed: Columns) returns (ret: char)
      requires Valid()
      modifies this, debouncing
      ensures Valid() && View() == Scan(old(View()), pressed)
      ensures ret == Report(old(row), Firing(old(Row(row)), pressed), 4)
    {
      hide Tick, Report;
      ret := ScanRow(pressed);
      assert Row(row) == NewCounters(old(Row(row)), pressed);
      assert forall r :: 0 <= r < 4 && r != row ==> Row(r) == old(Row(r));
      matrixSelector := matrixSelector << 1;
      row := row + 1;
      if matrixSelector == 0 {
        matrixSelector := 0x10;
        row := 0;
      }
    }
  }

  /** The panel: the keypad, the LEDs and the shift register that drives both. */
  class Panel {
    const keypad: Scanner
    var leds: bv8      // led_states
    var latch: bv8     // outputs of the shift register

    constructor (initial: bv8)
      ensures Valid() && keypad.View() == START && latch == initial && fresh(keypad) && fresh(keypad.debouncing)
      ensures forall b: nat :: b < 3 ==> !Lit(leds, b)
    {
      keypad := new Scanner();
      leds, latch := 0x07, initial;
    }

    ghost predicate Valid()
      reads this, keypad
    {
      keypad.Valid() && leds & 0xF8 == 0
    }

    /** The register drives the row that is scanned next. */
    ghost predicate Latched()
      requires Valid()
      reads this, keypad
    {
      exists l: bv8 :: l & 0xF8 == 0 && latch == ShiftWord(l, SelectorOf(keypad.row))
    }

    /** set_led */
    method SetLed(num: bv8, val: bv8)
      requires Valid()
      modifies this`leds
      ensures Valid()
      ensures leds == WithLed(old(leds), num, val)
    {
      if num < 3 {
        leds := leds & !(1 << num);
        leds := leds | ((if val == 0 then 1 else 0) << num);
      }
    }

    /** The keypad part of a frame: scan, then drive the next row. After the first frame every scan sees
        the keys of the row it scans. */
    method Frame(held: Matrix) returns (ret: char)
      requires Valid()
      modifies this`latch, keypad, keypad.debouncing
      ensures Valid() && Latched() && latch == ShiftWord(leds, SelectorOf(keypad.row))
      ensures var pressed := if old(Latched()) then held[old(keypad.row)] else Read(old(latch), held);
              && keypad.View() == Scan(old(keypad.View()), pressed)
              && ret == Report(old(keypad.row), Firing(old(keypad.Row(keypad.row)), pressed), 4)
    {
      if Latched() {
        var l: bv8 :| l & 0xF8 == 0 && latch == ShiftWord(l, SelectorOf(keypad.row));
        OneRowDriven(l, keypad.row, held);
      }
      ret := keypad.KeypadScan(Read(latch, held));
      latch := ShiftWord(leds, keypad.matrixSelector);
    }
  }

  // ---------------------------------------------------------------- whole traces

  function StateAt(trace: seq<Columns>, t: nat): (s: State)
    requires t <= |trace|
    ensures s.Valid()
  {
    if t == 0 then START else Scan(StateAt(trace, t - 1), trace[t - 1])
  }

  function Reported(trace: seq<Columns>, t: nat): char
    requires t < |trace|
  {
    var s := StateAt(trace, t);
    Report(s.row, Firing(s.counters[s.row], trace[t]), 4)
  }

  /** Number of scans of row `r` before scan `t`. */
  function Visits(r: nat, t: nat): nat {
    if t == 0 then 0 else Visits(r, t - 1) + if (t - 1) % 4 == r then 1 else 0
  }

  /** Visit `v` to row `r` is scan `4 * v + r`. */
  lemma {:induction false} VisitsCount(r: nat, t: nat)
    requires r < 4
    ensures 4 * Visits(r, t) == t - t % 4 + if t % 4 > r then 4 else 0
  {
    if t > 0 { VisitsCount(r, t - 1); }
  }

  lemma {:induction false} VisitsGrow(r: nat, t: nat, u: nat)
    requires t <= u
    ensures Visits(r, t) <= Visits(r, u)
    decreases u - t
  {
    if t < u { VisitsGrow(r, t, u - 1); }
  }

  /** What the visits to its row show of the key in row `r` and column `c`. */
  function Samples(trace: seq<Columns>, r: nat, c: nat): (s: seq<bool>)
    requires r < 4 && c < 4
    ensures |s| == Visits(r, |trace|)
  {
    seq(Visits(r, |trace|), v requires 0 <= v < Visits(r, |trace|) =>
      VisitsCount(r, |trace|);
      trace[4 * v + r][c])
  }

  /** The scan of a key's row is its next sample. */
  lemma SampleAt(trace: seq<Columns>, r: nat, c: nat, t: nat)
    requires r < 4 && c < 4 && t < |trace| && t % 4 == r
    ensures Visits(r, t) < Visits(r, |trace|) && Visits(r, t + 1) == Visits(r, t) + 1
    ensures Samples(trace, r, c)[Visits(r, t)] == trace[t][c]
  {
    VisitsGrow(r, t + 1, |trace|);
    VisitsCount(r, t);
  }

  /** One scan does to a key's counter what its sample says, and nothing when another row is scanned. */
  lemma KeyStep(s: State, pressed: Columns, r: nat, c: nat)
    requires s.Valid() && r < 4 && c < 4
    ensures Scan(s, pressed).counters[r][c] ==
              if s.row == r then Tick(LOCKOUT, s.counters[r][c], pressed[c]).0 else s.counters[r][c]
  {
  }

  lemma {:induction false} RowGoesRound(trace: seq<Columns>, t: nat)
    requires t <= |trace|
    ensures StateAt(trace, t).row == t % 4
  {
    if t > 0 { RowGoesRound(trace, t - 1); }
  }

  /** Every key's counter runs on the samples of its own key alone. */
  lemma {:induction false} KeysIndependent(trace: seq<Columns>, t: nat, r: nat, c: nat)
    requires t <= |trace| && r < 4 && c < 4
    ensures Visits(r, t) <= Visits(r, |trace|)
    ensures StateAt(trace, t).counters[r][c] == Counter(LOCKOUT, Samples(trace, r, c), Visits(r, t))
  {
    VisitsGrow(r, t, |trace|);
    if t > 0 {
      KeysIndependent(trace, t - 1, r, c);
      RowGoesRound(trace, t - 1);
      KeyStep(StateAt(trace, t - 1), trace[t - 1], r, c);
      if (t - 1) % 4 == r { SampleAt(trace, r, c, t - 1); }
    }
  }

  /** The key in column `c` of the row scanned at `t` is pressed anew: released in the visit before and not
      reported in the 64 visits before. */
  predicate Press(trace: seq<Columns>, t: nat, c: nat)
    requires t < |trace| && c < 4
  {
    var r := t % 4;
    Visits(r, t) < Visits(r, |trace|) && Pulse(64, Samples(trace, r, c), Visits(r, t))
  }

  lemma KeyFires(trace: seq<Columns>, t: nat, c: nat)
    requires t < |trace| && c < 4
    ensures var s := StateAt(trace, t); s.row == t % 4 && Firing(s.counters[s.row], trace[t])[c] == Press(trace, t, c)
  {
    var r := t % 4;
    RowGoesRound(trace, t);
    KeysIndependent(trace, t, r, c);
    SampleAt(trace, r, c, t);
    FiresOnPulses(LOCKOUT, Samples(trace, r, c), Visits(r, t));
  }

  /** What is reported for a row by the columns that fire. */
  lemma ReportIs(row: nat, fired: seq<bool>)
    requires row < 4 && |fired| == 4
    ensures forall c :: 0 <= c < 4 && fired[c] && (forall d :: c < d < 4 ==> !fired[d]) ==>
              Report(row, fired, 4) == "2580147afedc369b"[4 * row + c]
    ensures Report(row, fired, 4) == '\0' <==> forall c :: 0 <= c < 4 ==> !fired[c]
  {
    var r1, r2, r3 := Report(row, fired, 1), Report(row, fired, 2), Report(row, fired, 3);
    assert forall i :: 0 <= i < 16 ==> "2580147afedc369b"[i] != '\0';
    assert Report(row, fired, 0) == '\0';
    assert r1 == if fired[0] then LOOKUP[4 * row] else '\0';
    assert r2 == if fired[1] then LOOKUP[4 * row + 1] else r1;
    assert r3 == if fired[2] then LOOKUP[4 * row + 2] else r2;
  }

  /** Every scan of every trace: the character of the key is reported that is newly pressed in the highest column of
      the row, and nothing if and only if there is none. */
  lemma ReportExact(trace: seq<Columns>, t: nat)
    requires t < |trace|
    ensures forall c :: 0 <= c < 4 && Press(trace, t, c) && (forall d :: c < d < 4 ==> !Press(trace, t, d)) ==>
              Reported(trace, t) == "2580147afedc369b"[4 * (t % 4) + c]
    ensures Reported(trace, t) == '\0' <==> forall c :: 0 <= c < 4 ==> !Press(trace, t, c)
  {
    KeyFires(trace, t, 0);
    KeyFires(trace, t, 1);
    KeyFires(trace, t, 2);
    KeyFires(trace, t, 3);
    var s := StateAt(trace, t);
    var fired := Firing(s.counters[s.row], trace[t]);
    assert forall c :: 0 <= c < 4 ==> fired[c] == Press(trace, t, c);
    hide Press, Report;
    ReportIs(s.row, fired);
  }

  /** Two presses of a key are at least 260 scans apart, and the key is seen released in between: holding it
      reports it once. */
  lemma PressesApart(trace: seq<Columns>, t: nat, u: nat, c: nat)
    requires t < u < |trace| && t % 4 == u % 4 && c < 4 && Press(trace, t, c) && Press(trace, u, c)
    ensures u - t >= 260 && !trace[u - 4][c]
  {
    var r := t % 4;
    VisitsCount(r, t);
    VisitsCount(r, u);
    PulsesApart(LOCKOUT, Samples(trace, r, c), Visits(r, t), Visits(r, u));
    VisitsCount(r, u - 4);
    SampleAt(trace, r, c, u - 4);
  }

  /** The report identifies the key. */
  lemma ReportIdentifies(r: nat, c: nat, r': nat, c': nat)
    requires r < 4 && c < 4 && r' < 4 && c' < 4
    requires "2580147afedc369b"[4 * r + c] == "2580147afedc369b"[4 * r' + c']
    ensures r == r' && c == c'
  {
  }
}
