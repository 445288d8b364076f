/** The disk's registers as a guest finds them, and its interrupt line over any run (frontend/HardDisk.cpp). */
module DiskInterrupts {
  import opened Machine
  import opened Disk

  // ----- the command block registers

  /** Sector count, sector number and cylinder registers read back what was written; drive and head never do. */
  lemma RegisterReadsBack(h: Hdd, addr: word, val: byte)
    requires h.Valid() && 0x1f2 <= addr <= 0x1f6
    ensures var n := WriteByte(h, addr, val);
      && ReadByte(n, addr).0 == (if addr == 0x1f6 then 0 else val)
      && forall other: word :: other != addr ==> ReadByte(n, other).0 == ReadByte(h, other).0
  {
  }

  /** Every command takes over address and count; one that is neither a read nor a write does nothing else. */
  lemma CommandTakesOver(h: Hdd, cmd: byte)
    requires h.Valid()
    ensures var n := WriteByte(h, 0x1f7, cmd);
      && n.total == h.r.scr
      && n.lba == h.r.snr + 0x100 * h.r.cnl + 0x1_0000 * h.r.cnh + 0x100_0000 * (h.r.hnd % 16)
      && (cmd != 0x20 && cmd != 0x30 ==> n == h.(r := h.r.(cmd := cmd), lba := n.lba, total := n.total))
  {
    hide BlockRead, IsDisk, SetBit, ClearBit;
    var low := h.r.snr as int + 0x100 * h.r.cnl as int + 0x1_0000 * h.r.cnh as int;
    var all := low + 0x100_0000 * h.r.hnd as int;
    RemainderUnique(all, 0x1000_0000, h.r.hnd / 16, low + 0x100_0000 * (h.r.hnd % 16));
  }

  // ----- the interrupt line

  datatype Event =
    WriteB(addr: word, val: byte) | ReadB(addr: word) | WriteW(addr: word, data: word) | ReadW(addr: word)

  function Step(h: Hdd, e: Event): (n: Hdd)
    requires h.Valid()
    ensures n.Valid()
  {
    match e
    case WriteB(addr, val) => WriteByte(h, addr, val)
    case ReadB(addr) => ReadByte(h, addr).1
    case WriteW(addr, data) => WriteWord(h, addr, data)
    case ReadW(addr) => ReadWord(h, addr).1
  }

  /** A sector was fetched from the disk or stored on it. */
  predicate Moves(h: Hdd, e: Event)
    requires h.Valid()
  {
    Step(h, e).current == h.current + 1
  }

  /** A status read, or a control write of anything but 0, takes the line down. */
  predicate Lowers(e: Event) {
    e == ReadB(0x1f7) || (e.WriteB? && e.addr == 0x3f6 && e.val != 0)
  }

  /** What one access does to the line and to the enable flag. */
  lemma StepRaises(h: Hdd, e: Event)
    requires h.Valid()
    ensures var n := Step(h, e);
      && n.interruptEnabled == (if e.WriteB? && e.addr == 0x3f6 then e.val == 0 else h.interruptEnabled)
      && n.raised == (!Lowers(e) && (h.raised || (h.interruptEnabled && Moves(h, e))))
      && (Moves(h, e) || n.current == h.current)
  {
    hide WriteByte, ReadByte, WriteWord, ReadWord;
    match e
    case WriteB(addr, val) => WriteRaises(h, addr, val);
    case ReadB(addr) => ReadRaises(h, addr);
    case WriteW(addr, data) => WriteWordRaises(h, addr, data);
    case ReadW(addr) => ReadWordRaises(h, addr);
  }

  /** The line goes up, interrupts being enabled, exactly when a sector moves. */
  predicate RaisedBy(h: Hdd, n: Hdd) {
    && n.interruptEnabled == h.interruptEnabled && (n.current == h.current + 1 || n.current == h.current)
    && n.raised == (h.raised || (h.interruptEnabled && n.current == h.current + 1))
  }

  lemma WriteRaises(h: Hdd, addr: word, val: byte)
    requires h.Valid()
    ensures var n := WriteByte(h, addr, val);
      if addr != 0x3f6 then RaisedBy(h, n)
      else n.interruptEnabled == (val == 0) && n.raised == (val == 0 && h.raised) && n.current == h.current
  {
    hide BlockRead, IsDisk, SetBit, ClearBit, ComputeLba, Load;
  }

  lemma ReadRaises(h: Hdd, addr: word)
    requires h.Valid()
    ensures var n := ReadByte(h, addr).1; if addr == 0x1f7 then n == h.(raised := false) else n == h
  {
  }

  lemma WriteWordRaises(h: Hdd, addr: word, data: word)
    requires h.Valid()
    ensures RaisedBy(h, WriteWord(h, addr, data))
  {
    hide BlockWritten, IsDisk, SetBit, ClearBit, Low, High;
  }

  lemma ReadWordRaises(h: Hdd, addr: word)
    requires h.Valid()
    ensures RaisedBy(h, ReadWord(h, addr).1)
  {
    hide BlockRead, IsDisk, SetBit, ClearBit, WordOf;
  }

  function Run(h: Hdd, es: seq<Event>): (n: Hdd)
    requires h.Valid()
    ensures n.Valid()
  {
    if es == [] then h else Step(Run(h, es[..|es| - 1]), es[|es| - 1])
  }

  /** Access i of a run moved a sector while interrupts were enabled. */
  predicate Raises(h: Hdd, es: seq<Event>, i: nat)
    requires h.Valid() && i < |es|
  {
    var k := Run(h, es[..i]);
    k.interruptEnabled && Moves(k, es[i])
  }

  predicate NoneLowers(es: seq<Event>, from: nat) {
    forall j :: from <= j < |es| ==> !Lowers(es[j])
  }

  /** A sector was moved with interrupts enabled, and neither a status read nor a control write but 0 followed. */
  ghost predicate RaisedSince(h: Hdd, es: seq<Event>)
    requires h.Valid()
  {
    exists i: nat :: i < |es| && Raises(h, es, i) && NoneLowers(es, i + 1)
  }

  /** Over any run from a low line, that is exactly when it is up at the end. */
  lemma {:induction false} RaisedExactly(h: Hdd, es: seq<Event>)
    requires h.Valid() && !h.raised
    ensures Run(h, es).raised <==> RaisedSince(h, es)
    decreases |es|
  {
    if es != [] {
      hide Step, Moves, Lowers, RaisedSince;
      var init := es[..|es| - 1];
      RaisedExactly(h, init);
      StepRaises(Run(h, init), es[|es| - 1]);
      SinceStep(h, es);
    }
  }

  lemma SinceStep(h: Hdd, es: seq<Event>)
    requires h.Valid() && es != []
    ensures var (init, n) := (es[..|es| - 1], |es| - 1);
      RaisedSince(h, es) <==> !Lowers(es[n]) && (RaisedSince(h, init) || Raises(h, es, n))
  {
    hide Run, Step, Lowers, Moves;
    var (init, n) := (es[..|es| - 1], |es| - 1);
    assert NoneLowers(es, n + 1);
    hide Raises, NoneLowers;
    if RaisedSince(h, es) {
      var i: nat :| i < |es| && Raises(h, es, i) && NoneLowers(es, i + 1);
      if i < n { PrefixAgrees(h, es, i); }
    }
    if !Lowers(es[n]) && RaisedSince(h, init) {
      var i: nat :| i < n && Raises(h, init, i) && NoneLowers(init, i + 1);
      PrefixAgrees(h, es, i);
    }
    if Lowers(es[n]) { LastLowers(h, es); }
  }

  lemma PrefixAgrees(h: Hdd, es: seq<Event>, i: nat)
    requires h.Valid() && i + 1 < |es|
    ensures var init := es[..|es| - 1];
      && Raises(h, init, i) == Raises(h, es, i)
      && (NoneLowers(es, i + 1) <==> NoneLowers(init, i + 1) && !Lowers(es[|es| - 1]))
  {
    hide Step, Run, Lowers;
    assert es[..|es| - 1][..i] == es[..i];
  }

  /** An access that takes the line down does not raise it. */
  lemma LastLowers(h: Hdd, es: seq<Event>)
    requires h.Valid() && es != [] && Lowers(es[|es| - 1])
    ensures !Raises(h, es, |es| - 1)
  {
    hide Run;
    var n := |es| - 1;
    var k := Run(h, es[..n]);
    if es[n].ReadB? { ReadRaises(k, 0x1f7); } else { WriteRaises(k, 0x3f6, es[n].val); }
  }

  /** Interrupts are enabled exactly when the last control write was 0. */
  lemma {:induction false} EnabledExactly(h: Hdd, es: seq<Event>, i: nat)
    requires h.Valid() && i < |es| && es[i].WriteB? && es[i].addr == 0x3f6
    requires forall j :: i < j < |es| ==> !(es[j].WriteB? && es[j].addr == 0x3f6)
    ensures Run(h, es).interruptEnabled <==> es[i].val == 0
    decreases |es|
  {
    hide Step, Moves, Lowers;
    var init := es[..|es| - 1];
    StepRaises(Run(h, init), es[|es| - 1]);
    if i < |init| { EnabledExactly(h, init, i); }
  }
}
