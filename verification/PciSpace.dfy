/** The host bridge refines one byte memory per device. */
module PciSpace {
  import opened Machine
  import opened Pci

  /** An address register over a byte at every (device, offset). */
  datatype Space = Space(cap: u32, count: nat, mem: map<(nat, nat), byte>) {
    function Bus(): nat { cap / 0x1_0000 % 0x100 }
    function Device(): nat { cap / 0x800 % 0x20 }
    function Function_(): nat { cap / 0x100 % 8 }
    predicate Present() { Device() < count && Function_() == 0 }
    predicate Valid() {
      forall d: nat, a: nat :: d < count && a < BLOCK_SIZE ==> (d, a) in mem
    }
  }

  /** n bytes from at on, the lowest address least significant. */
  function Gather(s: Space, d: nat, at: nat, n: nat): nat
    requires s.Valid() && d < s.count && at + n <= BLOCK_SIZE
    decreases n
  {
    if n == 0 then 0 else s.mem[(d, at)] + 256 * Gather(s, d, at + 1, n - 1)
  }

  function Scatter(s: Space, d: nat, at: nat, n: nat, v: nat): (r: Space)
    requires s.Valid() && d < s.count && at + n <= BLOCK_SIZE
    ensures r.Valid() && r.count == s.count && r.cap == s.cap
    decreases n
  {
    if n == 0 then s else Scatter(s.(mem := s.mem[(d, at) := v % 256]), d, at + 1, n - 1, v / 256)
  }

  datatype Access = Out(port: word, n: nat, v: nat) | In(port: word, n: nat) {
    predicate Valid() {
      IsPort(port) && IsWidth(n) && (Out? ==> v < Pow256(n))
    }
  }

  function SpaceStep(s: Space, a: Access): (r: Space)
    requires s.Valid() && a.Valid()
    ensures r.Valid() && r.count == s.count
  {
    Pow256Values();
    if a.In? then s
    else if a.port == CAP_ADDR then (if a.n == 4 then s.(cap := a.v) else s)
    else
      var at := s.cap % 0x100 + (a.port - CDP_ADDR);
      if !s.Present() || at + a.n > BLOCK_SIZE then s else Scatter(s, s.Device(), at, a.n, a.v)
  }

  function SpaceReply(s: Space, a: Access): nat
    requires s.Valid() && a.Valid() && a.In?
  {
    if a.port == CAP_ADDR then (if a.n == 4 then s.cap else Ones(a.n))
    else
      var at := s.cap % 0x100 + (a.port - CDP_ADDR);
      if !s.Present() then Ones(a.n) else if at + a.n > BLOCK_SIZE then 0 else Gather(s, s.Device(), at, a.n)
  }

  function HostStep(h: Host, a: Access): (r: Host)
    requires h.Valid() && a.Valid()
    ensures r.Valid()
  {
    if a.In? then h else HostWrite(h, a.port, a.n, a.v)
  }

  /** The bridge's state stands for a space. */
  ghost predicate Stands(h: Host, s: Space) {
    && h.Valid() && s.Valid()
    && h.cap == s.cap && h == Decode(h, h.cap) && |h.blocks| == s.count
    && forall d: nat, a: nat :: d < s.count && a < BLOCK_SIZE ==> s.mem[(d, a)] == h.blocks[d][a]
  }

  lemma {:induction false} GatherIsGet(h: Host, s: Space, d: nat, at: nat, n: nat)
    requires Stands(h, s) && d < s.count && at + n <= BLOCK_SIZE
    ensures Gather(s, d, at, n) == FromBytes(h.blocks[d][at..at + n])
    decreases n
  {
    if n > 0 {
      GatherIsGet(h, s, d, at + 1, n - 1);
      assert h.blocks[d][at..at + n][1..] == h.blocks[d][at + 1..at + n];
    }
  }

  lemma {:induction false} ScatterStores(s: Space, d: nat, at: nat, n: nat, v: nat)
    requires s.Valid() && d < s.count && at + n <= BLOCK_SIZE
    ensures var r := Scatter(s, d, at, n, v);
      && (forall i :: 0 <= i < n ==> r.mem[(d, at + i)] == ToBytes(v, n)[i])
      && (forall e: nat, a: nat :: e < s.count && a < BLOCK_SIZE && (e != d || a < at || at + n <= a) ==>
            r.mem[(e, a)] == s.mem[(e, a)])
    decreases n
  {
    if n > 0 {
      var s1 := s.(mem := s.mem[(d, at) := v % 256]);
      ScatterStores(s1, d, at + 1, n - 1, v / 256);
      var r := Scatter(s, d, at, n, v);
      forall i | 0 <= i < n ensures r.mem[(d, at + i)] == ToBytes(v, n)[i] {
        if i > 0 {
          assert r.mem[(d, at + 1 + (i - 1))] == ToBytes(v / 256, n - 1)[i - 1];
        }
      }
    }
  }

  lemma StepStands(h: Host, s: Space, a: Access)
    requires Stands(h, s) && a.Valid()
    ensures Stands(HostStep(h, a), SpaceStep(s, a))
  {
    hide Scatter;
    var at := s.cap % 0x100 + (a.port as int - CDP_ADDR as int);
    if a.Out? && a.port != CAP_ADDR && s.Present() && at + a.n <= BLOCK_SIZE {
      StoreStands(h, s, s.Device(), at, a.n, a.v);
    }
  }

  lemma StoreStands(h: Host, s: Space, d: nat, at: nat, n: nat, v: nat)
    requires Stands(h, s) && d < s.count && at + n <= BLOCK_SIZE
    ensures Stands(h.(blocks := h.blocks[d := Set(h.blocks[d], at, n, v)]), Scatter(s, d, at, n, v))
  {
    hide Scatter, ToBytes;
    ScatterStores(s, d, at, n, v);
    var (block, s') := (Set(h.blocks[d], at, n, v), Scatter(s, d, at, n, v));
    forall b: nat | b < BLOCK_SIZE ensures s'.mem[(d, b)] == block[b] {
      if at <= b < at + n {
        assert s'.mem[(d, at + (b - at))] == ToBytes(v, n)[b - at];
      }
    }
  }

  /** The one access that looks at the bus: a word read from a device selected on another bus than 0. */
  predicate MissesBus(s: Space, a: Access)
    requires s.Valid() && a.Valid()
  {
    a.In? && a.n == 2 && a.port != CAP_ADDR && s.Present() && s.Bus() != 0 && SpaceReply(s, a) != 0xffff
  }

  /** Replies agree on every access but that one. */
  lemma ReplyAgrees(h: Host, s: Space, a: Access)
    requires Stands(h, s) && a.Valid() && a.In?
    ensures HostRead(h, a.port, a.n) == SpaceReply(s, a) <==> !MissesBus(s, a)
  {
    Pow256Values();
    if a.port != CAP_ADDR && s.Present() {
      var at := s.cap % 0x100 + (a.port - CDP_ADDR);
      if at + a.n <= BLOCK_SIZE {
        GatherIsGet(h, s, s.Device(), at, a.n);
      }
    }
  }

  // ----- whole runs

  function HostRun(h: Host, run: seq<Access>): (r: (Host, seq<nat>))
    requires h.Valid() && forall i :: 0 <= i < |run| ==> run[i].Valid()
    ensures r.0.Valid()
    decreases |run|
  {
    if run == [] then (h, [])
    else
      var (h', replies) := HostRun(HostStep(h, run[0]), run[1..]);
      (h', (if run[0].In? then [HostRead(h, run[0].port, run[0].n)] else []) + replies)
  }

  function SpaceRun(s: Space, run: seq<Access>): (r: (Space, seq<nat>))
    requires s.Valid() && forall i :: 0 <= i < |run| ==> run[i].Valid()
    ensures r.0.Valid()
    decreases |run|
  {
    if run == [] then (s, [])
    else
      var (s', replies) := SpaceRun(SpaceStep(s, run[0]), run[1..]);
      (s', (if run[0].In? then [SpaceReply(s, run[0])] else []) + replies)
  }

  /** No access of the run looks at another bus. */
  predicate NeverMissesBus(s: Space, run: seq<Access>)
    requires s.Valid() && forall i :: 0 <= i < |run| ==> run[i].Valid()
    decreases |run|
  {
    run != [] ==> !MissesBus(s, run[0]) && NeverMissesBus(SpaceStep(s, run[0]), run[1..])
  }

  /** Any run of accesses of any width leaves the same bytes, and answers alike unless one looks at another bus. */
  lemma {:induction false} RunAgrees(h: Host, s: Space, run: seq<Access>)
    requires Stands(h, s) && forall i :: 0 <= i < |run| ==> run[i].Valid()
    ensures Stands(HostRun(h, run).0, SpaceRun(s, run).0)
    ensures HostRun(h, run).1 == SpaceRun(s, run).1 <==> NeverMissesBus(s, run)
    decreases |run|
  {
    if run != [] {
      StepStands(h, s, run[0]);
      if run[0].In? { ReplyAgrees(h, s, run[0]); }
      hide Stands, HostStep, SpaceStep, HostRead, SpaceReply, MissesBus;
      var (h', s', rest) := (HostStep(h, run[0]), SpaceStep(s, run[0]), run[1..]);
      RunAgrees(h', s', rest);
      var (v, w) := (HostRun(h', rest).1, SpaceRun(s', rest).1);
      if run[0].In? {
        SameHeads(HostRead(h, run[0].port, run[0].n), SpaceReply(s, run[0]), v, w);
      } else {
        OutNeverMisses(s, run[0]);
        assert [] + v == v && [] + w == w;
      }
    }
  }

  lemma SameHeads(x: nat, y: nat, v: seq<nat>, w: seq<nat>)
    ensures [x] + v == [y] + w <==> x == y && v == w
  {
    assert ([x] + v)[0] == x && ([y] + w)[0] == y && ([x] + v)[1..] == v && ([y] + w)[1..] == w;
  }

  lemma OutNeverMisses(s: Space, a: Access)
    requires s.Valid() && a.Valid() && a.Out?
    ensures !MissesBus(s, a)
  {
  }

  /** Every configuration address in the run names bus 0, the only bus there is. */
  predicate OnBusZero(run: seq<Access>) {
    forall i :: 0 <= i < |run| && run[i].Out? && run[i].port == CAP_ADDR ==> run[i].v / 0x1_0000 % 0x100 == 0
  }

  lemma {:induction false} BusZeroNeverMisses(s: Space, run: seq<Access>)
    requires s.Valid() && s.Bus() == 0 && OnBusZero(run) && forall i :: 0 <= i < |run| ==> run[i].Valid()
    ensures NeverMissesBus(s, run)
    decreases |run|
  {
    if run != [] {
      assert SpaceStep(s, run[0]).Bus() == 0;
      BusZeroNeverMisses(SpaceStep(s, run[0]), run[1..]);
    }
  }

  /** On bus 0 any run answers as the byte memories do. */
  lemma RunRefines(h: Host, s: Space, run: seq<Access>)
    requires Stands(h, s) && h.bus == 0 && OnBusZero(run)
    requires forall i :: 0 <= i < |run| ==> run[i].Valid()
    ensures Stands(HostRun(h, run).0, SpaceRun(s, run).0)
    ensures HostRun(h, run).1 == SpaceRun(s, run).1
  {
    BusZeroNeverMisses(s, run);
    RunAgrees(h, s, run);
  }

  /** Every bridge state reached by an address write stands for some space. */
  lemma DecodedStands(h: Host) returns (s: Space)
    requires h.Valid() && h == Decode(h, h.cap)
    ensures Stands(h, s)
  {
    var mem := map d, a | 0 <= d < |h.blocks| && 0 <= a < BLOCK_SIZE :: (d, a) := h.blocks[d][a];
    s := Space(h.cap, |h.blocks|, mem);
  }
}
