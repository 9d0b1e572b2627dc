/** rtl/cache_v2.sv over rtl/memory_controller.sv: a direct-mapped, write-through,
    no-write-allocate cache as a state machine, with arbitrary requests and arbitrary
    stalling by the requester and by the memory. */
module CacheV2 {
  import opened Powers

  type Byte = b: int | 0 <= b < 0x100

  type Lane = k: nat | k < 4

  function LaneUnit(k: Lane): (u: nat)
    ensures u > 0
  {
    if k == 0 then 1 else if k == 1 then 0x100 else if k == 2 then 0x1_0000 else 0x100_0000
  }

  function ByteOf(w: Word, k: Lane): Byte {
    (w / LaneUnit(k)) % 0x100
  }

  function Assemble(b0: Byte, b1: Byte, b2: Byte, b3: Byte): Word {
    b0 + b1 * 0x100 + b2 * 0x1_0000 + b3 * 0x100_0000
  }

  type Strobes = s: seq<bool> | |s| == 4 witness [false, false, false, false]

  /** merge_wstrb: the byte lanes selected by the strobes replace those of the old word. */
  function MergeWstrb(old_: Word, new_: Word, wstrb: Strobes): Word {
    hide ByteOf;
    var m0 := if wstrb[0] then old_ - ByteOf(old_, 0) + ByteOf(new_, 0) else old_;
    var m1 := if wstrb[1] then m0 - ByteOf(old_, 1) * 0x100 + ByteOf(new_, 1) * 0x100 else m0;
    var m2 := if wstrb[2] then m1 - ByteOf(old_, 2) * 0x1_0000 + ByteOf(new_, 2) * 0x1_0000 else m1;
    MergedInRange(old_, new_, wstrb);
    if wstrb[3] then m2 - ByteOf(old_, 3) * 0x100_0000 + ByteOf(new_, 3) * 0x100_0000 else m2
  }

  lemma Bytes(w: Word)
    ensures w == ByteOf(w, 0) + ByteOf(w, 1) * 0x100 + ByteOf(w, 2) * 0x1_0000 + ByteOf(w, 3) * 0x100_0000
  {
    hide ByteOf;
    LaneSlices(w);
    var q1, q2, q3 := w / 0x100, w / 0x1_0000, w / 0x100_0000;
    assert w == q1 * 0x100 + w % 0x100;
    assert q1 == q2 * 0x100 + q1 % 0x100;
    assert q2 == q3 * 0x100 + q2 % 0x100;
    assert q3 == q3 % 0x100;
  }

  lemma MergedInRange(old_: Word, new_: Word, wstrb: Strobes)
    ensures old_ == Assemble(ByteOf(old_, 0), ByteOf(old_, 1), ByteOf(old_, 2), ByteOf(old_, 3))
  {
    Bytes(old_);
  }

  lemma AssembledByte(b0: Byte, b1: Byte, b2: Byte, b3: Byte)
    ensures var w := Assemble(b0, b1, b2, b3);
      ByteOf(w, 0) == b0 && ByteOf(w, 1) == b1 && ByteOf(w, 2) == b2 && ByteOf(w, 3) == b3
  {
    hide ByteOf, LaneUnit;
    var w := Assemble(b0, b1, b2, b3);
    DivUnique(w, 0x100, b1 + b2 * 0x100 + b3 * 0x1_0000);
    DivUnique(w, 0x1_0000, b2 + b3 * 0x100);
    DivUnique(w, 0x100_0000, b3);
    LaneSlices(w);
    LowByte(b0, b1 + b2 * 0x100 + b3 * 0x1_0000);
    LowByte(b1, b2 + b3 * 0x100);
    LowByte(b2, b3);
  }

  lemma LowByte(b: Byte, rest: nat)
    ensures (b + rest * 0x100) % 0x100 == b
  {
  }

  lemma LaneSlices(w: Word)
    ensures ByteOf(w, 0) == w % 0x100 && ByteOf(w, 1) == (w / 0x100) % 0x100
    ensures ByteOf(w, 2) == (w / 0x1_0000) % 0x100 && ByteOf(w, 3) == (w / 0x100_0000) % 0x100
  {
  }

  function Pick(wstrb: Strobes, old_: Word, new_: Word, k: Lane): Byte {
    if wstrb[k] then ByteOf(new_, k) else ByteOf(old_, k)
  }

  /** Each lane of a merge is the new byte where strobed and the old byte elsewhere. */
  lemma MergeByLane(old_: Word, new_: Word, wstrb: Strobes)
    ensures MergeWstrb(old_, new_, wstrb) ==
            Assemble(Pick(wstrb, old_, new_, 0), Pick(wstrb, old_, new_, 1), Pick(wstrb, old_, new_, 2),
              Pick(wstrb, old_, new_, 3))
    ensures forall k: Lane :: ByteOf(MergeWstrb(old_, new_, wstrb), k) == Pick(wstrb, old_, new_, k)
  {
    hide ByteOf;
    Bytes(old_);
    AssembledByte(Pick(wstrb, old_, new_, 0), Pick(wstrb, old_, new_, 1), Pick(wstrb, old_, new_, 2),
      Pick(wstrb, old_, new_, 3));
  }

  // ----------------------------------------------------------------------
  // The machine
  // ----------------------------------------------------------------------

  datatype Request = Request(write: bool, addr: Word, wdata: Word, wstrb: Strobes)

  function WordAddr(r: Request): nat {
    r.addr / 4
  }

  datatype Fsm = IDLE | LOOKUP | REFILL | MEM_WRITE | RESP

  /** req holds the captured request, rdata the response register; a line is valid, tag, data. */
  datatype Line = Line(valid: bool, tag: nat, data: Word)

  datatype Cache = Cache(state: Fsm, req: Request, rdata: Word, lines: seq<Line>)

  /** The cache and the words of its backing memory. */
  datatype System = System(cache: Cache, memory: seq<Word>)

  predicate WellFormed(s: System) {
    |s.cache.lines| == 16 && |s.memory| > 0
  }

  /** What the outside does in one cycle. */
  datatype Inputs = Inputs(reqValid: bool, req: Request, rspReady: bool, memReady: bool)

  function Index(r: Request): (x: nat)
    ensures x < 16
  {
    WordAddr(r) % 16
  }

  function Tag(r: Request): nat {
    WordAddr(r) / 16
  }

  /** The word address of line x under a tag: {tag, index}. */
  function LineAddr(tag: nat, x: nat): nat {
    tag * 16 + x
  }

  predicate Hit(c: Cache)
    requires |c.lines| == 16
  {
    c.lines[Index(c.req)].valid && c.lines[Index(c.req)].tag == Tag(c.req)
  }

  /** mem_valid && mem_ready in the given state. */
  predicate Completes(s: System, i: Inputs) {
    (s.cache.state == REFILL || s.cache.state == MEM_WRITE) && i.memReady
  }

  /** Word of the backing memory that an address selects: upper address bits are ignored. */
  function Cell(s: System, wordAddr: nat): nat
    requires WellFormed(s)
    ensures Cell(s, wordAddr) < |s.memory|
  {
    wordAddr % |s.memory|
  }

  function NextState(s: System, i: Inputs): Fsm
    requires WellFormed(s)
  {
    match s.cache.state
    case IDLE => if i.reqValid then LOOKUP else IDLE
    case LOOKUP => if s.cache.req.write then MEM_WRITE else if Hit(s.cache) then RESP else REFILL
    case REFILL => if i.memReady then RESP else REFILL
    case MEM_WRITE => if i.memReady then RESP else MEM_WRITE
    case RESP => if i.rspReady then IDLE else RESP
  }

  function NextLines(s: System, i: Inputs): seq<Line>
    requires WellFormed(s)
  {
    var c := s.cache;
    var x := Index(c.req);
    if c.state == REFILL && Completes(s, i) then
      c.lines[x := Line(true, Tag(c.req), s.memory[Cell(s, WordAddr(c.req))])]
    else if c.state == MEM_WRITE && Completes(s, i) && Hit(c) then
      c.lines[x := c.lines[x].(data := MergeWstrb(c.lines[x].data, c.req.wdata, c.req.wstrb))]
    else c.lines
  }

  function NextResponse(s: System, i: Inputs): Word
    requires WellFormed(s)
  {
    var c := s.cache;
    if c.state == LOOKUP && !c.req.write && Hit(c) then c.lines[Index(c.req)].data
    else if c.state == REFILL && Completes(s, i) then s.memory[Cell(s, WordAddr(c.req))]
    else if c.state == MEM_WRITE && Completes(s, i) then 0
    else c.rdata
  }

  function NextMemory(s: System, i: Inputs): seq<Word>
    requires WellFormed(s)
  {
    var r := s.cache.req;
    if s.cache.state == MEM_WRITE && Completes(s, i) then
      s.memory[Cell(s, WordAddr(r)) := MergeWstrb(s.memory[Cell(s, WordAddr(r))], r.wdata, r.wstrb)]
    else s.memory
  }

  /** One clock edge out of reset. */
  function Step(s: System, i: Inputs): (s': System)
    requires WellFormed(s)
    ensures WellFormed(s') && |s'.memory| == |s.memory|
  {
    System(Cache(NextState(s, i), if Accepts(s, i) then i.req else s.cache.req, NextResponse(s, i), NextLines(s, i)),
           NextMemory(s, i))
  }

  predicate Accepts(s: System, i: Inputs) {
    s.cache.state == IDLE && i.reqValid
  }

  predicate Responds(s: System, i: Inputs) {
    s.cache.state == RESP && i.rspReady
  }

  function EmptyCache(): Cache {
    Cache(IDLE, Request(false, 0, 0, [false, false, false, false]), 0, seq(16, _ => Line(false, 0, 0)))
  }

  function Reset(memory: seq<Word>): System {
    System(EmptyCache(), memory)
  }

  // ----------------------------------------------------------------------
  // Runs and what can be seen of them
  // ----------------------------------------------------------------------

  function Run(memory: seq<Word>, ins: seq<Inputs>): (s: System)
    requires |memory| > 0
    ensures WellFormed(s) && |s.memory| == |memory|
  {
    if |ins| == 0 then Reset(memory) else Step(Run(memory, ins[..|ins| - 1]), ins[|ins| - 1])
  }

  /** Requests accepted, in order. */
  function Accepted(memory: seq<Word>, ins: seq<Inputs>): seq<Request>
    requires |memory| > 0
  {
    if |ins| == 0 then []
    else
      var before, i := Accepted(memory, ins[..|ins| - 1]), ins[|ins| - 1];
      if Accepts(Run(memory, ins[..|ins| - 1]), i) then before + [i.req] else before
  }

  /** Responses handed over, in order. */
  function Responses(memory: seq<Word>, ins: seq<Inputs>): seq<Word>
    requires |memory| > 0
  {
    if |ins| == 0 then []
    else
      var before, s := Responses(memory, ins[..|ins| - 1]), Run(memory, ins[..|ins| - 1]);
      if Responds(s, ins[|ins| - 1]) then before + [s.cache.rdata] else before
  }

  datatype Transaction = Fetch(wordAddr: nat) | Store(wordAddr: nat, wdata: Word, wstrb: Strobes)

  /** The transaction that a completing memory handshake carries. */
  function Completed(s: System): Transaction {
    var r := s.cache.req;
    if s.cache.state == REFILL then Fetch(WordAddr(r)) else Store(WordAddr(r), r.wdata, r.wstrb)
  }

  /** Memory transactions completed, in order. */
  function Transactions(memory: seq<Word>, ins: seq<Inputs>): seq<Transaction>
    requires |memory| > 0
  {
    if |ins| == 0 then []
    else
      var before, s := Transactions(memory, ins[..|ins| - 1]), Run(memory, ins[..|ins| - 1]);
      if Completes(s, ins[|ins| - 1]) then before + [Completed(s)] else before
  }

  // ----------------------------------------------------------------------
  // The reference: a flat memory that remembers every write
  // ----------------------------------------------------------------------

  /** Byte k of a word: that of the last write that strobed it, or the initial one. */
  function FlatByte(initial: nat -> Word, rs: seq<Request>, wordAddr: nat, k: Lane): Byte {
    if |rs| == 0 then ByteOf(initial(wordAddr), k)
    else
      var r := rs[|rs| - 1];
      if r.write && WordAddr(r) == wordAddr && r.wstrb[k] then ByteOf(r.wdata, k)
      else FlatByte(initial, rs[..|rs| - 1], wordAddr, k)
  }

  function FlatWord(initial: nat -> Word, rs: seq<Request>, wordAddr: nat): Word {
    Assemble(FlatByte(initial, rs, wordAddr, 0), FlatByte(initial, rs, wordAddr, 1),
             FlatByte(initial, rs, wordAddr, 2), FlatByte(initial, rs, wordAddr, 3))
  }

  /** The answer to request n: a read sees exactly the writes before it, a write answers zero. */
  function FlatAnswer(initial: nat -> Word, rs: seq<Request>, n: nat): Word
    requires n < |rs|
  {
    if rs[n].write then 0 else FlatWord(initial, rs[..n], WordAddr(rs[n]))
  }

  datatype Resident = Nothing | Holds(tag: nat)

  /** Which tag a line holds after some requests: the last read of that index, since writes do not allocate. */
  function ResidentTag(rs: seq<Request>, x: nat): Resident {
    if |rs| == 0 then Nothing
    else
      var r := rs[|rs| - 1];
      if !r.write && Index(r) == x then Holds(Tag(r)) else ResidentTag(rs[..|rs| - 1], x)
  }

  /** Memory traffic of a request sequence: one store per write, one fetch per read miss, none per hit. */
  function FlatTraffic(rs: seq<Request>): seq<Transaction> {
    if |rs| == 0 then []
    else
      var before, r := FlatTraffic(rs[..|rs| - 1]), rs[|rs| - 1];
      if r.write then before + [Store(WordAddr(r), r.wdata, r.wstrb)]
      else if ResidentTag(rs[..|rs| - 1], Index(r)) == Holds(Tag(r)) then before
      else before + [Fetch(WordAddr(r))]
  }
}
