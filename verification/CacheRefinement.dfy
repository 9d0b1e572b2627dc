/** The cache over its memory answers like a flat memory, with exactly the expected memory
    traffic, for every run over addresses that the memory keeps apart. */
module CacheRefinement {
  import opened Powers
  import opened CacheV2

  /** No two of the addresses select the same word of a memory of the given depth. */
  ghost predicate AliasFree(wordAddrs: iset<nat>, depth: nat)
    requires depth > 0
  {
    forall a: nat, b: nat :: a in wordAddrs && b in wordAddrs && a % depth == b % depth ==> a == b
  }

  ghost predicate StaysIn(ins: seq<Inputs>, wordAddrs: iset<nat>) {
    forall t :: 0 <= t < |ins| && ins[t].reqValid ==> WordAddr(ins[t].req) in wordAddrs
  }

  function Initial(memory: seq<Word>): nat -> Word
    requires |memory| > 0
  {
    (a: nat) => memory[a % |memory|]
  }

  /** The backing memory holds what the flat memory holds after rs. */
  ghost predicate MemoryAgrees(initial: nat -> Word, wordAddrs: iset<nat>, s: System, rs: seq<Request>)
    requires WellFormed(s)
  {
    forall a: nat :: a in wordAddrs ==> s.memory[Cell(s, a)] == FlatWord(initial, rs, a)
  }

  /** Coherence: every valid line equals the memory word at {tag, index}. */
  ghost predicate LinesAgree(wordAddrs: iset<nat>, s: System)
    requires WellFormed(s)
  {
    forall x: nat :: x < 16 && s.cache.lines[x].valid ==>
      var a := LineAddr(s.cache.lines[x].tag, x);
      a in wordAddrs && s.cache.lines[x].data == s.memory[Cell(s, a)]
  }

  /** A line with the lanes of a write merged in. */
  function Merged(line: Line, r: Request): Line {
    line.(data := MergeWstrb(line.data, r.wdata, r.wstrb))
  }

  /** Memory and lines are those of the flat memory after the requests rs. */
  ghost predicate Settled(initial: nat -> Word, wordAddrs: iset<nat>, s: System, rs: seq<Request>)
    requires WellFormed(s)
  {
    MemoryAgrees(initial, wordAddrs, s, rs) && LinesAgree(wordAddrs, s)
  }

  ghost predicate InAddresses(rs: seq<Request>, wordAddrs: iset<nat>) {
    forall n :: 0 <= n < |rs| ==> WordAddr(rs[n]) in wordAddrs
  }

  /** The state of the FSM tells how many requests are answered and which one is in hand. */
  predicate Control(s: System, rs: seq<Request>, answered: nat)
    requires WellFormed(s)
  {
    match s.cache.state
    case IDLE => answered == |rs|
    case RESP => answered + 1 == |rs|
    case _ =>
      && answered + 1 == |rs| && s.cache.req == rs[answered]
      && (s.cache.state == REFILL ==> !s.cache.req.write && !Hit(s.cache))
      && (s.cache.state == MEM_WRITE ==> s.cache.req.write)
  }

  /** The requests that have taken effect: a pending one does so on the way to RESP. */
  function Effective(s: System, rs: seq<Request>, answered: nat): seq<Request>
    requires WellFormed(s) && Control(s, rs, answered)
  {
    if s.cache.state == IDLE || s.cache.state == RESP then rs else rs[..answered]
  }

  ghost predicate Progress(initial: nat -> Word, wordAddrs: iset<nat>, s: System, rs: seq<Request>, answered: nat)
    requires WellFormed(s)
  {
    && Control(s, rs, answered) && Settled(initial, wordAddrs, s, Effective(s, rs, answered))
    && (s.cache.state == RESP ==> s.cache.rdata == FlatAnswer(initial, rs, answered))
  }

  // ----------------------------------------------------------------------
  // One request
  // ----------------------------------------------------------------------

  lemma SplitAddress(r: Request)
    ensures Index(r) < 16 && LineAddr(Tag(r), Index(r)) == WordAddr(r)
    ensures forall t: nat, x: nat :: x < 16 && LineAddr(t, x) == WordAddr(r) ==> t == Tag(r) && x == Index(r)
  {
  }

  /** A write changes its own word by lane and no other word. */
  lemma FlatAfterWrite(initial: nat -> Word, rs: seq<Request>, r: Request, a: nat)
    requires r.write
    ensures FlatWord(initial, rs + [r], a) ==
            if WordAddr(r) == a then MergeWstrb(FlatWord(initial, rs, a), r.wdata, r.wstrb)
            else FlatWord(initial, rs, a)
  {
    hide ByteOf, Assemble, MergeWstrb, WordAddr;
    assert (rs + [r])[..|rs|] == rs;
    var old_ := FlatWord(initial, rs, a);
    AssembledByte(FlatByte(initial, rs, a, 0), FlatByte(initial, rs, a, 1), FlatByte(initial, rs, a, 2),
      FlatByte(initial, rs, a, 3));
    MergeByLane(old_, r.wdata, r.wstrb);
  }

  lemma FlatAfterRead(initial: nat -> Word, rs: seq<Request>, r: Request, a: nat)
    requires !r.write
    ensures FlatWord(initial, rs + [r], a) == FlatWord(initial, rs, a)
  {
    assert (rs + [r])[..|rs|] == rs;
  }

  /** A read that hits: served from the line, nothing else changes. */
  lemma ReadHit(initial: nat -> Word, wordAddrs: iset<nat>, s: System, rs: seq<Request>)
    requires WellFormed(s) && Settled(initial, wordAddrs, s, rs) && !s.cache.req.write && Hit(s.cache)
    requires WordAddr(s.cache.req) in wordAddrs
    ensures Settled(initial, wordAddrs, s, rs + [s.cache.req])
    ensures s.cache.lines[Index(s.cache.req)].data == FlatWord(initial, rs, WordAddr(s.cache.req))
  {
    hide FlatWord, Index, Tag, WordAddr, Cell, LineAddr;
    var r := s.cache.req;
    SplitAddress(r);
    forall a: nat | a in wordAddrs
      ensures FlatWord(initial, rs + [r], a) == FlatWord(initial, rs, a)
    {
      FlatAfterRead(initial, rs, r, a);
    }
  }

  /** A read that misses: one fetch fills its line with the memory word. */
  lemma ReadMiss(initial: nat -> Word, wordAddrs: iset<nat>, s: System, s': System, rs: seq<Request>)
    requires WellFormed(s) && WellFormed(s') && Settled(initial, wordAddrs, s, rs)
    requires !s.cache.req.write && !Hit(s.cache) && WordAddr(s.cache.req) in wordAddrs && s'.memory == s.memory
    requires var r := s.cache.req;
      s'.cache.lines == s.cache.lines[Index(r) := Line(true, Tag(r), s.memory[Cell(s, WordAddr(r))])]
    ensures Settled(initial, wordAddrs, s', rs + [s.cache.req])
  {
    hide FlatWord, Index, Tag, WordAddr, Cell, LineAddr;
    var r := s.cache.req;
    SplitAddress(r);
    SameCells(s, s');
    forall a: nat | a in wordAddrs
      ensures FlatWord(initial, rs + [r], a) == FlatWord(initial, rs, a)
    {
      FlatAfterRead(initial, rs, r, a);
    }
  }

  lemma SameCells(s: System, s': System)
    requires WellFormed(s) && WellFormed(s') && |s'.memory| == |s.memory|
    ensures forall a: nat :: Cell(s', a) == Cell(s, a)
  {
  }

  /** A write: one store merges the lanes into memory, and into the line when it holds the word. */
  lemma WriteThrough(initial: nat -> Word, wordAddrs: iset<nat>, s: System, s': System, rs: seq<Request>)
    requires WellFormed(s) && WellFormed(s') && Settled(initial, wordAddrs, s, rs)
    requires AliasFree(wordAddrs, |s.memory|)
    requires s.cache.req.write && WordAddr(s.cache.req) in wordAddrs
    requires var r := s.cache.req; var x := Index(r);
      && s'.memory == s.memory[Cell(s, WordAddr(r)) := MergeWstrb(s.memory[Cell(s, WordAddr(r))], r.wdata, r.wstrb)]
      && s'.cache.lines == if Hit(s.cache)
                           then s.cache.lines[x := Merged(s.cache.lines[x], r)]
                           else s.cache.lines
    ensures Settled(initial, wordAddrs, s', rs + [s.cache.req])
  {
    hide FlatWord, Index, Tag, WordAddr, Cell, MergeWstrb, LineAddr;
    var r := s.cache.req;
    WriteMemory(initial, wordAddrs, s, s', rs);
    WriteLines(wordAddrs, s, s');
  }

  lemma WriteMemory(initial: nat -> Word, wordAddrs: iset<nat>, s: System, s': System, rs: seq<Request>)
    requires WellFormed(s) && WellFormed(s') && MemoryAgrees(initial, wordAddrs, s, rs)
    requires AliasFree(wordAddrs, |s.memory|)
    requires s.cache.req.write && WordAddr(s.cache.req) in wordAddrs
    requires var r := s.cache.req;
      s'.memory == s.memory[Cell(s, WordAddr(r)) := MergeWstrb(s.memory[Cell(s, WordAddr(r))], r.wdata, r.wstrb)]
    ensures MemoryAgrees(initial, wordAddrs, s', rs + [s.cache.req])
  {
    hide FlatWord, WordAddr, MergeWstrb;
    var r := s.cache.req;
    forall a: nat | a in wordAddrs
      ensures s'.memory[Cell(s', a)] == FlatWord(initial, rs + [r], a)
    {
      FlatAfterWrite(initial, rs, r, a);
    }
  }

  lemma WriteLines(wordAddrs: iset<nat>, s: System, s': System)
    requires WellFormed(s) && WellFormed(s') && LinesAgree(wordAddrs, s) && AliasFree(wordAddrs, |s.memory|)
    requires s.cache.req.write && WordAddr(s.cache.req) in wordAddrs
    requires var r := s.cache.req; var x := Index(r);
      && s'.memory == s.memory[Cell(s, WordAddr(r)) := MergeWstrb(s.memory[Cell(s, WordAddr(r))], r.wdata, r.wstrb)]
      && s'.cache.lines == if Hit(s.cache)
                           then s.cache.lines[x := Merged(s.cache.lines[x], r)]
                           else s.cache.lines
    ensures LinesAgree(wordAddrs, s')
  {
    hide MergeWstrb, Index, Tag, WordAddr, LineAddr, Cell;
    var r := s.cache.req;
    SplitAddress(r);
    SameCells(s, s');
    forall x: nat | x < 16 && s'.cache.lines[x].valid
      ensures var a := LineAddr(s'.cache.lines[x].tag, x);
        a in wordAddrs && s'.cache.lines[x].data == s'.memory[Cell(s', a)]
    {
      var a := LineAddr(s.cache.lines[x].tag, x);
      assert a in wordAddrs && s.cache.lines[x].data == s.memory[Cell(s, a)];
      CellsApart(wordAddrs, s, a, WordAddr(r));
    }
  }

  lemma CellsApart(wordAddrs: iset<nat>, s: System, a: nat, b: nat)
    requires WellFormed(s) && AliasFree(wordAddrs, |s.memory|) && a in wordAddrs && b in wordAddrs
    ensures Cell(s, a) == Cell(s, b) <==> a == b
  {
  }

  // ----------------------------------------------------------------------
  // One cycle
  // ----------------------------------------------------------------------

  /** A cycle keeps the correspondence, with what it accepts and answers appended. */
  lemma CycleKeepsProgress(initial: nat -> Word, wordAddrs: iset<nat>, s: System, i: Inputs, rs: seq<Request>,
      answered: nat)
    requires WellFormed(s) && AliasFree(wordAddrs, |s.memory|) && InAddresses(rs, wordAddrs)
    requires Progress(initial, wordAddrs, s, rs, answered)
    ensures Progress(initial, wordAddrs, Step(s, i), if Accepts(s, i) then rs + [i.req] else rs,
                     if Responds(s, i) then answered + 1 else answered)
  {
    hide FlatWord, Index, Tag, WordAddr, Cell, MergeWstrb, LineAddr, AliasFree, Settled;
    var s' := Step(s, i);
    match s.cache.state {
      case IDLE =>
        assert (rs + [i.req])[..|rs|] == rs;
        Unchanged(initial, wordAddrs, s, s', rs);
      case LOOKUP =>
        Last(rs, answered);
        Unchanged(initial, wordAddrs, s, s', rs[..answered]);
        if !s.cache.req.write && Hit(s.cache) {
          ReadHit(initial, wordAddrs, s, rs[..answered]);
          Unchanged(initial, wordAddrs, s, s', rs);
        }
      case REFILL =>
        Last(rs, answered);
        if i.memReady {
          ReadMiss(initial, wordAddrs, s, s', rs[..answered]);
          Refilled(initial, wordAddrs, s, rs[..answered]);
        } else {
          Unchanged(initial, wordAddrs, s, s', rs[..answered]);
        }
      case MEM_WRITE =>
        Last(rs, answered);
        if i.memReady {
          WriteThrough(initial, wordAddrs, s, s', rs[..answered]);
        } else {
          Unchanged(initial, wordAddrs, s, s', rs[..answered]);
        }
      case RESP =>
        Unchanged(initial, wordAddrs, s, s', rs);
    }
  }

  lemma Last(rs: seq<Request>, answered: nat)
    requires answered + 1 == |rs|
    ensures rs == rs[..answered] + [rs[answered]]
  {
  }

  lemma Unchanged(initial: nat -> Word, wordAddrs: iset<nat>, s: System, s': System, rs: seq<Request>)
    requires WellFormed(s) && WellFormed(s') && s'.memory == s.memory && s'.cache.lines == s.cache.lines
    ensures Settled(initial, wordAddrs, s, rs) <==> Settled(initial, wordAddrs, s', rs)
  {
    hide FlatWord, LineAddr;
    SameCells(s, s');
  }

  lemma Refilled(initial: nat -> Word, wordAddrs: iset<nat>, s: System, rs: seq<Request>)
    requires WellFormed(s) && Settled(initial, wordAddrs, s, rs) && WordAddr(s.cache.req) in wordAddrs
    ensures s.memory[Cell(s, WordAddr(s.cache.req))] == FlatWord(initial, rs, WordAddr(s.cache.req))
  {
  }

  // ----------------------------------------------------------------------
  // Whole runs
  // ----------------------------------------------------------------------

  lemma {:induction false} RunKeepsProgress(memory: seq<Word>, ins: seq<Inputs>, wordAddrs: iset<nat>)
    requires |memory| > 0 && AliasFree(wordAddrs, |memory|) && StaysIn(ins, wordAddrs)
    ensures InAddresses(Accepted(memory, ins), wordAddrs)
    ensures Progress(Initial(memory), wordAddrs, Run(memory, ins), Accepted(memory, ins), |Responses(memory, ins)|)
    ensures forall n :: 0 <= n < |Responses(memory, ins)| ==>
      n < |Accepted(memory, ins)| && Responses(memory, ins)[n] == FlatAnswer(Initial(memory), Accepted(memory, ins), n)
  {
    hide Step, FlatAnswer, Settled, AliasFree, Initial, WordAddr;
    if |ins| == 0 {
      ResetSettled(memory, wordAddrs);
    } else {
      var ins', i := ins[..|ins| - 1], ins[|ins| - 1];
      RunKeepsProgress(memory, ins', wordAddrs);
      var s, rs, answers := Run(memory, ins'), Accepted(memory, ins'), Responses(memory, ins');
      CycleKeepsProgress(Initial(memory), wordAddrs, s, i, rs, |answers|);
      forall n | 0 <= n < |answers|
        ensures FlatAnswer(Initial(memory), Accepted(memory, ins), n) == FlatAnswer(Initial(memory), rs, n)
      {
        AnswerStands(Initial(memory), rs, i.req, n);
      }
    }
  }

  /** Later requests do not change an answer. */
  lemma AnswerStands(initial: nat -> Word, rs: seq<Request>, r: Request, n: nat)
    requires n < |rs|
    ensures FlatAnswer(initial, rs + [r], n) == FlatAnswer(initial, rs, n)
  {
    assert (rs + [r])[..n] == rs[..n];
  }

  lemma ResetSettled(memory: seq<Word>, wordAddrs: iset<nat>)
    requires |memory| > 0
    ensures Settled(Initial(memory), wordAddrs, Reset(memory), [])
  {
    hide FlatWord;
    forall a: nat
      ensures memory[a % |memory|] == FlatWord(Initial(memory), [], a)
    {
      FlatInitially(memory, a);
    }
  }

  /** Cache refinement: whatever the requests and the stalls, the responses are those of a flat
      memory to the accepted requests, at most one of them still unanswered. */
  lemma AnswersLikeFlatMemory(memory: seq<Word>, ins: seq<Inputs>, wordAddrs: iset<nat>)
    requires |memory| > 0 && AliasFree(wordAddrs, |memory|) && StaysIn(ins, wordAddrs)
    ensures |Responses(memory, ins)| <= |Accepted(memory, ins)| <= |Responses(memory, ins)| + 1
    ensures forall n :: 0 <= n < |Responses(memory, ins)| ==>
      Responses(memory, ins)[n] == FlatAnswer(Initial(memory), Accepted(memory, ins), n)
  {
    hide FlatAnswer, AliasFree, StaysIn, Settled, Run;
    RunKeepsProgress(memory, ins, wordAddrs);
  }

  // ----------------------------------------------------------------------
  // Which addresses a finite memory serves
  // ----------------------------------------------------------------------

  ghost predicate AnswersRight(memory: seq<Word>, ins: seq<Inputs>)
    requires |memory| > 0
  {
    && |Responses(memory, ins)| <= |Accepted(memory, ins)|
    && forall n :: 0 <= n < |Responses(memory, ins)| ==>
         Responses(memory, ins)[n] == FlatAnswer(Initial(memory), Accepted(memory, ins), n)
  }

  predicate Below(a: nat, bound: nat) {
    a < bound
  }

  /** The 256 words of memory_controller keep the byte addresses below 0x400 apart. */
  lemma ControllerRange(memory: seq<Word>, ins: seq<Inputs>)
    requires |memory| == 256
    requires forall t :: 0 <= t < |ins| && ins[t].reqValid ==> ins[t].req.addr < 0x400
    ensures AnswersRight(memory, ins)
  {
    AnswersLikeFlatMemory(memory, ins, iset a: nat | Below(a, 256));
  }

  lemma Extend(memory: seq<Word>, ins: seq<Inputs>, i: Inputs)
    requires |memory| > 0
    ensures var s := Run(memory, ins);
      && Run(memory, ins + [i]) == Step(s, i)
      && Accepted(memory, ins + [i]) == (if Accepts(s, i) then Accepted(memory, ins) + [i.req]
         else Accepted(memory, ins))
      && Responses(memory, ins + [i]) == (if Responds(s, i) then Responses(memory, ins) + [s.cache.rdata]
         else Responses(memory, ins))
  {
    hide Step;
    assert (ins + [i])[..|ins|] == ins;
  }

  function Ask(r: Request): Inputs {
    Inputs(true, r, true, true)
  }

  function Wait(r: Request): Inputs {
    Inputs(false, r, true, true)
  }

  /** A request that is not held up: three waiting cycles later it is answered. */
  function Serve(r: Request): seq<Inputs> {
    [Ask(r), Wait(r), Wait(r), Wait(r)]
  }

  /** From an idle cache whose line is free, an unhindered request takes effect in four cycles. */
  lemma ServeOne(memory: seq<Word>, ins: seq<Inputs>, r: Request)
    requires |memory| > 0
    requires var s := Run(memory, ins); s.cache.state == IDLE && !s.cache.lines[Index(r)].valid
    ensures var s := Run(memory, ins); var s' := Run(memory, ins + Serve(r)); var cell := WordAddr(r) % |memory|;
      && s'.cache.state == IDLE
      && Accepted(memory, ins + Serve(r)) == Accepted(memory, ins) + [r]
      && Responses(memory, ins + Serve(r)) == Responses(memory, ins) + [if r.write then 0 else s.memory[cell]]
      && (if r.write then
            && s'.cache.lines == s.cache.lines
            && s'.memory == s.memory[cell := MergeWstrb(s.memory[cell], r.wdata, r.wstrb)]
          else
            && s'.memory == s.memory
            && s'.cache.lines == s.cache.lines[Index(r) := Line(true, Tag(r), s.memory[cell])])
  {
    hide Run, Accepted, Responses, MergeWstrb, WordAddr, Index, Tag;
    var i1 := ins + [Ask(r)];
    var i2 := i1 + [Wait(r)];
    var i3 := i2 + [Wait(r)];
    Extend(memory, ins, Ask(r));
    Extend(memory, i1, Wait(r));
    Extend(memory, i2, Wait(r));
    Extend(memory, i3, Wait(r));
    assert ins + Serve(r) == i3 + [Wait(r)];
  }

  function Everything(): Strobes {
    [true, true, true, true]
  }

  /** A write and then a read, unhindered, from reset. */
  lemma WriteThenRead(memory: seq<Word>, write: Request, read: Request) returns (ins: seq<Inputs>)
    requires |memory| > 0 && write.write && !read.write
    ensures ins == Serve(write) + Serve(read) && Accepted(memory, ins) == [write, read]
    ensures var cell := WordAddr(write) % |memory|;
      var after := memory[cell := MergeWstrb(memory[cell], write.wdata, write.wstrb)];
      Responses(memory, ins) == [0, after[WordAddr(read) % |memory|]]
  {
    hide Run, Accepted, Responses, MergeWstrb, WordAddr, Index, Step, Serve;
    EmptyRun(memory);
    ServeOne(memory, [], write);
    assert [] + Serve(write) == Serve(write) && [] + [write] == [write];
    ServeOne(memory, Serve(write), read);
    ins := Serve(write) + Serve(read);
  }

  lemma FlatUntouched(memory: seq<Word>, write: Request, read: Request)
    requires |memory| > 0 && write.write && !read.write && WordAddr(write) != WordAddr(read)
    ensures FlatAnswer(Initial(memory), [write, read], 1) == memory[WordAddr(read) % |memory|]
  {
    hide FlatWord, WordAddr;
    var a := WordAddr(read);
    assert [write, read][..1] == [] + [write];
    FlatAfterWrite(Initial(memory), [], write, a);
    FlatInitially(memory, a);
  }

  lemma FlatInitially(memory: seq<Word>, a: nat)
    requires |memory| > 0
    ensures FlatWord(Initial(memory), [], a) == memory[a % |memory|]
  {
    hide ByteOf, Assemble;
    MergedInRange(memory[a % |memory|], 0, [false, false, false, false]);
  }

  lemma FullWrite(old_: Word, w: Word)
    ensures MergeWstrb(old_, w, Everything()) == w
  {
    hide MergeWstrb, ByteOf;
    MergeByLane(old_, w, Everything());
    Bytes(w);
  }

  /** Two addresses that share a memory word betray it: write one, read the other. */
  lemma AliasedRun(memory: seq<Word>, a: nat, b: nat) returns (ins: seq<Inputs>)
    requires |memory| > 0 && a != b && a % |memory| == b % |memory| && a < 0x4000_0000 && b < 0x4000_0000
    ensures !AnswersRight(memory, ins) && StaysIn(ins, iset{a, b})
  {
    hide Accepted, Responses, MergeWstrb, FlatAnswer, Initial, WordAddr, Serve;
    var cell := a % |memory|;
    var w: Word := if memory[cell] == 0 then 1 else 0;
    var write, read := Request(true, b * 4, w, Everything()), Request(false, a * 4, 0, Everything());
    assert WordAddr(write) == b && WordAddr(read) == a by {
      ByteAddress(write, b);
      ByteAddress(read, a);
    }
    ins := WriteThenRead(memory, write, read);
    ServeStays(write, read);
    FullWrite(memory[cell], w);
    FlatUntouched(memory, write, read);
    assert Responses(memory, ins)[1] == w;
    assert Accepted(memory, ins) == [write, read];
  }

  lemma ByteAddress(r: Request, wordAddr: nat)
    requires wordAddr * 4 <= r.addr < wordAddr * 4 + 4
    ensures WordAddr(r) == wordAddr
  {
  }

  lemma ServeStays(r: Request, r': Request)
    ensures StaysIn(Serve(r) + Serve(r'), iset{WordAddr(r'), WordAddr(r)})
  {
    hide WordAddr;
  }

  lemma EmptyRun(memory: seq<Word>)
    requires |memory| > 0
    ensures Run(memory, []).cache.state == IDLE && Run(memory, []).memory == memory
    ensures forall x: nat :: x < 16 ==> !Run(memory, []).cache.lines[x].valid
    ensures Accepted(memory, []) == [] && Responses(memory, []) == []
  {
  }

  /** The exact condition: a memory serves every run over a set of word addresses correctly if
      and only if no two of them select the same word of it. */
  lemma CorrectIffAliasFree(memory: seq<Word>, wordAddrs: iset<nat>)
    requires |memory| > 0 && forall a: nat :: a in wordAddrs ==> a < 0x4000_0000
    ensures AliasFree(wordAddrs, |memory|) <==>
            forall ins: seq<Inputs> :: StaysIn(ins, wordAddrs) ==> AnswersRight(memory, ins)
  {
    hide StaysIn, AnswersRight;
    if AliasFree(wordAddrs, |memory|) {
      forall ins: seq<Inputs> | StaysIn(ins, wordAddrs)
        ensures AnswersRight(memory, ins)
      {
        FlatIsRight(memory, ins, wordAddrs);
      }
    } else {
      var a: nat, b: nat :| a in wordAddrs && b in wordAddrs && a % |memory| == b % |memory| && a != b;
      var ins := AliasedRun(memory, a, b);
      WiderSet(ins, iset{a, b}, wordAddrs);
    }
  }

  lemma FlatIsRight(memory: seq<Word>, ins: seq<Inputs>, wordAddrs: iset<nat>)
    requires |memory| > 0 && AliasFree(wordAddrs, |memory|) && StaysIn(ins, wordAddrs)
    ensures AnswersRight(memory, ins)
  {
    hide AliasFree, StaysIn, FlatAnswer;
    AnswersLikeFlatMemory(memory, ins, wordAddrs);
  }

  lemma WiderSet(ins: seq<Inputs>, narrow: iset<nat>, wide: iset<nat>)
    requires StaysIn(ins, narrow) && narrow <= wide
    ensures StaysIn(ins, wide)
  {
  }
}
