/** Coherence of the lines with the backing memory, and exactly which addresses it holds for. */
module CacheCoherence {
  import opened Powers
  import opened CacheV2
  import opened CacheRefinement

  /** Each valid line equals the memory word at {tag, index}. */
  ghost predicate Coherent(s: System)
    requires WellFormed(s)
  {
    forall x: nat :: x < 16 && s.cache.lines[x].valid ==>
      s.cache.lines[x].data == s.memory[Cell(s, LineAddr(s.cache.lines[x].tag, x))]
  }

  /** Without aliases every state of every run is coherent. */
  lemma LinesStayCoherent(memory: seq<Word>, ins: seq<Inputs>, wordAddrs: iset<nat>)
    requires |memory| > 0 && AliasFree(wordAddrs, |memory|) && StaysIn(ins, wordAddrs)
    ensures Coherent(Run(memory, ins))
  {
    hide FlatAnswer, AliasFree, StaysIn, Run, MemoryAgrees, Cell, LineAddr;
    RunKeepsProgress(memory, ins, wordAddrs);
  }

  /** A write to an address that shares the memory word of a resident line leaves the line behind. */
  lemma StaleRun(memory: seq<Word>, a: nat, b: nat) returns (ins: seq<Inputs>)
    requires |memory| > 0 && a != b && a % |memory| == b % |memory| && a < 0x4000_0000 && b < 0x4000_0000
    ensures !Coherent(Run(memory, ins)) && StaysIn(ins, iset{a, b})
  {
    hide Run, Accepted, Responses, MergeWstrb, WordAddr, Index, Tag, Step, Serve, LineAddr, StaysIn;
    var cell := a % |memory|;
    var w: Word := if memory[cell] == 0 then 1 else 0;
    var read, write := Request(false, a * 4, 0, Everything()), Request(true, b * 4, w, Everything());
    ByteAddress(read, a);
    ByteAddress(write, b);
    EmptyRun(memory);
    ServeOne(memory, [], read);
    assert [] + Serve(read) == Serve(read);
    SplitAddress(read);
    SplitAddress(write);
    WriteUnder(memory, Serve(read), write);
    FullWrite(memory[cell], w);
    ins := Serve(read) + Store3(write);
    StoreStays(read, write);
    var s, x := Run(memory, ins), Index(read);
    assert s.cache.lines[x] == Line(true, Tag(read), memory[cell]) && s.memory[cell] == w;
    assert Cell(s, LineAddr(s.cache.lines[x].tag, x)) == cell;
  }

  /** An unhindered write as far as its effect on the memory. */
  function Store3(r: Request): seq<Inputs> {
    [Ask(r), Wait(r), Wait(r)]
  }

  /** A write that hits no line changes its memory word only. */
  lemma WriteUnder(memory: seq<Word>, ins: seq<Inputs>, r: Request)
    requires |memory| > 0 && r.write
    requires var s := Run(memory, ins);
      s.cache.state == IDLE && !(s.cache.lines[Index(r)].valid && s.cache.lines[Index(r)].tag == Tag(r))
    ensures var s, s', cell := Run(memory, ins), Run(memory, ins + Store3(r)), WordAddr(r) % |memory|;
      && s'.cache.lines == s.cache.lines
      && s'.memory == s.memory[cell := MergeWstrb(s.memory[cell], r.wdata, r.wstrb)]
  {
    hide Run, Accepted, Responses, MergeWstrb, WordAddr, Index, Tag;
    var i1 := ins + [Ask(r)];
    var i2 := i1 + [Wait(r)];
    Extend(memory, ins, Ask(r));
    Extend(memory, i1, Wait(r));
    Extend(memory, i2, Wait(r));
    assert ins + Store3(r) == i2 + [Wait(r)];
  }

  lemma StoreStays(r: Request, r': Request)
    ensures StaysIn(Serve(r) + Store3(r'), iset{WordAddr(r), WordAddr(r')})
  {
    hide WordAddr;
  }

  /** The exact condition: every state of every run over a set of word addresses is coherent if and
      only if no two of them select the same word of the memory. */
  lemma CoherentIffAliasFree(memory: seq<Word>, wordAddrs: iset<nat>)
    requires |memory| > 0 && forall a: nat :: a in wordAddrs ==> a < 0x4000_0000
    ensures AliasFree(wordAddrs, |memory|) <==>
            forall ins: seq<Inputs> :: StaysIn(ins, wordAddrs) ==> Coherent(Run(memory, ins))
  {
    hide StaysIn, Coherent, Run;
    if AliasFree(wordAddrs, |memory|) {
      forall ins: seq<Inputs> | StaysIn(ins, wordAddrs)
        ensures Coherent(Run(memory, ins))
      {
        LinesStayCoherent(memory, ins, wordAddrs);
      }
    } else {
      var a: nat, b: nat :| a in wordAddrs && b in wordAddrs && a % |memory| == b % |memory| && a != b;
      var ins := StaleRun(memory, a, b);
      WiderSet(ins, iset{a, b}, wordAddrs);
    }
  }
}
