/** The cache and its memory in the form of the design: registers and arrays updated in
    place on each clock edge, proved to follow Step. */
module CacheHardware {
  import opened Powers
  import opened CacheV2

  class CacheUnit {
    var state: Fsm
    var reqAddr: Word
    var reqWdata: Word
    var reqWstrb: Strobes
    var reqWrite: bool
    var rspRdata: Word
    const dataArray: array<Word>
    const tagArray: array<nat>
    const validArray: array<bool>

    ghost predicate Valid() {
      dataArray.Length == 16 && tagArray.Length == 16 && validArray.Length == 16 && (tagArray as object) != dataArray
    }

    function LineAt(x: nat): Line
      requires Valid() && x < 16
      reads dataArray, tagArray, validArray
    {
      Line(validArray[x], tagArray[x], dataArray[x])
    }

    ghost function State(): (c: Cache)
      requires Valid()
      reads this, dataArray, tagArray, validArray
      ensures |c.lines| == 16
    {
      Cache(state, Request(reqWrite, reqAddr, reqWdata, reqWstrb), rspRdata,
            [LineAt(0), LineAt(1), LineAt(2), LineAt(3), LineAt(4), LineAt(5), LineAt(6), LineAt(7),
             LineAt(8), LineAt(9), LineAt(10), LineAt(11), LineAt(12), LineAt(13), LineAt(14), LineAt(15)])
    }

    lemma LinesAre(c: Cache)
      requires Valid() && |c.lines| == 16 && c.state == state && c.rdata == rspRdata
      requires c.req == Request(reqWrite, reqAddr, reqWdata, reqWstrb)
      requires forall x: nat :: x < 16 ==> LineAt(x) == c.lines[x]
      ensures State() == c
    {
      assert State().lines == c.lines;
    }

    lemma LineInState(x: nat)
      requires Valid() && x < 16
      ensures State().lines[x] == LineAt(x)
    {
    }

    constructor ()
      ensures Valid() && State() == EmptyCache() && fresh(dataArray) && fresh(tagArray) && fresh(validArray)
    {
      state, reqAddr, reqWdata, reqWrite, rspRdata := IDLE, 0, 0, false, 0;
      reqWstrb := [false, false, false, false];
      dataArray := new Word[16](_ => 0);
      tagArray := new nat[16](_ => 0);
      validArray := new bool[16](_ => false);
      new;
      LinesAre(EmptyCache());
    }

    lemma StateRegisters()
      requires Valid()
      ensures State().state == state && State().rdata == rspRdata
      ensures State().req == Request(reqWrite, reqAddr, reqWdata, reqWstrb)
      ensures forall x: nat :: x < 16 ==> State().lines[x] == LineAt(x)
    {
      forall x: nat | x < 16
        ensures State().lines[x] == LineAt(x)
      {
        LineInState(x);
      }
    }

    /** The reset branch of the clock edge. */
    method Reset()
      requires Valid()
      modifies this, dataArray, tagArray, validArray
      ensures State() == EmptyCache()
    {
      hide CacheUnit.State;
      state, reqAddr, reqWdata, reqWrite, rspRdata := IDLE, 0, 0, false, 0;
      reqWstrb := [false, false, false, false];
      for i := 0 to 16
        invariant forall x :: 0 <= x < i ==> dataArray[x] == 0 && tagArray[x] == 0 && !validArray[x]
        modifies dataArray, tagArray, validArray
      {
        dataArray[i], tagArray[i], validArray[i] := 0, 0, false;
      }
      LinesAre(EmptyCache());
    }

    /** The clock edge out of reset, with the memory word on the read bus. */
    method Clock(i: Inputs, memRdata: Word, ghost memory: seq<Word>)
      requires Valid() && |memory| > 0
      requires memRdata == memory[(reqAddr / 4) % |memory|]
      modifies this, dataArray, tagArray, validArray
      ensures State() == Step(System(old(State()), memory), i).cache
    {
      hide CacheUnit.State, NextState, NextLines, NextResponse, NextMemory, MergeWstrb;
      ghost var s := System(State(), memory);
      StateRegisters();
      ghost var c := Step(s, i).cache;
      var x, tag := reqAddr / 4 % 16, reqAddr / 4 / 16;
      var hit := validArray[x] && tagArray[x] == tag;
      var word := dataArray[x];
      var write, wdata, wstrb, before := reqWrite, reqWdata, reqWstrb, state;
      UpdateControl(i, hit, word, memRdata, s);
      UpdateLines(i, before, x, tag, hit, memRdata, wdata, wstrb, s);
      LinesAre(c);
    }

    /** State, request registers and response register. */
    method UpdateControl(i: Inputs, hit: bool, word: Word, memRdata: Word, ghost s: System)
      requires WellFormed(s) && s.cache.state == state && s.cache.rdata == rspRdata
      requires s.cache.req == Request(reqWrite, reqAddr, reqWdata, reqWstrb)
      requires hit == Hit(s.cache) && word == s.cache.lines[Index(s.cache.req)].data
      requires memRdata == s.memory[Cell(s, WordAddr(s.cache.req))]
      modifies this
      ensures state == NextState(s, i) && rspRdata == NextResponse(s, i)
      ensures Request(reqWrite, reqAddr, reqWdata, reqWstrb) == Step(s, i).cache.req
    {
      match state {
        case IDLE =>
          if i.reqValid {
            state, reqAddr, reqWdata, reqWstrb, reqWrite := LOOKUP, i.req.addr, i.req.wdata, i.req.wstrb, i.req.write;
          }
        case LOOKUP =>
          if reqWrite {
            state := MEM_WRITE;
          } else if hit {
            state, rspRdata := RESP, word;
          } else {
            state := REFILL;
          }
        case REFILL =>
          if i.memReady {
            state, rspRdata := RESP, memRdata;
          }
        case MEM_WRITE =>
          if i.memReady {
            state, rspRdata := RESP, 0;
          }
        case RESP =>
          if i.rspReady {
            state := IDLE;
          }
      }
    }

    /** The line arrays: a completed refill fills a line, a completed write merges into a resident one. */
    method UpdateLines(i: Inputs, before: Fsm, x: nat, tag: nat, hit: bool, memRdata: Word, wdata: Word, wstrb: Strobes,
        ghost s: System)
      requires Valid() && WellFormed(s) && s.cache.state == before
      requires forall y: nat :: y < 16 ==> s.cache.lines[y] == LineAt(y)
      requires x == Index(s.cache.req) && tag == Tag(s.cache.req) && hit == Hit(s.cache)
      requires wdata == s.cache.req.wdata && wstrb == s.cache.req.wstrb
      requires memRdata == s.memory[Cell(s, WordAddr(s.cache.req))]
      modifies dataArray, tagArray, validArray
      ensures forall y: nat :: y < 16 ==> LineAt(y) == NextLines(s, i)[y]
    {
      hide MergeWstrb;
      if before == REFILL && i.memReady {
        dataArray[x], tagArray[x], validArray[x] := memRdata, tag, true;
      }
      if before == MEM_WRITE && i.memReady && hit {
        dataArray[x] := MergeWstrb(dataArray[x], wdata, wstrb);
      }
    }
  }

  /** memory_controller: a word memory whose byte lanes are written in place. */
  class MemoryUnit {
    const memory: array<Word>

    constructor (words: seq<Word>)
      requires |words| > 0
      ensures memory[..] == words && fresh(memory)
    {
      memory := new Word[|words|](n requires 0 <= n < |words| => words[n]);
    }

    method Clock(accepted: bool, write: bool, index: nat, wdata: Word, wstrb: Strobes)
      requires index < memory.Length
      modifies memory
      ensures memory[..] == if accepted && write
                            then old(memory[..])[index := MergeWstrb(old(memory[index]), wdata, wstrb)]
                            else old(memory[..])
    {
      if accepted && write {
        ghost var old_ := memory[index];
        for k := 0 to 4
          invariant memory[index] == Lanes(k, old_, wdata, wstrb)
          invariant forall n :: 0 <= n < memory.Length && n != index ==> memory[n] == old(memory[n])
        {
          if wstrb[k] {
            memory[index] := SetLane(memory[index], k, ByteOf(wdata, k));
          }
        }
        LanesMerge(old_, wdata, wstrb);
        assert memory[..] == old(memory[..])[index := MergeWstrb(old(memory[index]), wdata, wstrb)];
      }
    }
  }

  /** Assignment to one byte slice of a word. */
  function SetLane(w: Word, k: Lane, b: Byte): Word {
    Assemble(if k == 0 then b else ByteOf(w, 0), if k == 1 then b else ByteOf(w, 1),
             if k == 2 then b else ByteOf(w, 2), if k == 3 then b else ByteOf(w, 3))
  }

  lemma SetLaneByte(w: Word, k: Lane, b: Byte, j: Lane)
    ensures ByteOf(SetLane(w, k, b), j) == if j == k then b else ByteOf(w, j)
  {
    hide ByteOf;
    AssembledByte(if k == 0 then b else ByteOf(w, 0), if k == 1 then b else ByteOf(w, 1),
                  if k == 2 then b else ByteOf(w, 2), if k == 3 then b else ByteOf(w, 3));
  }

  /** The word once the first k lanes have been assigned. */
  ghost function Lanes(k: nat, old_: Word, wdata: Word, wstrb: Strobes): Word
    requires k <= 4
  {
    if k == 0 then old_
    else if wstrb[k - 1] then SetLane(Lanes(k - 1, old_, wdata, wstrb), k - 1, ByteOf(wdata, k - 1))
    else Lanes(k - 1, old_, wdata, wstrb)
  }

  lemma {:induction false} LanesByte(k: nat, old_: Word, wdata: Word, wstrb: Strobes, j: Lane)
    requires k <= 4
    ensures ByteOf(Lanes(k, old_, wdata, wstrb), j) == if j < k then Pick(wstrb, old_, wdata, j) else ByteOf(old_, j)
  {
    hide ByteOf, SetLane;
    if k > 0 {
      LanesByte(k - 1, old_, wdata, wstrb, j);
      SetLaneByte(Lanes(k - 1, old_, wdata, wstrb), k - 1, ByteOf(wdata, k - 1), j);
    }
  }

  /** Four slice assignments make the merge. */
  lemma LanesMerge(old_: Word, wdata: Word, wstrb: Strobes)
    ensures Lanes(4, old_, wdata, wstrb) == MergeWstrb(old_, wdata, wstrb)
  {
    hide ByteOf, SetLane, MergeWstrb, Lanes;
    MergeByLane(old_, wdata, wstrb);
    Bytes(Lanes(4, old_, wdata, wstrb));
    LanesByte(4, old_, wdata, wstrb, 0);
    LanesByte(4, old_, wdata, wstrb, 1);
    LanesByte(4, old_, wdata, wstrb, 2);
    LanesByte(4, old_, wdata, wstrb, 3);
  }

  /** The cache wired to its memory. */
  class SystemUnit {
    const cache: CacheUnit
    const memory: MemoryUnit

    ghost predicate Valid() {
      cache.Valid() && memory.memory.Length > 0 && memory.memory != cache.dataArray
        && (memory.memory as object) != cache.tagArray
    }

    ghost function State(): (s: System)
      requires Valid()
      reads cache, cache.dataArray, cache.tagArray, cache.validArray, memory.memory
      ensures WellFormed(s)
    {
      System(cache.State(), memory.memory[..])
    }

    constructor (words: seq<Word>)
      requires |words| > 0
      ensures Valid() && State() == CacheV2.Reset(words)
    {
      cache := new CacheUnit();
      memory := new MemoryUnit(words);
    }

    /** One edge: the bus is settled from the registers before either side changes. */
    method Clock(i: Inputs)
      requires Valid()
      modifies cache, cache.dataArray, cache.tagArray, cache.validArray, memory.memory
      ensures State() == Step(old(State()), i)
    {
      hide MergeWstrb, CacheUnit.State;
      ghost var s := State();
      cache.StateRegisters();
      var wordAddr := cache.reqAddr / 4;
      var index := wordAddr % memory.memory.Length;
      var write := cache.state == MEM_WRITE;
      var accepted := (cache.state == REFILL || cache.state == MEM_WRITE) && i.memReady;
      var wdata, wstrb := cache.reqWdata, cache.reqWstrb;
      cache.Clock(i, memory.memory[index], memory.memory[..]);
      memory.Clock(accepted, write, index, wdata, wstrb);
      assert memory.memory[..] == NextMemory(s, i);
    }
  }
}
