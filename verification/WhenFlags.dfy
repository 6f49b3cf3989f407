// Resetting the marks of `when` statements: what the walk over the bytecode really clears.
module WhenFlags {
  import opened Words
  import opened Machine
  import opened Segments
  import opened Boundaries
  import opened Vm
  import opened Tree
  import opened Operators
  import opened Code
  import opened Linker
  import opened Emitter
  import opened Walks
  import opened Programs
  import opened Compiler
  import opened Layout

  /** The walk from pc on, clearing the mark of what it takes for branches. */
  function Reset(words: seq<u16>, pc: nat): (r: seq<u16>)
    ensures |r| == |words|
    decreases |words| - pc
  {
    if pc >= |words| then words
    else Reset(if words[pc] / 4096 == CONDITIONAL_BRANCH then words[pc := Marked(words[pc], false)] else words,
               pc + WordSize(words[pc]))
  }

  /** Where the walk starts: the first word already counts both words of each table entry
      and itself, but is doubled once more. */
  function ResetStart(words: seq<u16>): (r: u16)
    requires words != []
  {
    U16((words[0] as int) * 2 + 1)
  }

  /** AsebaVMResetWhenFlags */
  method ResetWhenFlags(bytecode: array<u16>)
    requires 0 < bytecode.Length < 65536
    modifies bytecode
    ensures bytecode[..] == Reset(old(bytecode[..]), ResetStart(old(bytecode[..])))
  {
    hide Marked;
    var eventVectSize := bytecode[0];
    var pc: int := U16((eventVectSize as int) * 2 + 1);
    while pc < bytecode.Length
      invariant pc >= 0
      invariant Reset(old(bytecode[..]), ResetStart(old(bytecode[..]))) == Reset(bytecode[..], pc)
    {
      var opcode := bytecode[pc] / 4096;
      ghost var before := bytecode[..];
      if opcode == LARGE_IMMEDIATE || opcode == LOAD_INDIRECT || opcode == STORE_INDIRECT {
        pc := pc + 2;
      } else if opcode == CONDITIONAL_BRANCH {
        bytecode[pc] := Marked(bytecode[pc], false);
        assert bytecode[..] == before[pc := Marked(before[pc], false)];
        pc := pc + 2;
      } else if opcode == EMIT {
        pc := pc + 3;
      } else {
        pc := pc + 1;
      }
    }
  }

  // ---------------------------------------------------------------- marks

  /** The words are those of the program, but for the marks of its branches. */
  ghost predicate LoadedWords(words: seq<u16>, code: seq<u16>) {
    |words| == |code| && forall a :: 0 <= a < |code| ==>
      words[a] == code[a] || (IsBranch(code, a) && SameButMark(words[a], code[a]))
  }

  /** The branches that are marked. */
  ghost function MarksOf(words: seq<u16>, code: seq<u16>): set<nat> {
    set a: nat | a < |code| && a < |words| && IsBranch(code, a) && WasTrue(words[a])
  }

  /** The next instruction begins right after the operands of this one. */
  lemma {:induction false} NextBoundary(c: seq<u16>, a: nat)
    requires Boundary(c, a) && a < |c| && a + WordSize(c[a]) <= |c|
    ensures Boundary(c, a + WordSize(c[a]))
    decreases |c|
  {
    if a > 0 {
      var n := HeadSize(c);
      assert c[n..][a - n] == c[a];
      NextBoundary(c[n..], a - n);
    }
  }

  lemma SameWalk(words: seq<u16>, code: seq<u16>, pc: nat)
    requires LoadedWords(words, code) && pc < |code|
    ensures words[pc] / 4096 == code[pc] / 4096 && WordSize(words[pc]) == WordSize(code[pc])
  {
    if words[pc] != code[pc] {
      OpcodeField(words[pc], code[pc]);
    }
  }

  /** One step of the walk, at an instruction of the program. */
  lemma ResetStep(words: seq<u16>, code: seq<u16>, pc: nat)
    requires LoadedWords(words, code) && pc < |code| && Boundary(code, pc)
    ensures var next := if words[pc] / 4096 == CONDITIONAL_BRANCH then words[pc := Marked(words[pc], false)] else words;
            LoadedWords(next, code) && MarksOf(next, code) == MarksOf(words, code) - {pc}
  {
    hide Boundary, Marked, WasTrue;
    SameWalk(words, code, pc);
    MarkedSame(words[pc], code[pc], false);
  }

  /** From an instruction of the program on, the walk clears every mark, and changes nothing
      else. */
  lemma {:induction false} ResetClears(words: seq<u16>, code: seq<u16>, pc: nat)
    requires LoadedWords(words, code) && (pc < |code| ==> Boundary(code, pc))
    ensures LoadedWords(Reset(words, pc), code)
    ensures MarksOf(Reset(words, pc), code) == set a | a in MarksOf(words, code) && a < pc
    decreases |words| - pc
  {
    hide Boundary, Marked, LoadedWords, WasTrue;
    LoadedSize(words, code);
    if pc < |words| {
      ResetStep(words, code, pc);
      SameWalk(words, code, pc);
      var next := if words[pc] / 4096 == CONDITIONAL_BRANCH then words[pc := Marked(words[pc], false)] else words;
      var n := WordSize(words[pc]);
      if pc + n <= |code| { NextBoundary(code, pc); }
      ResetClears(next, code, pc + n);
      forall a | a in MarksOf(words, code) && pc < a < pc + n
        ensures false
      {
        OperandsAreNot(code, pc, a - pc);
      }
    }
  }

  lemma LoadedSize(words: seq<u16>, code: seq<u16>)
    requires LoadedWords(words, code)
    ensures |words| == |code|
  {
  }

  /** A branch before the start of the walk keeps its mark, whatever the walk meets. */
  lemma {:induction false} ResetMisses(words: seq<u16>, pc: nat, a: nat)
    requires a < pc && a < |words|
    ensures Reset(words, pc)[a] == words[a]
    decreases |words| - pc
  {
    hide Marked;
    if pc < |words| {
      ResetMisses(if words[pc] / 4096 == CONDITIONAL_BRANCH then words[pc := Marked(words[pc], false)] else words,
                  pc + WordSize(words[pc]), a);
    }
  }

  /** If the walk starts at an instruction, all marks are reset, whichever are set, exactly
      when no branch comes before it. */
  lemma ResetAligned(code: seq<u16>)
    requires code != [] && (ResetStart(code) < |code| ==> Boundary(code, ResetStart(code)))
    requires code[0] / 4096 != CONDITIONAL_BRANCH
    ensures (forall words :: LoadedWords(words, code) ==> MarksOf(Reset(words, ResetStart(code)), code) == {}) <==>
            forall a: nat :: IsBranch(code, a) ==> a >= ResetStart(code)
    ensures forall words :: LoadedWords(words, code) ==> words != [] && ResetStart(words) == ResetStart(code)
  {
    hide Boundary, Reset, MarksOf, LoadedWords, IsBranch;
    forall words | LoadedWords(words, code)
      ensures words != [] && ResetStart(words) == ResetStart(code)
    {
      FirstWord(words, code);
    }
    if a: nat :| IsBranch(code, a) && a < ResetStart(code) {
      ResetLeaves(code, a);
    } else {
      forall words | LoadedWords(words, code)
        ensures MarksOf(Reset(words, ResetStart(code)), code) == {}
      {
        ResetClears(words, code, ResetStart(code));
        NoMarkBefore(words, code, ResetStart(code));
      }
    }
  }

  lemma FirstWord(words: seq<u16>, code: seq<u16>)
    requires LoadedWords(words, code) && code != [] && code[0] / 4096 != CONDITIONAL_BRANCH
    ensures words != [] && words[0] == code[0]
  {
  }

  lemma NoMarkBefore(words: seq<u16>, code: seq<u16>, start: nat)
    requires forall a: nat :: IsBranch(code, a) ==> a >= start
    ensures (set a | a in MarksOf(words, code) && a < start) == {}
  {
  }

  /** The program with one branch before the start of the walk marked. */
  lemma ResetLeaves(code: seq<u16>, a: nat)
    requires IsBranch(code, a) && code != [] && a < ResetStart(code)
    ensures exists words :: LoadedWords(words, code) && MarksOf(Reset(words, ResetStart(code)), code) != {}
  {
    hide Boundary, Reset, Marked, WasTrue;
    var words := code[a := Marked(code[a], true)];
    MarkedSame(code[a], code[a], true);
    assert LoadedWords(words, code);
    ResetMisses(words, ResetStart(code), a);
    assert a in MarksOf(Reset(words, ResetStart(code)), code);
  }

  // ---------------------------------------------------------------- wherever the walk starts

  /** The words that a walk from pc takes for instructions. */
  function Visited(code: seq<u16>, pc: nat): set<nat>
    decreases |code| - pc
  {
    if pc >= |code| then {} else {pc} + Visited(code, pc + WordSize(code[pc]))
  }

  lemma {:induction false} VisitedFrom(code: seq<u16>, pc: nat)
    ensures forall a :: a in Visited(code, pc) ==> pc <= a < |code|
    decreases |code| - pc
  {
    if pc < |code| {
      VisitedFrom(code, pc + WordSize(code[pc]));
    }
  }

  predicate TakenForBranch(code: seq<u16>, start: nat, a: nat) {
    a < |code| && a in Visited(code, start) && code[a] / 4096 == CONDITIONAL_BRANCH
  }

  ghost predicate SameOpcodes(words: seq<u16>, code: seq<u16>) {
    |words| == |code| && forall a :: 0 <= a < |code| ==> words[a] / 4096 == code[a] / 4096
  }

  /** What the walk makes of each word. */
  lemma {:induction false} ResetAt(words: seq<u16>, code: seq<u16>, pc: nat, a: nat)
    requires SameOpcodes(words, code) && a < |code|
    ensures Reset(words, pc)[a] == if TakenForBranch(code, pc, a) then Marked(words[a], false) else words[a]
    decreases |code| - pc
  {
    hide Marked, WasTrue;
    if pc < |code| {
      assert words[pc] / 4096 == code[pc] / 4096;
      var n := WordSize(code[pc]);
      var next := if code[pc] / 4096 == CONDITIONAL_BRANCH then words[pc := Marked(words[pc], false)] else words;
      OpcodeField(Marked(words[pc], false), words[pc]);
      VisitedFrom(code, pc + n);
      ResetAt(next, code, pc + n, a);
      ResetUnfold(words, pc);
    }
  }

  lemma LoadedOpcodes(words: seq<u16>, code: seq<u16>)
    requires LoadedWords(words, code)
    ensures SameOpcodes(words, code)
  {
    hide Boundary;
    forall a | 0 <= a < |code|
      ensures words[a] / 4096 == code[a] / 4096
    {
      SameWalk(words, code, a);
    }
  }

  lemma Unmarked(w: u16)
    ensures Marked(w, false) == w <==> !WasTrue(w)
  {
    Fields(w);
  }

  /** The walk resets the program, whichever marks are set: it clears them all and changes
      nothing else. */
  ghost predicate Resets(code: seq<u16>, start: nat) {
    forall words :: LoadedWords(words, code) ==>
                      LoadedWords(Reset(words, start), code) && MarksOf(Reset(words, start), code) == {}
  }

  lemma ResetGood(words: seq<u16>, code: seq<u16>, start: nat)
    requires LoadedWords(words, code) && forall a: nat :: IsBranch(code, a) ==> a in Visited(code, start)
    requires forall a: nat :: TakenForBranch(code, start, a) && !Boundary(code, a) ==> !WasTrue(code[a])
    ensures LoadedWords(Reset(words, start), code) && MarksOf(Reset(words, start), code) == {}
  {
    hide Boundary, Marked, WasTrue, Visited;
    LoadedOpcodes(words, code);
    forall a: nat | a < |code|
      ensures var w := Reset(words, start)[a]; w == code[a] || (IsBranch(code, a) && SameButMark(w, code[a]))
      ensures IsBranch(code, a) ==> !WasTrue(Reset(words, start)[a])
    {
      ResetAt(words, code, start, a);
      MarkedSame(words[a], words[a], false);
      Unmarked(words[a]);
    }
  }

  /** It does exactly when it meets all branches, and takes for a branch no operand that reads
      as a marked one. */
  lemma ResetExact(code: seq<u16>, start: nat)
    ensures Resets(code, start) <==>
            && (forall a: nat :: IsBranch(code, a) ==> a in Visited(code, start))
            && (forall a: nat :: TakenForBranch(code, start, a) && !Boundary(code, a) ==> !WasTrue(code[a]))
  {
    hide Boundary, Marked, WasTrue, Visited, MarksOf, Reset, LoadedWords;
    LoadedItself(code);
    if a: nat :| IsBranch(code, a) && a !in Visited(code, start) {
      BranchMissed(code, start, a);
    } else if a: nat :| TakenForBranch(code, start, a) && !Boundary(code, a) && WasTrue(code[a]) {
      OperandChanged(code, start, a);
    } else {
      forall words | LoadedWords(words, code)
        ensures LoadedWords(Reset(words, start), code) && MarksOf(Reset(words, start), code) == {}
      {
        ResetGood(words, code, start);
      }
    }
  }

  lemma LoadedItself(code: seq<u16>)
    ensures LoadedWords(code, code)
  {
  }

  lemma BranchMissed(code: seq<u16>, start: nat, a: nat)
    requires IsBranch(code, a) && a !in Visited(code, start)
    ensures !Resets(code, start)
  {
    hide Boundary, Marked, WasTrue, Visited, Reset;
    var words := code[a := Marked(code[a], true)];
    MarkedSame(code[a], code[a], true);
    assert LoadedWords(words, code);
    LoadedOpcodes(words, code);
    ResetAt(words, code, start, a);
    assert a in MarksOf(Reset(words, start), code);
  }

  lemma OperandChanged(code: seq<u16>, start: nat, a: nat)
    requires TakenForBranch(code, start, a) && !Boundary(code, a) && WasTrue(code[a])
    ensures !Resets(code, start)
  {
    hide Boundary, Marked, WasTrue, Visited, Reset;
    LoadedItself(code);
    LoadedOpcodes(code, code);
    ResetAt(code, code, start, a);
    Unmarked(code[a]);
  }

  /** The handler of `a = b` and `c = d + -23809`. */
  const ADDS_CONSTANT: seq<Stmt> := [Assign(Store(0), Load(1)), Assign(Store(2), Binary(Add, Load(3), Imm(-23809)))]

  function ScriptWords(): seq<u16> {
    [3, 0xFFFF, 3, 0x3001, 0x4000, 0x3003, 0x2000, 0xA2FF, 0x8000 + Add.Code(), 0x4002, 0]
  }

  lemma ScriptCode()
    ensures EventWords(ADDS_CONSTANT) == ScriptWords()[3..] && EmittableUnit(ADDS_CONSTANT, 0)
  {
    var tail := ADDS_CONSTANT[1..];
    assert tail == [Assign(Store(2), Binary(Add, Load(3), Imm(-23809)))] && tail[1..] == [];
    assert StmtCode(ADDS_CONSTANT[0], UNLINKED) == [0x3001, 0x4000];
    assert StmtCode(tail[0], UNLINKED) == [0x3003, 0x2000, 0xA2FF, 0x8000 + Add.Code(), 0x4002];
    assert BlockCode(tail, UNLINKED) == StmtCode(tail[0], UNLINKED) + [];
  }

  /** Nothing is rewritten where there are no subroutines. */
  lemma {:induction false} NothingRewritten(c: seq<u16>)
    ensures Rewritten(c, Relocate([])) == c
    decreases |c|
  {
    if c != [] { NothingRewritten(c[HeadSize(c)..]); }
  }

  lemma ScriptLinked()
    ensures var p := Program([Handler(EVENT_INIT, ADDS_CONSTANT)], []);
            Linkable(p) && ProgramWords(p) == ScriptWords()
  {
    hide ScriptWords, EventWords, EmittableUnit, Rewritten;
    var p := Program([Handler(EVENT_INIT, ADDS_CONSTANT)], []);
    ScriptCode();
    ScriptHeader();
    assert EventCodes(p) == [EventWords(ADDS_CONSTANT)] && SubCodes(p) == [] && Ids(p.events) == [EVENT_INIT];
    assert Flat(Ids(p.events), EventCodes(p), SubCodes(p)) == ScriptWords();
    NothingRewritten(ScriptWords());
  }

  lemma ScriptHeader()
    ensures |ScriptWords()| == 11
    ensures ScriptWords() == [3, 0xFFFF, 3] + ScriptWords()[3..]
    ensures forall c :: Header([0xFFFF], [c]) == [3, 0xFFFF, 3]
  {
  }

  /** If it does not, it can change a constant. The walk over this script starts at the operand
      of a LARGE_IMMEDIATE, takes it for a branch, and clears its bit 9: -23809 is -24321 then. */
  lemma ResetCorrupts()
    ensures var p := Program([Handler(EVENT_INIT, ADDS_CONSTANT)], []);
            var code := ProgramWords(p);
            && Linkable(p) && |code| == 11 && ResetStart(code) == 7
            && Boundary(code, 6) && !Boundary(code, 7) && code[6] / 4096 == LARGE_IMMEDIATE && S16(code[7]) == -23809
            && Reset(code, ResetStart(code)) == code[7 := U16(-24321)]
  {
    hide Boundary, Reset, Marked, ProgramWords, Linkable;
    ScriptLinked();
    var code := ScriptWords();
    BoundaryStart(code);
    for a := 0 to 6
      invariant Boundary(code, a)
    {
      assert WordSize(code[a]) == 1;
      NextBoundary(code, a);
    }
    OperandsAreNot(code, 6, 1);
    MarkCleared();
    ResetUnfold(code, 7);
    ResetUnfold(code[7 := 0xA0FF], 9);
    ResetUnfold(code[7 := 0xA0FF], 10);
    ResetUnfold(code[7 := 0xA0FF], 11);
  }

  lemma MarkCleared()
    ensures Marked(0xA2FF, false) == 0xA0FF
  {
  }

  lemma ResetUnfold(words: seq<u16>, pc: nat)
    ensures Reset(words, pc) ==
            if pc >= |words| then words
            else Reset(if words[pc] / 4096 == CONDITIONAL_BRANCH then words[pc := Marked(words[pc], false)] else words,
                       pc + WordSize(words[pc]))
  {
    hide Marked;
  }
}
