// Bytecode vectors as the compiler builds them, and the loops that walk over them.
module Bytecode {
  import opened Words
  import opened Machine
  import opened Code
  import opened Segments

  predicate Addressable(rw: Rewrite) {
    rw.Relocate? ==> forall i :: 0 <= i < |rw.addr| ==> rw.addr[i] < 4096
  }

  /** The words before `done` are rewritten, the others not yet. */
  ghost predicate Replaced(rw: Rewrite, before: seq<u16>, now: seq<u16>, done: nat) {
    done <= |now| == |before| && now[done..] == before[done..]
    && Rewritten(before, rw) == now[..done] + Rewritten(before[done..], rw)
  }

  lemma ReplacedAll(rw: Rewrite, before: seq<u16>, now: seq<u16>)
    requires Replaced(rw, before, now, |before|)
    ensures now == Rewritten(before, rw)
  {
    assert before[|before|..] == [] && now[..|before|] == now;
  }

  lemma RewriteKeepsSize(rw: Rewrite, w: u16)
    requires Addressable(rw)
    ensures WordSize(RewriteWord(rw, w)) == WordSize(w)
  {
  }

  lemma ReplaceStep(rw: Rewrite, before: seq<u16>, now: seq<u16>, pc: nat)
    requires Replaced(rw, before, now, pc) && pc < |before| && Addressable(rw)
    ensures now[pc] == before[pc] && WordSize(RewriteWord(rw, now[pc])) == WordSize(now[pc])
    ensures var next := pc + WordSize(now[pc]);
            Replaced(rw, before, now[pc := RewriteWord(rw, now[pc])], if next < |before| then next else |before|)
    ensures RewriteWord(rw, now[pc]) == now[pc] ==> now[pc := RewriteWord(rw, now[pc])] == now
  {
    hide Rewritten, Word, RewriteWord;
    RewriteKeepsSize(rw, now[pc]);
    var rest := before[pc..];
    var n := HeadSize(rest);
    var w := RewriteWord(rw, now[pc]);
    var now' := now[pc := w];
    assert now[pc] == now[pc..][0] == rest[0];
    var head := [w] + rest[1..n];
    assert now'[..pc + n] == now[..pc] + head by {
      assert now'[..pc] == now[..pc];
      forall k | 0 <= k < n
        ensures now'[pc..pc + n][k] == head[k]
      {
        assert now[pc + k] == now[pc..][k] == rest[k];
      }
    }
    assert before[pc + n..] == rest[n..];
    assert now'[pc + n..] == rest[n..] by {
      assert now'[pc + n..] == now[pc..][n..];
    }
    RewrittenStep(rest, rw);
    assert now[..pc] + (head + Rewritten(rest[n..], rw)) == now[..pc] + head + Rewritten(rest[n..], rw);
  }

  lemma RewrittenStep(c: seq<u16>, rw: Rewrite)
    requires c != []
    ensures Rewritten(c, rw) == [RewriteWord(rw, c[0])] + c[1..HeadSize(c)] + Rewritten(c[HeadSize(c)..], rw)
  {
  }

  class BytecodeVector {
    var words: seq<u16>
    var maxStackDepth: nat
    var callDepth: nat

    constructor ()
      ensures words == [] && maxStackDepth == 0 && callDepth == 0
    {
      words, maxStackDepth, callDepth := [], 0, 0;
    }

    method PushBack(w: u16)
      modifies this`words
      ensures words == old(words) + [w]
    {
      words := words + [w];
    }

    /** Every STOP becomes a SUB_RET. */
    method ChangeStopToRetSub()
      modifies this`words
      ensures words == Rewritten(old(words), StopToRet)
    {
      hide Rewritten, HeadSize;
      ghost var before := words;
      var end := |words|;
      var pc := 0;
      while pc < end
        invariant |words| == end == |before|
        invariant Replaced(StopToRet, before, words, if pc < end then pc else end)
      {
        var element := words[pc];
        ReplaceStep(StopToRet, before, words, pc);
        if element / 4096 == STOP {
          element := Word(SUB_RET, 0);
          words := words[pc := element];
        }
        pc := pc + WordSize(element);
      }
      ReplacedAll(StopToRet, before, words);
    }

    /** The opcode of the last instruction, 16 if there is none. */
    method GetTypeOfLast() returns (last: nat)
      ensures last == TypeOfLast(words)
    {
      last := 16;
      var pc := 0;
      while pc < |words|
        invariant pc < |words| ==> TypeOfLast(words) == LastType(words[pc..], last)
        invariant pc >= |words| ==> TypeOfLast(words) == last
      {
        var element := words[pc];
        last := element / 4096;
        if pc + WordSize(element) < |words| {
          assert words[pc..][WordSize(element)..] == words[pc + WordSize(element)..];
        }
        pc := pc + WordSize(element);
      }
    }
  }
}
