/**
 The two routines on either end of the seqlock, over a real word array and a real
 32-bit counter.  The writer may run between any two accesses of the reader.
 */
module SnapshotCode {
  import opened Bytes
  import opened Seqlock

  /** Blocked: the writer has not left its update, or kept overtaking the copy, for as long as the run lasted. */
  datatype Result = Updated(values: Words) | Unchanged | Blocked

  class SharedMemory {
    const words: array<int>
    var updateAtomicCounter: nat
    var shmPrevCounter: nat
    var writer: Writer
    ghost var model: State
    ghost var turns: seq<(seq<Action>, nat -> seq<Action>)>

    ghost predicate Valid()
      reads this, words
    {
      Mirrors() && Inv(model)
    }

    /** Clears the shared memory, as the bare-metal initialisation does. */
    constructor (n: nat)
      ensures Valid() && fresh(words) && words.Length == n
      ensures IsInit(model) && forall j :: 0 <= j < n ==> words[j] == 0
    {
      words := new int[n](_ => 0);
      updateAtomicCounter, shmPrevCounter, writer := 0, 0, WriterIdle;
      new;
      model := State(words[..], 0, [words[..]], WriterIdle, ReaderIdle, 0, [], []);
    }

    /** The real memory, counter and writer stand where the protocol does. */
    ghost predicate Mirrors()
      reads this, words
    {
      && words[..] == model.mem
      && updateAtomicCounter == Shown(model.count)
      && shmPrevCounter == Shown(model.prev)
      && writer == model.writer
    }

    /** One access of the writing task on the real memory. */
    method Store(a: Action)
      requires Mirrors() && ByWriter(a) && Enabled(model, a)
      modifies this, words
      ensures Mirrors() && model == Next(old(model), a) && shmPrevCounter == old(shmPrevCounter) && turns == old(turns)
    {
      ShownNext(model.count);
      model := Next(model, a);
      match a
      case BeginUpdate(values) =>
        updateAtomicCounter := (updateAtomicCounter + 1) % TWO_TO_32;
        writer := Writing(values, {});
      case StoreWord(j) =>
        words[j] := writer.values[j];
        writer := writer.(stored := writer.stored + {j});
      case EndUpdate =>
        updateAtomicCounter := (updateAtomicCounter + 1) % TWO_TO_32;
        writer := WriterIdle;
    }

    /** The same access with the protocol's invariant. */
    method WriterAccess(a: Action)
      requires Valid() && ByWriter(a) && Ready(words.Length, writer, model.reader, a)
      modifies this, words
      ensures Valid() && Enabled(old(model), a) && model == Next(old(model), a)
      ensures shmPrevCounter == old(shmPrevCounter) && turns == old(turns)
    {
      StepKeepsInv(model, a);
      Store(a);
    }

    /** Any number of the writer's accesses; the reader's own state and logs are left alone. */
    method WriterRuns(acts: seq<Action>)
      requires Valid()
      modifies this, words
      ensures Valid() && shmPrevCounter == old(shmPrevCounter)
      ensures model.reader == old(model.reader) && model.prev == old(model.prev)
      ensures model.accepted == old(model.accepted) && model.refused == old(model.refused)
      ensures |model.mem| == |old(model.mem)| && turns == old(turns)
      ensures model == AfterWriter(old(model), acts)
    {
      for i := 0 to |acts|
        invariant Valid() && shmPrevCounter == old(shmPrevCounter)
        invariant model.reader == old(model.reader) && model.prev == old(model.prev)
        invariant model.accepted == old(model.accepted) && model.refused == old(model.refused)
        invariant |model.mem| == |old(model.mem)| && turns == old(turns)
        invariant model == AfterWriter(old(model), acts[..i])
      {
        assert acts[..i + 1][..i] == acts[..i];
        if ByWriter(acts[i]) && Ready(words.Length, writer, ReaderIdle, acts[i]) {
          WriterAccess(acts[i]);
        }
      }
      assert acts[..|acts|] == acts;
    }

    /** The T0 task's update: odd counter, all fields, even counter. */
    method StoreUpdate(values: Words)
      requires Valid() && writer.WriterIdle? && |values| == words.Length
      modifies this, words
      ensures Valid() && writer.WriterIdle? && words[..] == values
      ensures model.updates == old(model.updates) + [values]
      ensures model.count == old(model.count) + 2
    {
      WriterAccess(BeginUpdate(values));
      for j := 0 to words.Length
        invariant Valid() && model.updates == old(model.updates) && model.count == old(model.count) + 1
        invariant writer.Writing? && writer.values == values && forall i :: 0 <= i < j ==> i in writer.stored
      {
        WriterAccess(StoreWord(j));
      }
      WriterAccess(EndUpdate);
      assert model.mem == model.updates[model.count / 2];
    }

    /** One protocol step of the reader that touches no shared memory. */
    ghost method ReaderStep(a: Action)
      requires Valid() && !ByWriter(a) && !a.Recheck? && Enabled(model, a)
      modifies this`model
      ensures Valid() && model == Next(old(model), a)
    {
      StepKeepsInv(model, a);
      model := Next(model, a);
    }

    /** The writer does nothing at any of these points. */
    ghost predicate Silent(env: nat -> seq<Action>) {
      forall j: nat :: env(j) == []
    }

    ghost predicate AllSilent(env: nat -> nat -> seq<Action>) {
      forall i: nat :: Silent(env(i))
    }

    /** Loads one word, after whatever the writer does first. */
    method CopyWord(acts: seq<Action>, j: nat) returns (value: int)
      requires Valid() && model.reader.Copying? && j < words.Length
      modifies this, words
      ensures Valid() && shmPrevCounter == old(shmPrevCounter) && turns == old(turns)
      ensures model.reader == old(model.reader).(got := old(model.reader).got[j := value])
      ensures model.accepted == old(model.accepted) && model.refused == old(model.refused) && model.prev == old(model.prev)
      ensures acts == [] ==> model.count == old(model.count) && model.writer == old(model.writer) && model.mem == old(model.mem)
      ensures model == AfterAccess(AfterWriter(old(model), acts), LoadWord(j)) && value == model.mem[j]
    {
      WriterRuns(acts);
      value := words[j];
      ReaderStep(LoadWord(j));
    }

    /** The reader after loading its first j words since s0. */
    ghost predicate HasLoaded(s0: State, env: nat -> seq<Action>, j: nat, values: Words)
      reads this
    {
      && model == AfterLoads(s0, env, j)
      && |values| == j <= |model.mem| == |s0.mem|
      && model.reader.Copying? && s0.reader.Copying? && model.reader.start == s0.reader.start
      && (forall i :: 0 <= i < j ==> i in model.reader.got && values[i] == model.reader.got[i])
      && model.accepted == s0.accepted && model.refused == s0.refused && model.prev == s0.prev
      && (Silent(env) ==> model.count == s0.count && model.writer == s0.writer && model.mem == s0.mem && values == s0.mem[..j])
    }

    method CopyNext(ghost s0: State, env: nat -> seq<Action>, j: nat, values: Words) returns (values': Words)
      requires Valid() && HasLoaded(s0, env, j, values) && j < words.Length
      modifies this, words
      ensures Valid() && HasLoaded(s0, env, j + 1, values')
      ensures shmPrevCounter == old(shmPrevCounter) && turns == old(turns)
    {
      var value := CopyWord(env(j), j);
      values' := values + [value];
      assert Silent(env) ==> env(j) == [] && s0.mem[..j] + [s0.mem[j]] == s0.mem[..j + 1];
    }

    /** Copies every word; the writer may run before each load. */
    method LoadWords(ghost s0: State, env: nat -> seq<Action>) returns (values: Words)
      requires Valid() && model == s0 && model.reader.Copying? && model.reader.got == map[]
      modifies this, words
      ensures Valid() && HasLoaded(s0, env, words.Length, values)
      ensures shmPrevCounter == old(shmPrevCounter) && turns == old(turns)
    {
      values := [];
      for j := 0 to words.Length
        invariant Valid() && HasLoaded(s0, env, j, values)
        invariant shmPrevCounter == old(shmPrevCounter) && turns == old(turns)
      {
        values := CopyNext(s0, env, j, values);
      }
    }

    /** Copies every word; the writer may run before each load and after the last. */
    method CopyWords(env: nat -> seq<Action>) returns (values: Words)
      requires Valid() && model.reader.Copying? && model.reader.got == map[]
      modifies this, words
      ensures Valid() && shmPrevCounter == old(shmPrevCounter)
      ensures model.reader.Copying? && model.reader.start == old(model.reader.start)
      ensures Enabled(model, Recheck) && values == Copied(|model.mem|, model.reader.got)
      ensures model.accepted == old(model.accepted) && model.refused == old(model.refused)
      ensures Silent(env) ==> model.count == old(model.count) && model.writer == old(model.writer) && values == old(model.mem)
      ensures model.prev == old(model.prev) && turns == old(turns)
      ensures model == AfterWriter(AfterLoads(old(model), env, words.Length), env(words.Length))
    {
      values := LoadWords(model, env);
      WriterRuns(env(words.Length));
    }

    /** The last read has been accepted, and returned these values. */
    ghost predicate JustAccepted(before: seq<Accepted>, values: Words)
      reads this
    {
      && |model.updates| == model.count / 2 + 1
      && |model.accepted| == |before| + 1 && before <= model.accepted
      && var a := model.accepted[|before|];
         && values == a.values && model.prev == a.start && 0 < a.start <= a.end <= model.count
         && (a.end - a.start < TWO_TO_32 ==> values == model.updates[a.start / 2])
    }

    /** One pass of the retry loop after an even counter: copy, then compare the counter again. */
    method CopyAndRecheck(startVal: nat, env: nat -> seq<Action>) returns (ok: bool, values: Words)
      requires Valid() && model.reader.Copying? && model.reader.got == map[]
      requires model.reader.start == model.count && startVal == updateAtomicCounter
      modifies this, words
      ensures Valid() && model.refused == old(model.refused)
      ensures ok <==> updateAtomicCounter == startVal
      ensures Silent(env) ==> ok && values == old(model.mem) && model.writer == old(model.writer)
      ensures turns == old(turns) && (ok ==> shmPrevCounter == startVal)
      ensures model == AfterAccess(AfterWriter(AfterLoads(old(model), env, words.Length), env(words.Length)), Recheck)
      ensures !ok ==> model.prev == old(model.prev)
      ensures ok ==> model.reader.ReaderIdle? && JustAccepted(old(model.accepted), values)
      ensures !ok ==> model.reader.WaitingForEven? && model.accepted == old(model.accepted)
    {
      values := CopyWords(env);
      StepKeepsInv(model, Recheck);
      model := Next(model, Recheck);
      ok := updateAtomicCounter == startVal;
      if ok {
        shmPrevCounter := startVal;
        assert AcceptedAgrees(model, model.accepted[|old(model.accepted)|]);
      }
    }

    /** The counter now, as an even or odd count, says whether the writer is inside an update. */
    lemma OddWhileWriting()
      requires Valid()
      ensures updateAtomicCounter % 2 == 1 <==> writer.Writing?
    {
      ShownParity(model.count);
    }

    /** The bookkeeping of a finished read. */
    ghost predicate Finished(accepted: seq<Accepted>, refused: seq<NothingNew>, prev: nat, res: Result)
      reads this
    {
      match res
      case Updated(values) =>
        && model.reader.ReaderIdle? && JustAccepted(accepted, values) && model.refused == refused
        && updateAtomicCounter == shmPrevCounter
      case Unchanged =>
        && model.reader.ReaderIdle? && model.accepted == accepted && model.prev == prev
        && |model.refused| == |refused| + 1 && refused <= model.refused
        && updateAtomicCounter == shmPrevCounter && writer.WriterIdle?
      case Blocked =>
        model.reader.WaitingForEven? && model.accepted == accepted && model.refused == refused && model.prev == prev
    }

    /** One turn of the loop: it ends the read unless the counter is odd or moves during the copy. */
    method Attempt(first: seq<Action>, env: nat -> seq<Action>) returns (res: Result)
      requires Valid() && model.reader.WaitingForEven?
      modifies this, words
      ensures Valid() && Finished(old(model.accepted), old(model.refused), old(model.prev), res)
      ensures turns == old(turns) + [(first, env)] && model == AfterTurn(old(model), first, env)
      ensures Silent(env) ==>
        var now := AfterWriter(old(model), first);
        && writer == now.writer
        && res == if now.writer.Writing? then Blocked
                  else if Shown(now.count) == old(shmPrevCounter) then Unchanged
                  else Updated(now.mem)
    {
      turns := turns + [(first, env)];
      WriterRuns(first);
      var startVal := updateAtomicCounter;
      OddWhileWriting();
      ReaderStep(LoadCounter);
      if startVal % 2 == 1 {
        return Blocked;
      }
      if startVal == shmPrevCounter {
        return Unchanged;
      }
      var ok, values := CopyAndRecheck(startVal, env);
      OddWhileWriting();
      res := if ok then Updated(values) else Blocked;
    }

    /** What the loop needs to know of a turn. */
    method OneTurn(first: seq<Action>, env: nat -> seq<Action>) returns (res: Result)
      requires Valid() && model.reader.WaitingForEven?
      modifies this, words
      ensures Valid() && Finished(old(model.accepted), old(model.refused), old(model.prev), res)
      ensures turns == old(turns) + [(first, env)]
      ensures Silent(env) ==> (res.Blocked? <==> writer.Writing?)
      ensures first == [] && Silent(env) ==> writer == old(writer)
    {
      res := Attempt(first, env);
    }

    /** The log after i turns: what the writer does before the counter load of each, and during its copy. */
    ghost function Turns(t: seq<(seq<Action>, nat -> seq<Action>)>, env: nat -> nat -> seq<Action>, i: nat)
      : seq<(seq<Action>, nat -> seq<Action>)>
    {
      if i == 0 then t else Turns(t, env, i - 1) + [(env(2 * i - 2)(0), env(2 * i - 1))]
    }

    /** The reader after i turns, the last one with this result. */
    ghost predicate Turned(
      s0: State, t0: seq<(seq<Action>, nat -> seq<Action>)>, w0: Writer, env: nat -> nat -> seq<Action>, i: nat, res: Result)
      reads this
    {
      && Finished(s0.accepted, s0.refused, s0.prev, res)
      && turns == Turns(t0, env, i)
      && (res.Blocked? && 0 < i && Silent(env(2 * i - 1)) ==> writer.Writing?)
      && (AllSilent(env) ==> writer == w0)
    }

    method Turn(
      ghost s0: State, ghost t0: seq<(seq<Action>, nat -> seq<Action>)>, ghost w0: Writer, env: nat -> nat -> seq<Action>, i: nat)
      returns (res: Result)
      requires Valid() && Turned(s0, t0, w0, env, i, Blocked)
      modifies this, words
      ensures Valid() && Turned(s0, t0, w0, env, i + 1, res)
    {
      assert AllSilent(env) ==> Silent(env(2 * i)) && Silent(env(2 * i + 1));
      res := OneTurn(env(2 * i)(0), env(2 * i + 1));
    }

    /** At most `loads` turns of the loop; an undisturbed turn is the last one unless the writer is inside an update. */
    method Attempts(env: nat -> nat -> seq<Action>, loads: nat) returns (res: Result, i: nat)
      requires Valid() && model.reader.WaitingForEven?
      modifies this, words
      ensures Valid() && Turned(old(model), old(turns), old(writer), env, i, res)
      ensures i <= loads && (res.Blocked? ==> i == loads)
    {
      ghost var s0, t0, w0 := model, turns, writer;
      res, i := Blocked, 0;
      while res.Blocked? && i < loads
        invariant i <= loads && Valid() && Turned(s0, t0, w0, env, i, res)
      {
        res := Turn(s0, t0, w0, env, i);
        i := i + 1;
      }
    }

    /**
     The Linux side's read: wait for an even counter, copy, and retry if the counter moved.  It gives up only
     after all `loads` turns: one whose copy is not disturbed ends the read unless the writer is stuck inside an update.
     */
    method UpdateVariablesFromShm(env: nat -> nat -> seq<Action>, loads: nat) returns (res: Result, i: nat)
      requires Valid() && model.reader.ReaderIdle?
      modifies this, words
      ensures Valid() && Finished(old(model.accepted), old(model.refused), old(model.prev), res)
      ensures res.Unchanged? ==> updateAtomicCounter == shmPrevCounter == old(shmPrevCounter) && writer.WriterIdle?
      ensures i <= loads && turns == Turns(old(turns), env, i) && (res.Blocked? ==> i == loads)
      ensures res.Blocked? && 0 < loads && Silent(env(2 * loads - 1)) ==> writer.Writing?
      ensures old(writer.WriterIdle?) && 0 < loads && AllSilent(env) ==> !res.Blocked?
    {
      ReaderStep(BeginRead);
      res, i := Attempts(env, loads);
    }
  }
}
