/** Flag words that several threads set and clear through compare-and-set loops. */
module Flags {
  import opened Words

  datatype Op = SetFlags(mask: Word) | ClrFlags(mask: Word)

  function Do(op: Op, w: Word): Word {
    match op
    case SetFlags(m) => Or(w, m)
    case ClrFlags(m) => And(w, Not(m))
  }

  function DoAll(w: Word, ops: seq<Op>): Word {
    if ops == [] then w else Do(ops[|ops| - 1], DoAll(w, ops[..|ops| - 1]))
  }

  lemma {:induction false} DoAllConcat(w: Word, xs: seq<Op>, ys: seq<Op>)
    ensures DoAll(w, xs + ys) == DoAll(DoAll(w, xs), ys)
  {
    if ys == [] {
      assert xs + ys == xs;
    } else {
      assert (xs + ys)[..|xs + ys| - 1] == xs + ys[..|ys| - 1];
      DoAllConcat(w, xs, ys[..|ys| - 1]);
    }
  }

  // ----- The loop of one thread, with the others in between -----

  class FlagWord {
    var word: Word

    constructor (w: Word)
      ensures word == w
    {
      word := w;
    }

    /**
     * Read, compute, compare-and-set, until it succeeds. `others[r]` is what other threads do to
     * the word between the read and the compare-and-set of round `r`. The update takes effect
     * after everything the others did meanwhile, on the word they left, and no update is lost.
     */
    method Update(op: Op, others: seq<seq<Op>>) returns (rounds: nat)
      modifies this
      ensures 1 <= rounds <= |others| + 1
      ensures word == Do(op, DoAll(old(word), Flat(others[..if rounds <= |others| then rounds else |others|])))
    {
      rounds := 0;
      var success := false;
      ghost var seen := 0;
      while !success
        invariant rounds <= |others| + if success then 1 else 0
        invariant seen == (if rounds <= |others| then rounds else |others|) && (success ==> rounds >= 1)
        invariant var now := DoAll(old(word), Flat(others[..seen])); word == if success then Do(op, now) else now
        decreases |others| + 1 - rounds, !success
      {
        var val := word;
        if rounds < |others| {
          word := DoAll(word, others[rounds]);
          DoAllConcat(old(word), Flat(others[..seen]), others[rounds]);
          assert others[..seen + 1][..seen] == others[..seen];
          seen := seen + 1;
        }
        if word == val {
          word := Do(op, val);
          success := true;
        }
        rounds := rounds + 1;
      }
    }
  }

  function Flat(xs: seq<seq<Op>>): seq<Op> {
    if xs == [] then [] else Flat(xs[..|xs| - 1]) + xs[|xs| - 1]
  }

  // ----- All threads interleaved -----

  /**
   * A thread with its program: `pos` updates are done, `read` is the value of the current round.
   * `seen` is how many updates had succeeded at the last read or failure, `failed` its failures.
   */
  datatype Thread = Thread(program: seq<Op>, pos: nat, read: seq<Word>, seen: nat, failed: nat)

  datatype Entry = Entry(thread: nat, op: Op)

  /** `log` is the successful updates in the order of their compare-and-sets. */
  datatype State = State(word: Word, threads: seq<Thread>, log: seq<Entry>)

  datatype Event = Read(t: nat) | Cmpset(t: nat)

  predicate Enabled(s: State, e: Event) {
    && e.t < |s.threads|
    && var th := s.threads[e.t];
       match e
       case Read(_) => th.pos < |th.program| && th.read == []
       case Cmpset(_) => th.pos < |th.program| && |th.read| == 1
  }

  function Step(s: State, e: Event): State
    requires Enabled(s, e)
  {
    var th := s.threads[e.t];
    match e
    case Read(t) => s.(threads := s.threads[t := th.(read := [s.word], seen := |s.log|)])
    case Cmpset(t) =>
      var op := th.program[th.pos];
      if s.word == th.read[0] then
        State(Do(op, th.read[0]), s.threads[t := th.(pos := th.pos + 1, read := [], seen := |s.log| + 1)],
              s.log + [Entry(t, op)])
      else s.(threads := s.threads[t := th.(read := [], seen := |s.log|, failed := th.failed + 1)])
  }

  predicate Valid(s: State, es: seq<Event>)
    decreases |es|, 0
  {
    es == [] || (Valid(s, es[..|es| - 1]) && Enabled(After(s, es[..|es| - 1]), es[|es| - 1]))
  }

  function After(s: State, es: seq<Event>): State
    requires Valid(s, es)
    decreases |es|, 1
  {
    if es == [] then s else Step(After(s, es[..|es| - 1]), es[|es| - 1])
  }

  function Start(w: Word, programs: seq<seq<Op>>): State {
    State(w, seq(|programs|, i requires 0 <= i < |programs| => Thread(programs[i], 0, [], 0, 0)), [])
  }

  function Ops(log: seq<Entry>): (ops: seq<Op>)
    ensures |ops| == |log| && forall i | 0 <= i < |log| :: ops[i] == log[i].op
  {
    if log == [] then [] else Ops(log[..|log| - 1]) + [log[|log| - 1].op]
  }

  /** What thread `t` did, in its order. */
  function By(log: seq<Entry>, t: nat): seq<Op> {
    if log == [] then []
    else
      var init, last := By(log[..|log| - 1], t), log[|log| - 1];
      if last.thread == t then init + [last.op] else init
  }

  /** How many updates in the log are not `t`'s. */
  function Others(log: seq<Entry>, t: nat): nat {
    if log == [] then 0 else Others(log[..|log| - 1], t) + if log[|log| - 1].thread == t then 0 else 1
  }

  lemma {:induction false} OthersGrow(log: seq<Entry>, t: nat, n: nat, m: nat)
    requires n <= m <= |log| && forall i | n <= i < m :: log[i].thread != t
    ensures Others(log[..m], t) == Others(log[..n], t) + m - n
  {
    if n < m {
      OthersGrow(log, t, n, m - 1);
      assert log[..m][..m - 1] == log[..m - 1];
    }
  }

  ghost predicate ThreadInv(w: Word, log: seq<Entry>, th: Thread, t: nat) {
    && th.pos <= |th.program| && th.seen <= |log| && |th.read| <= 1
    && By(log, t) == th.program[..th.pos]
    && th.failed <= Others(log[..th.seen], t)
    && (forall i | th.seen <= i < |log| :: log[i].thread != t)
    && (th.read != [] ==> th.read[0] == DoAll(w, Ops(log[..th.seen])))
  }

  ghost predicate Inv(w: Word, s: State) {
    && s.word == DoAll(w, Ops(s.log))
    && forall t | 0 <= t < |s.threads| :: ThreadInv(w, s.log, s.threads[t], t)
  }

  lemma LogStep(log: seq<Entry>, e: Entry, t: nat)
    ensures (log + [e])[..|log|] == log && Ops(log + [e]) == Ops(log) + [e.op]
    ensures By(log + [e], t) == if e.thread == t then By(log, t) + [e.op] else By(log, t)
    ensures Others(log + [e], t) == Others(log, t) + if e.thread == t then 0 else 1
  {
    assert (log + [e])[..|log|] == log;
  }

  lemma ReadInv(w: Word, s: State, t: nat)
    requires Inv(w, s) && Enabled(s, Read(t))
    ensures Inv(w, Step(s, Read(t)))
  {
    var th := s.threads[t];
    assert ThreadInv(w, s.log, th, t);
    OthersGrow(s.log, t, th.seen, |s.log|);
    assert s.log[..|s.log|] == s.log;
  }

  /** The thread that succeeds. */
  lemma SelfInv(w: Word, log: seq<Entry>, th: Thread, t: nat, log': seq<Entry>, th': Thread)
    requires ThreadInv(w, log, th, t) && th.pos < |th.program|
    requires log' == log + [Entry(t, th.program[th.pos])]
    requires th' == th.(pos := th.pos + 1, read := [], seen := |log'|)
    ensures ThreadInv(w, log', th', t)
  {
    LogStep(log, Entry(t, th.program[th.pos]), t);
    OthersGrow(log, t, th.seen, |log|);
    assert log[..|log|] == log && log'[..|log'|] == log';
    assert th.program[..th.pos + 1] == th.program[..th.pos] + [th.program[th.pos]];
  }

  /** Any other thread. */
  lemma OtherInv(w: Word, log: seq<Entry>, th: Thread, t: nat, e: Entry)
    requires ThreadInv(w, log, th, t) && e.thread != t
    ensures ThreadInv(w, log + [e], th, t)
  {
    LogStep(log, e, t);
    assert (log + [e])[..th.seen] == log[..th.seen];
  }

  lemma SuccessInv(w: Word, s: State, t: nat)
    requires Inv(w, s) && Enabled(s, Cmpset(t)) && s.word == s.threads[t].read[0]
    ensures Inv(w, Step(s, Cmpset(t)))
  {
    var th := s.threads[t];
    var s', e := Step(s, Cmpset(t)), Entry(t, th.program[th.pos]);
    LogStep(s.log, e, t);
    assert Ops(s'.log)[..|s.log|] == Ops(s.log);
    forall u | 0 <= u < |s'.threads|
      ensures ThreadInv(w, s'.log, s'.threads[u], u)
    {
      assert ThreadInv(w, s.log, s.threads[u], u);
      if u == t {
        SelfInv(w, s.log, th, t, s'.log, s'.threads[t]);
      } else {
        OtherInv(w, s.log, s.threads[u], u, e);
      }
    }
  }

  /** A failed compare-and-set means that another thread's update succeeded since the read. */
  lemma FailureIsProgress(w: Word, s: State, t: nat)
    requires Inv(w, s) && Enabled(s, Cmpset(t)) && s.word != s.threads[t].read[0]
    ensures var seen := s.threads[t].seen; seen < |s.log| && forall i | seen <= i < |s.log| :: s.log[i].thread != t
  {
    assert ThreadInv(w, s.log, s.threads[t], t);
    assert s.log[..|s.log|] == s.log;
  }

  lemma FailureInv(w: Word, s: State, t: nat)
    requires Inv(w, s) && Enabled(s, Cmpset(t)) && s.word != s.threads[t].read[0]
    ensures Inv(w, Step(s, Cmpset(t)))
  {
    var th := s.threads[t];
    assert ThreadInv(w, s.log, th, t);
    FailureIsProgress(w, s, t);
    OthersGrow(s.log, t, th.seen, |s.log|);
    assert s.log[..|s.log|] == s.log;
  }

  predicate Running(s: State, programs: seq<seq<Op>>) {
    |s.threads| == |programs| && forall t | 0 <= t < |programs| :: s.threads[t].program == programs[t]
  }

  lemma StepRunning(programs: seq<seq<Op>>, s: State, e: Event)
    requires Running(s, programs) && Enabled(s, e)
    ensures Running(Step(s, e), programs)
  {
  }

  lemma StepInv(w: Word, s: State, e: Event)
    requires Inv(w, s) && Enabled(s, e)
    ensures Inv(w, Step(s, e))
  {
    match e
    case Read(t) => ReadInv(w, s, t);
    case Cmpset(t) =>
      if s.word == s.threads[t].read[0] {
        SuccessInv(w, s, t);
      } else {
        FailureInv(w, s, t);
      }
  }

  lemma {:induction false} RunInv(w: Word, programs: seq<seq<Op>>, es: seq<Event>)
    requires Valid(Start(w, programs), es)
    ensures Inv(w, After(Start(w, programs), es)) && Running(After(Start(w, programs), es), programs)
  {
    if es != [] {
      RunInv(w, programs, es[..|es| - 1]);
      StepInv(w, After(Start(w, programs), es[..|es| - 1]), es[|es| - 1]);
      StepRunning(programs, After(Start(w, programs), es[..|es| - 1]), es[|es| - 1]);
    }
  }

  /**
   * Every interleaving has the result of the updates done one after the other, in the order in
   * which their compare-and-sets succeeded; of each thread's program exactly what it has finished
   * is among them, in program order. A thread never fails more often than others succeed.
   */
  lemma Linearises(w: Word, programs: seq<seq<Op>>, es: seq<Event>)
    requires Valid(Start(w, programs), es)
    ensures var s := After(Start(w, programs), es);
            && s.word == DoAll(w, Ops(s.log))
            && |s.threads| == |programs|
            && forall t | 0 <= t < |programs| ::
                 && s.threads[t].pos <= |programs[t]|
                 && By(s.log, t) == programs[t][..s.threads[t].pos]
                 && s.threads[t].failed <= Others(s.log, t)
  {
    RunInv(w, programs, es);
    var s := After(Start(w, programs), es);
    forall t | 0 <= t < |programs|
      ensures s.threads[t].pos <= |programs[t]| && By(s.log, t) == programs[t][..s.threads[t].pos]
      ensures s.threads[t].failed <= Others(s.log, t)
    {
      assert ThreadInv(w, s.log, s.threads[t], t);
      OthersGrow(s.log, t, s.threads[t].seen, |s.log|);
      assert s.log[..|s.log|] == s.log;
    }
  }

  // ----- What the result is, bit by bit -----

  /** The last update that touches bit `i`, or -1. */
  function LastOn(ops: seq<Op>, i: nat): (k: int)
    requires i < 32
    ensures -1 <= k < |ops| && (k >= 0 ==> ops[k].mask[i])
    ensures forall j | k < j < |ops| :: !ops[j].mask[i]
  {
    if ops == [] then -1
    else if ops[|ops| - 1].mask[i] then |ops| - 1
    else LastOn(ops[..|ops| - 1], i)
  }

  /** The last update of a bit decides it, and a bit that no mask holds never changes. */
  lemma {:induction false} LastUpdateDecides(w: Word, ops: seq<Op>, i: nat)
    requires i < 32
    ensures var k := LastOn(ops, i); DoAll(w, ops)[i] == if k == -1 then w[i] else ops[k].SetFlags?
  {
    if ops != [] && !ops[|ops| - 1].mask[i] {
      LastUpdateDecides(w, ops[..|ops| - 1], i);
    }
  }
}
