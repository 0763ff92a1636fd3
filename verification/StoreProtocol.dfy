/** The entitlement store under concurrent calls. Every access to the shared dictionary is one
    atomic step; the steps of different calls interleave in any order. */
module StoreProtocol {
  import opened Entitlements

  /** A record as an object: dictionary values are compared by reference. Addresses are never
      reused, so the objects allocated so far form a sequence. */
  type Address = nat

  datatype Call =
    | Store(id: string, token: TokenProperties, time: Time)
    | Find(id: string)
    | Renew(id: string, time: Time)
    | Release(id: string, time: Time)

  /** Where a call stands. Between its read and its swap an update holds the object it read and
      the object it made from it. `readAt` and `swapAt` say how much history there was when it read
      and when its swap failed. A call that did not find its id has failed without a swap. */
  datatype Phase =
    | Started
    | HasRead(current: Address, updated: Address, readAt: nat)
    | Succeeded(result: EntitlementProperties)
    | NotFound
    | Overtaken(readAt: nat, swapAt: nat)

  /** `invokedAt` says how much history there was when the call began. */
  datatype Thread = Thread(call: Call, invokedAt: nat, phase: Phase)

  /** A change of the dictionary and the call that made it. */
  datatype Commit = Commit(thread: nat, call: Call)

  /** `history` is not part of the program: it records the commits in the order they happened. */
  datatype State = State(
    heap: seq<EntitlementProperties>,
    entitlements: map<string, Address>,
    threads: map<nat, Thread>,
    history: seq<Commit>)

  function Initial(): State {
    State([], map[], map[], [])
  }

  /** The function that an update passes to `TryUpdate`. */
  function Updated(props: EntitlementProperties, call: Call): EntitlementProperties
    requires call.Renew? || call.Release?
  {
    if call.Renew? then props.WithRenewal(call.time) else props.WithRelease(call.time)
  }

  predicate InHeap(s: State, a: Address) {
    a < |s.heap|
  }

  /** What a state needs for its steps to be defined. */
  predicate WellFormed(s: State) {
    && (forall id | id in s.entitlements :: InHeap(s, s.entitlements[id]))
    && forall t | t in s.threads && s.threads[t].phase.HasRead? ::
         InHeap(s, s.threads[t].phase.current) && InHeap(s, s.threads[t].phase.updated)
         && (s.threads[t].call.Renew? || s.threads[t].call.Release?)
  }

  function Invoke(s: State, t: nat, call: Call): State {
    s.(threads := s.threads[t := Thread(call, |s.history|, Started)])
  }

  function Finish(s: State, t: nat, phase: Phase): State
    requires t in s.threads
  {
    s.(threads := s.threads[t := s.threads[t].(phase := phase)])
  }

  /** `StoreEntitlement`: the new record is made in any case; `AddOrUpdate` keeps an existing one. */
  function StoreStep(s: State, t: nat): State
    requires WellFormed(s) && t in s.threads && s.threads[t].call.Store?
  {
    var call := s.threads[t].call;
    var made := EntitlementProperties.CreateNew(call.id, call.token, call.time);
    var s1 := s.(heap := s.heap + [made]);
    if call.id in s.entitlements then
      Finish(s1, t, Succeeded(s.heap[s.entitlements[call.id]]))
    else
      Finish(s1.(entitlements := s.entitlements[call.id := |s.heap|],
                 history := s.history + [Commit(t, call)]), t, Succeeded(made))
  }

  /** `FindEntitlement` */
  function FindStep(s: State, t: nat): State
    requires WellFormed(s) && t in s.threads && s.threads[t].call.Find?
  {
    var id := s.threads[t].call.id;
    Finish(s, t, if id in s.entitlements then Succeeded(s.heap[s.entitlements[id]]) else NotFound)
  }

  /** `TryGetValue` and the updater. */
  function ReadStep(s: State, t: nat): State
    requires WellFormed(s) && t in s.threads && (s.threads[t].call.Renew? || s.threads[t].call.Release?)
  {
    var call := s.threads[t].call;
    if call.id !in s.entitlements then Finish(s, t, NotFound)
    else
      var current := s.entitlements[call.id];
      Finish(s.(heap := s.heap + [Updated(s.heap[current], call)]), t, HasRead(current, |s.heap|, |s.history|))
  }

  /** `TryUpdate` of the dictionary: swap if the value is still the object that was read. */
  function SwapStep(s: State, t: nat): State
    requires WellFormed(s) && t in s.threads && s.threads[t].phase.HasRead?
  {
    var call, phase := s.threads[t].call, s.threads[t].phase;
    if call.id in s.entitlements && s.entitlements[call.id] == phase.current then
      Finish(s.(entitlements := s.entitlements[call.id := phase.updated],
                history := s.history + [Commit(t, call)]), t, Succeeded(s.heap[phase.updated]))
    else
      Finish(s, t, Overtaken(phase.readAt, |s.history|))
  }

  /** A step of the system: a new call, or the next step of a running one. */
  ghost predicate Next(s: State, s': State) {
    WellFormed(s) &&
    ((exists t, call :: t !in s.threads && s' == Invoke(s, t, call)) ||
     exists t :: t in s.threads && ThreadStep(s, t, s'))
  }

  predicate ThreadStep(s: State, t: nat, s': State)
    requires WellFormed(s) && t in s.threads
  {
    var thread := s.threads[t];
    if thread.phase.HasRead? then s' == SwapStep(s, t)
    else if !thread.phase.Started? then false
    else if thread.call.Store? then s' == StoreStep(s, t)
    else if thread.call.Find? then s' == FindStep(s, t)
    else s' == ReadStep(s, t)
  }

  /** A run of the system: any number of calls, interleaved in any way. */
  ghost predicate Run(states: seq<State>) {
    states != [] && states[0] == Initial()
    && forall i | 0 <= i < |states| - 1 :: Next(states[i], states[i + 1])
  }

  // ---- what the history says ----

  /** The record of an id after the commits in a history: what a sequential store would hold. */
  function Replay(history: seq<Commit>, id: string): Option<EntitlementProperties> {
    if history == [] then None
    else
      var before := Replay(history[..|history| - 1], id);
      Apply(before, history[|history| - 1].call, id)
  }

  function Apply(before: Option<EntitlementProperties>, call: Call, id: string): Option<EntitlementProperties> {
    if call.id != id then before
    else
      match call
      case Store(_, token, time) =>
        if before.Some? then before else Some(EntitlementProperties.CreateNew(id, token, time))
      case Renew(_, time) => if before.Some? then Some(before.value.WithRenewal(time)) else None
      case Release(_, time) => if before.Some? then Some(before.value.WithRelease(time)) else None
      case Find(_) => before
  }

  /** The times of the renewals of an id, in the order of their commits. */
  function Renewals(history: seq<Commit>, id: string): seq<Time> {
    if history == [] then []
    else
      var last := history[|history| - 1].call;
      Renewals(history[..|history| - 1], id) + if last.Renew? && last.id == id then [last.time] else []
  }

  /** The time of the last release of an id. */
  function LastRelease(history: seq<Commit>, id: string): Option<Time> {
    if history == [] then None
    else
      var last := history[|history| - 1].call;
      if last.Release? && last.id == id then Some(last.time) else LastRelease(history[..|history| - 1], id)
  }

  /** An id is stored once, and renewed and released only after that. */
  predicate Orderly(history: seq<Commit>) {
    history == [] ||
    var front, last := history[..|history| - 1], history[|history| - 1].call;
    && Orderly(front)
    && (match last
        case Store(id, _, _) => Replay(front, id).None?
        case Renew(id, _) => Replay(front, id).Some?
        case Release(id, _) => Replay(front, id).Some?
        case Find(_) => false)
  }

  /** A commit for `id` at or after position `from`. */
  predicate CommittedSince(history: seq<Commit>, id: string, from: nat) {
    exists i | from <= i < |history| :: history[i].call.id == id
  }

  /** The commits made by one thread. */
  function CommitsOf(history: seq<Commit>, t: nat): nat {
    if history == [] then 0
    else CommitsOf(history[..|history| - 1], t) + if history[|history| - 1].thread == t then 1 else 0
  }

  /** The state of the dictionary is that of the history. */
  ghost predicate DictionaryIsReplay(s: State) {
    forall id :: Replay(s.history, id) == Current(s, id)
  }

  /** The record that the dictionary holds for an id. */
  function Current(s: State, id: string): Option<EntitlementProperties> {
    if id in s.entitlements && InHeap(s, s.entitlements[id]) then Some(s.heap[s.entitlements[id]]) else None
  }

  /** What is known of an update between its read and its swap: it holds the object of its id as of
      `readAt`; that object is still in the dictionary exactly if nothing was committed since, and
      every object committed since is newer. */
  predicate PendingOk(s: State, t: nat)
    requires WellFormed(s) && t in s.threads && s.threads[t].phase.HasRead?
  {
    var call, phase := s.threads[t].call, s.threads[t].phase;
    && s.threads[t].invokedAt <= phase.readAt <= |s.history|
    && call.id in s.entitlements
    && phase.current < phase.updated
    && s.heap[phase.updated] == Updated(s.heap[phase.current], call)
    && (if CommittedSince(s.history, call.id, phase.readAt)
        then phase.current < s.entitlements[call.id]
        else phase.current == s.entitlements[call.id])
  }

  /** A thread has committed once if it changed the dictionary and succeeded, and never otherwise. */
  predicate CommitsOk(s: State, t: nat) {
    var n := CommitsOf(s.history, t);
    if t !in s.threads then n == 0
    else match s.threads[t].phase
      case Succeeded(_) =>
        (match s.threads[t].call
         case Store(_, _, _) => n <= 1
         case Find(_) => n == 0
         case _ => n == 1)
      case _ => n == 0
  }

  /** At some moment since the call began, after `k` commits, the sequential store would have given
      the answer of the call; an update that succeeded is the last of these commits. */
  predicate AnswerAt(s: State, t: nat, k: nat)
    requires t in s.threads
  {
    var thread := s.threads[t];
    && thread.invokedAt <= k <= |s.history|
    && var answer := Replay(s.history[..k], thread.call.id);
       match thread.phase
       case Succeeded(result) =>
         answer == Some(result)
         && (thread.call.Renew? || thread.call.Release? ==> k > 0 && s.history[k - 1] == Commit(t, thread.call))
       case NotFound => answer.None?
       case _ => false
  }

  /** The answer of a finished call is right at some moment of the call, or it is the failure of an
      update to whose id another thread committed between its read and its swap. */
  predicate AnswerOk(s: State, t: nat)
    requires t in s.threads
  {
    var thread := s.threads[t];
    && thread.invokedAt <= |s.history|
    && (thread.phase.Succeeded? || thread.phase.NotFound? ==>
          exists k: nat | k <= |s.history| :: AnswerAt(s, t, k))
    && (thread.phase.Overtaken? ==>
          && (thread.call.Renew? || thread.call.Release?)
          && thread.invokedAt <= thread.phase.readAt <= thread.phase.swapAt <= |s.history|
          && OthersBetween(s.history, thread.call.id, thread.phase.readAt, thread.phase.swapAt, t))
  }

  /** A commit for `id` by another thread than `t`, at a position from `from` up to `to`. */
  predicate OthersBetween(history: seq<Commit>, id: string, from: nat, to: nat, t: nat) {
    exists i | from <= i < to && i < |history| :: history[i].call.id == id && history[i].thread != t
  }

  ghost predicate Invariant(s: State) {
    && WellFormed(s)
    && Orderly(s.history)
    && DictionaryIsReplay(s)
    && (forall t | t in s.threads :: AnswerOk(s, t))
    && (forall t | t in s.threads && s.threads[t].phase.HasRead? :: PendingOk(s, t))
    && (forall t :: CommitsOk(s, t))
  }

  lemma ReplaySnoc(history: seq<Commit>, c: Commit, id: string)
    ensures Replay(history + [c], id) == Apply(Replay(history, id), c.call, id)
    ensures Renewals(history + [c], id) ==
            Renewals(history, id) + if c.call.Renew? && c.call.id == id then [c.call.time] else []
    ensures LastRelease(history + [c], id) ==
            if c.call.Release? && c.call.id == id then Some(c.call.time) else LastRelease(history, id)
    ensures forall t :: CommitsOf(history + [c], t) == CommitsOf(history, t) + if c.thread == t then 1 else 0
    ensures Orderly(history + [c]) ==
            (Orderly(history) && !c.call.Find? && Replay(history, c.call.id).None? == c.call.Store?)
  {
    assert (history + [c])[..|history|] == history;
  }

  /** An answer stays right while the history grows. */
  lemma AnswerKept(s: State, s': State, t: nat)
    requires t in s.threads && t in s'.threads && s'.threads[t] == s.threads[t]
    requires s.history <= s'.history && AnswerOk(s, t)
    ensures AnswerOk(s', t)
  {
    hide Replay;
    var thread := s.threads[t];
    if k: nat :| k <= |s.history| && AnswerAt(s, t, k) {
      assert s'.history[..k] == s.history[..k];
      assert AnswerAt(s', t, k);
    }
    if thread.phase.Overtaken? {
      var i :| thread.phase.readAt <= i < thread.phase.swapAt && s.history[i].call.id == thread.call.id
        && s.history[i].thread != t;
      assert s'.history[i] == s.history[i];
    }
  }

  /** A call that finishes now with the answer of the present. */
  lemma AnswerNow(s: State, t: nat)
    requires t in s.threads && s.threads[t].invokedAt <= |s.history|
    requires AnswerAt(s, t, |s.history|)
    ensures AnswerOk(s, t)
  {
  }

  lemma {:induction false} CommitOfNobody(history: seq<Commit>, t: nat, i: nat)
    requires CommitsOf(history, t) == 0 && i < |history|
    ensures history[i].thread != t
  {
    var n := |history|;
    if i < n - 1 {
      CommitOfNobody(history[..n - 1], t, i);
    }
  }

  lemma CommittedByOthers(history: seq<Commit>, id: string, from: nat, t: nat)
    requires CommittedSince(history, id, from) && CommitsOf(history, t) == 0
    ensures OthersBetween(history, id, from, |history|, t)
  {
    var i :| from <= i < |history| && history[i].call.id == id;
    CommitOfNobody(history, t, i);
  }

  lemma CommittedSnoc(history: seq<Commit>, c: Commit, id: string, from: nat)
    requires from <= |history|
    ensures CommittedSince(history + [c], id, from) <==> CommittedSince(history, id, from) || c.call.id == id
  {
    var h := history + [c];
    assert h[|history|] == c;
    if i :| from <= i < |history| && history[i].call.id == id {
      assert h[i] == history[i];
    }
  }

  // ---- the answers that the steps give ----

  lemma StoreAnswer(s: State, t: nat)
    requires Invariant(s) && t in s.threads && s.threads[t].call.Store? && s.threads[t].phase.Started?
    ensures AnswerOk(StoreStep(s, t), t) && Orderly(StoreStep(s, t).history)
  {
    hide Replay, CommitsOf, Orderly;
    var s', call := StoreStep(s, t), s.threads[t].call;
    assert AnswerOk(s, t);
    ReplaySnoc(s.history, Commit(t, call), call.id);
    assert s'.history[..|s'.history|] == s'.history;
    AnswerNow(s', t);
  }

  lemma FindAnswer(s: State, t: nat)
    requires Invariant(s) && t in s.threads && s.threads[t].call.Find? && s.threads[t].phase.Started?
    ensures AnswerOk(FindStep(s, t), t)
  {
    hide Replay, CommitsOf, Orderly;
    assert AnswerOk(s, t);
    assert s.history[..|s.history|] == s.history;
    AnswerNow(FindStep(s, t), t);
  }

  lemma ReadAnswer(s: State, t: nat)
    requires Invariant(s) && t in s.threads && s.threads[t].phase.Started?
    requires s.threads[t].call.Renew? || s.threads[t].call.Release?
    ensures AnswerOk(ReadStep(s, t), t)
  {
    hide Replay, CommitsOf, Orderly;
    assert AnswerOk(s, t);
    assert s.history[..|s.history|] == s.history;
    if s.threads[t].call.id !in s.entitlements {
      AnswerNow(ReadStep(s, t), t);
    }
  }

  /** The swap succeeds if and only if nothing was committed for the id since the read: an object
      that was replaced does not come back. */
  lemma SwapAnswer(s: State, t: nat)
    requires Invariant(s) && t in s.threads && s.threads[t].phase.HasRead?
    ensures AnswerOk(SwapStep(s, t), t) && Orderly(SwapStep(s, t).history)
    ensures SwapStep(s, t).threads[t].phase.Succeeded? <==>
            !CommittedSince(s.history, s.threads[t].call.id, s.threads[t].phase.readAt)
  {
    hide Replay, CommitsOf, Orderly, CommittedSince, OthersBetween;
    var s', call, phase := SwapStep(s, t), s.threads[t].call, s.threads[t].phase;
    assert AnswerOk(s, t) && PendingOk(s, t) && CommitsOk(s, t);
    if s.entitlements[call.id] == phase.current {
      ReplaySnoc(s.history, Commit(t, call), call.id);
      assert s'.history[..|s'.history|] == s'.history;
      AnswerNow(s', t);
    } else {
      CommittedByOthers(s.history, call.id, phase.readAt, t);
    }
  }

  // ---- every step keeps the invariant ----

  lemma InvokeKeeps(s: State, t: nat, call: Call)
    requires Invariant(s) && t !in s.threads
    ensures Invariant(Invoke(s, t, call))
  {
    var s' := Invoke(s, t, call);
    forall u | u in s'.threads ensures AnswerOk(s', u) {
      if u != t {
        AnswerKept(s, s', u);
      }
    }
    forall u ensures CommitsOk(s', u) {
      assert CommitsOk(s, u);
    }
    forall u | u in s'.threads && s'.threads[u].phase.HasRead? ensures PendingOk(s', u) {
      assert PendingOk(s, u);
    }
  }

  lemma StorePending(s: State, t: nat)
    requires Invariant(s) && t in s.threads && s.threads[t].call.Store? && s.threads[t].phase.Started?
    ensures var s' := StoreStep(s, t);
            WellFormed(s') && forall u | u in s'.threads && s'.threads[u].phase.HasRead? :: PendingOk(s', u)
  {
    hide Replay, CommitsOf, CommittedSince, Orderly, AnswerOk;
    var s', call := StoreStep(s, t), s.threads[t].call;
    var added := call.id !in s.entitlements;
    forall u | u in s'.threads && s'.threads[u].phase.HasRead? ensures PendingOk(s', u) {
      assert PendingOk(s, u);
      if added {
        CommittedSnoc(s.history, Commit(t, call), s.threads[u].call.id, s.threads[u].phase.readAt);
      }
    }
  }

  lemma StoreDictionary(s: State, t: nat)
    requires Invariant(s) && t in s.threads && s.threads[t].call.Store? && s.threads[t].phase.Started?
    ensures DictionaryIsReplay(StoreStep(s, t))
  {
    hide Replay, CommitsOf, CommittedSince, Orderly, AnswerOk;
    var s', call := StoreStep(s, t), s.threads[t].call;
    var added := call.id !in s.entitlements;
    forall id ensures Replay(s'.history, id) == Current(s', id)
    {
      assert Replay(s.history, id) == Current(s, id);
      if added {
        ReplaySnoc(s.history, Commit(t, call), id);
      }
    }
  }

  lemma StoreKeeps(s: State, t: nat)
    requires Invariant(s) && t in s.threads && s.threads[t].call.Store? && s.threads[t].phase.Started?
    ensures Invariant(StoreStep(s, t))
  {
    hide Replay, CommitsOf, CommittedSince, Orderly;
    var s', call := StoreStep(s, t), s.threads[t].call;
    var added := call.id !in s.entitlements;
    assert CommitsOk(s, t);
    forall u | u in s'.threads && u != t ensures AnswerOk(s', u) {
      AnswerKept(s, s', u);
    }
    StoreAnswer(s, t);
    assert AnswerOk(s, t);
    forall u ensures CommitsOk(s', u) {
      assert CommitsOk(s, u);
      if added {
        ReplaySnoc(s.history, Commit(t, call), call.id);
      }
    }
    StorePending(s, t);
    StoreDictionary(s, t);
  }

  lemma FindKeeps(s: State, t: nat)
    requires Invariant(s) && t in s.threads && s.threads[t].call.Find? && s.threads[t].phase.Started?
    ensures Invariant(FindStep(s, t))
  {
    hide Replay, CommitsOf, CommittedSince, Orderly;
    var s' := FindStep(s, t);
    assert CommitsOk(s, t);
    forall u | u in s'.threads && u != t ensures AnswerOk(s', u) {
      AnswerKept(s, s', u);
    }
    FindAnswer(s, t);
    assert AnswerOk(s, t);
    forall u ensures CommitsOk(s', u) {
      assert CommitsOk(s, u);
    }
    forall u | u in s'.threads && s'.threads[u].phase.HasRead? ensures PendingOk(s', u) {
      assert PendingOk(s, u);
    }
  }

  lemma ReadKeeps(s: State, t: nat)
    requires Invariant(s) && t in s.threads && s.threads[t].phase.Started?
    requires s.threads[t].call.Renew? || s.threads[t].call.Release?
    ensures Invariant(ReadStep(s, t))
  {
    hide Replay, CommitsOf, CommittedSince, Orderly;
    var s', call := ReadStep(s, t), s.threads[t].call;
    assert CommitsOk(s, t);
    forall u | u in s'.threads && u != t ensures AnswerOk(s', u) {
      AnswerKept(s, s', u);
    }
    ReadAnswer(s, t);
    assert AnswerOk(s, t);
    forall u ensures CommitsOk(s', u) {
      assert CommitsOk(s, u);
    }
    NothingSinceNow(s.history, call.id);
    forall u | u in s'.threads && s'.threads[u].phase.HasRead? ensures PendingOk(s', u) {
      if u != t {
        assert PendingOk(s, u);
      }
    }
    forall id ensures Replay(s'.history, id) == Current(s', id)
    {
      assert Replay(s.history, id) == Current(s, id);
    }
  }

  lemma NothingSinceNow(history: seq<Commit>, id: string)
    ensures !CommittedSince(history, id, |history|)
  {
  }

  lemma SwapPending(s: State, t: nat)
    requires Invariant(s) && t in s.threads && s.threads[t].phase.HasRead?
    ensures var s' := SwapStep(s, t);
            WellFormed(s') && forall u | u in s'.threads && s'.threads[u].phase.HasRead? :: PendingOk(s', u)
  {
    hide Replay, CommitsOf, CommittedSince, Orderly, AnswerOk;
    var s', call := SwapStep(s, t), s.threads[t].call;
    assert PendingOk(s, t);
    var swapped := s.entitlements[call.id] == s.threads[t].phase.current;
    forall u | u in s'.threads && s'.threads[u].phase.HasRead? ensures PendingOk(s', u) {
      assert PendingOk(s, u);
      if swapped {
        CommittedSnoc(s.history, Commit(t, call), s.threads[u].call.id, s.threads[u].phase.readAt);
      }
    }
  }

  lemma SwapDictionary(s: State, t: nat)
    requires Invariant(s) && t in s.threads && s.threads[t].phase.HasRead?
    ensures DictionaryIsReplay(SwapStep(s, t))
  {
    hide Replay, CommitsOf, CommittedSince, Orderly, AnswerOk;
    var s', call := SwapStep(s, t), s.threads[t].call;
    assert PendingOk(s, t);
    var swapped := s.entitlements[call.id] == s.threads[t].phase.current;
    forall id ensures Replay(s'.history, id) == Current(s', id)
    {
      assert Replay(s.history, id) == Current(s, id);
      if swapped {
        ReplaySnoc(s.history, Commit(t, call), id);
      }
    }
  }

  lemma SwapKeeps(s: State, t: nat)
    requires Invariant(s) && t in s.threads && s.threads[t].phase.HasRead?
    ensures Invariant(SwapStep(s, t))
  {
    hide Replay, CommitsOf, CommittedSince, Orderly;
    var s', call, phase := SwapStep(s, t), s.threads[t].call, s.threads[t].phase;
    assert PendingOk(s, t) && CommitsOk(s, t);
    var swapped := s.entitlements[call.id] == phase.current;
    forall u | u in s'.threads && u != t ensures AnswerOk(s', u) {
      AnswerKept(s, s', u);
    }
    SwapAnswer(s, t);
    assert AnswerOk(s, t);
    forall u ensures CommitsOk(s', u) {
      assert CommitsOk(s, u);
      if swapped {
        ReplaySnoc(s.history, Commit(t, call), call.id);
      }
    }
    SwapPending(s, t);
    SwapDictionary(s, t);
  }

  lemma NextKeeps(s: State, s': State)
    requires Invariant(s) && Next(s, s')
    ensures Invariant(s') && s.history <= s'.history
  {
    hide Invariant;
    if t, call :| t !in s.threads && s' == Invoke(s, t, call) {
      InvokeKeeps(s, t, call);
    } else {
      var t :| t in s.threads && ThreadStep(s, t, s');
      var thread := s.threads[t];
      if thread.phase.HasRead? {
        SwapKeeps(s, t);
      } else if thread.call.Store? {
        StoreKeeps(s, t);
      } else if thread.call.Find? {
        FindKeeps(s, t);
      } else {
        ReadKeeps(s, t);
      }
    }
  }

  lemma {:induction false} RunKeeps(states: seq<State>, i: nat)
    requires Run(states) && i < |states|
    ensures Invariant(states[i])
  {
    hide Next;
    if i > 0 {
      RunKeeps(states, i - 1);
      NextKeeps(states[i - 1], states[i]);
    }
  }

  lemma {:induction false} HistoryGrows(states: seq<State>, i: nat, j: nat)
    requires Run(states) && i <= j < |states|
    ensures states[i].history <= states[j].history
    decreases j
  {
    hide Next, Invariant;
    if i < j {
      HistoryGrows(states, i, j - 1);
      RunKeeps(states, j - 1);
      NextKeeps(states[j - 1], states[j]);
    }
  }

  // ---- the theorems ----

  lemma {:induction false} ReplayIsHistory(history: seq<Commit>, id: string)
    requires Orderly(history)
    ensures Replay(history, id).Some? ==>
              && Replay(history, id).value.renewalEventTimes == Renewals(history, id)
              && Replay(history, id).value.releaseEventTime == LastRelease(history, id)
    ensures Replay(history, id).None? ==> Renewals(history, id) == [] && LastRelease(history, id).None?
  {
    if history != [] {
      ReplayIsHistory(history[..|history| - 1], id);
    }
  }

  /** No lost updates: in every state of every run, the renewal times of an entitlement are those of
      its committed renewals in the order of their swaps, each once, and its release time is that of
      the last committed release. */
  lemma NoLostUpdates(states: seq<State>, i: nat, id: string)
    requires Run(states) && i < |states| && id in states[i].entitlements
    ensures InHeap(states[i], states[i].entitlements[id])
    ensures var props := states[i].heap[states[i].entitlements[id]];
            && props.renewalEventTimes == Renewals(states[i].history, id)
            && props.releaseEventTime == LastRelease(states[i].history, id)
  {
    hide Next, Replay;
    RunKeeps(states, i);
    var s := states[i];
    assert Replay(s.history, id) == Current(s, id);
    ReplayIsHistory(s.history, id);
  }

  /** Each update that reports success has been committed once, and one that reports failure, or has
      not finished, not at all. */
  lemma CommittedOnce(states: seq<State>, i: nat, t: nat)
    requires Run(states) && i < |states| && t in states[i].threads
    requires states[i].threads[t].call.Renew? || states[i].threads[t].call.Release?
    ensures CommitsOf(states[i].history, t) == if states[i].threads[t].phase.Succeeded? then 1 else 0
  {
    hide Next, CommitsOf;
    RunKeeps(states, i);
    assert CommitsOk(states[i], t);
  }

  /** Whatever a finished call returned was right at some moment between its start and its end, with
      the call itself as the last commit if it changed anything; the only other way to fail is an
      update that was overtaken: another thread committed to the same id between its read and its
      swap. */
  lemma AnswersExplained(states: seq<State>, i: nat, t: nat)
    requires Run(states) && i < |states| && t in states[i].threads
    ensures var phase := states[i].threads[t].phase;
            phase.Succeeded? || phase.NotFound? ==>
              exists k: nat | k <= |states[i].history| :: AnswerAt(states[i], t, k)
    ensures var s, thread := states[i], states[i].threads[t];
            thread.phase.Overtaken? ==>
              && (thread.call.Renew? || thread.call.Release?)
              && thread.invokedAt <= thread.phase.readAt <= thread.phase.swapAt <= |s.history|
              && OthersBetween(s.history, thread.call.id, thread.phase.readAt, thread.phase.swapAt, t)
  {
    hide Next, Replay, AnswerAt, OthersBetween;
    RunKeeps(states, i);
    assert AnswerOk(states[i], t);
  }

  /** A swap fails exactly when something was committed for the id since the read. */
  lemma SwapSucceedsIff(states: seq<State>, i: nat, t: nat)
    requires Run(states) && i < |states| && t in states[i].threads && states[i].threads[t].phase.HasRead?
    ensures WellFormed(states[i])
    ensures SwapStep(states[i], t).threads[t].phase.Succeeded? <==>
            !CommittedSince(states[i].history, states[i].threads[t].call.id, states[i].threads[t].phase.readAt)
  {
    hide Next, Replay, CommittedSince;
    RunKeeps(states, i);
    SwapAnswer(states[i], t);
  }

  /** The commit with which an id appears in a history. */
  predicate FirstCommit(history: seq<Commit>, id: string, k: nat) {
    k < |history| && history[k].call.id == id && forall i | 0 <= i < k :: history[i].call.id != id
  }

  lemma {:induction false} ReplayOfFirst(history: seq<Commit>, id: string) returns (k: nat)
    requires Orderly(history) && Replay(history, id).Some?
    ensures FirstCommit(history, id, k) && history[k].call.Store?
    ensures var props, call := Replay(history, id).value, history[k].call;
            && props.entitlementId == id && props.tokenProperties == call.token
            && props.acquisitionEventTime == call.time
  {
    var n := |history| - 1;
    if Replay(history[..n], id).Some? {
      k := ReplayOfFirst(history[..n], id);
    } else {
      k := n;
      NothingBefore(history[..n], id);
    }
  }

  lemma {:induction false} NothingBefore(history: seq<Commit>, id: string)
    requires Orderly(history) && Replay(history, id).None?
    ensures forall i | 0 <= i < |history| :: history[i].call.id != id
  {
    if history != [] {
      NothingBefore(history[..|history| - 1], id);
    }
  }

  /** In every state of every run, the first commit for a stored entitlement is a call that stored it, and the
      record in the dictionary holds the token and the time of that call. */
  lemma StoredAsAcquired(states: seq<State>, i: nat, id: string) returns (k: nat)
    requires Run(states) && i < |states| && id in states[i].entitlements
    ensures InHeap(states[i], states[i].entitlements[id])
    ensures FirstCommit(states[i].history, id, k) && states[i].history[k].call.Store?
    ensures var props, call := states[i].heap[states[i].entitlements[id]], states[i].history[k].call;
            && props.entitlementId == id && props.tokenProperties == call.token
            && props.acquisitionEventTime == call.time
  {
    hide Next, Replay, FirstCommit;
    RunKeeps(states, i);
    var s := states[i];
    assert Replay(s.history, id) == Current(s, id);
    k := ReplayOfFirst(s.history, id);
  }

  lemma {:induction false} ReplayGrows(earlier: seq<Commit>, later: seq<Commit>, id: string)
    requires earlier <= later && Replay(earlier, id).Some?
    ensures Replay(later, id).Some?
    ensures var p, q := Replay(earlier, id).value, Replay(later, id).value;
            && q.entitlementId == p.entitlementId && q.tokenProperties == p.tokenProperties
            && q.acquisitionEventTime == p.acquisitionEventTime
            && p.renewalEventTimes <= q.renewalEventTimes
            && (p.IsReleased() ==> q.IsReleased())
    decreases |later|
  {
    if |earlier| < |later| {
      ReplayGrows(earlier, later[..|later| - 1], id);
    } else {
      assert earlier == later;
    }
  }

  /** An entitlement that was stored is there for ever: its identity, its token and its acquisition
      time never change, its renewals only grow, and once released it stays released. */
  lemma EntitlementsLast(states: seq<State>, i: nat, j: nat, id: string)
    requires Run(states) && i <= j < |states| && id in states[i].entitlements
    ensures id in states[j].entitlements
    ensures InHeap(states[i], states[i].entitlements[id]) && InHeap(states[j], states[j].entitlements[id])
    ensures var p, q := states[i].heap[states[i].entitlements[id]], states[j].heap[states[j].entitlements[id]];
            && q.entitlementId == p.entitlementId == id && q.tokenProperties == p.tokenProperties
            && q.acquisitionEventTime == p.acquisitionEventTime
            && p.renewalEventTimes <= q.renewalEventTimes
            && (p.IsReleased() ==> q.IsReleased())
  {
    hide Next, Replay;
    RunKeeps(states, i);
    RunKeeps(states, j);
    HistoryGrows(states, i, j);
    var s, s' := states[i], states[j];
    assert Replay(s.history, id) == Current(s, id);
    assert Replay(s'.history, id) == Current(s', id);
    ReplayGrows(s.history, s'.history, id);
    ReplayNames(s.history, id);
  }

  lemma {:induction false} ReplayNames(history: seq<Commit>, id: string)
    requires Replay(history, id).Some?
    ensures Replay(history, id).value.entitlementId == id
  {
    if history != [] && Replay(history[..|history| - 1], id).Some? {
      ReplayNames(history[..|history| - 1], id);
    }
  }
}
