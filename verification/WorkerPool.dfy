/** The bounded worker pool of src/main/usage-worktree-canonicalizer.ts. The atomic steps are the code between awaits:
    a worker is resumed, stores the answer it was waiting for, and claims the next index or ends. */
module WorkerPool {
  import opened Basics
  import opened Sorting

  datatype JsNumber = Finite(value: real) | PositiveInfinity | NegativeInfinity | NaN

  /** Math.min(n, Math.max(1, Math.floor(concurrency))) as an array length, where NaN counts as 0. */
  function WorkerCount(n: nat, concurrency: JsNumber): nat {
    match concurrency
    case Finite(value) => Min(n, Max(1, value.Floor))
    case PositiveInfinity => n
    case NegativeInfinity => Min(n, 1)
    case NaN => 0
  }

  datatype Worker = Fresh | Awaiting(index: nat) | Finished | Rejected
  datatype Claim = Claim(worker: nat, index: nat)

  /** The variables the workers share, what each worker is doing, and the history of claims. */
  datatype State = State(n: nat, nextIndex: nat, workers: seq<Worker>, slots: seq<Option<Text>>, claims: seq<Claim>)

  function Initial(n: nat, concurrency: JsNumber): State {
    State(n, 0, seq(WorkerCount(n, concurrency), _ => Fresh), seq(n, _ => None), [])
  }

  predicate CanResume(s: State, w: nat) {
    w < |s.workers| && (s.workers[w].Fresh? || (s.workers[w].Awaiting? && s.workers[w].index < |s.slots|))
  }

  // The head of the worker's loop.
  function ClaimOrFinish(s: State, w: nat): State
    requires w < |s.workers|
  {
    if s.nextIndex < s.n then
      s.(workers := s.workers[w := Awaiting(s.nextIndex)], nextIndex := s.nextIndex + 1,
         claims := s.claims + [Claim(w, s.nextIndex)])
    else s.(workers := s.workers[w := Finished])
  }

  /** Worker `w` runs until its next await; `answer` is what the canonicalization it waited for came to. */
  function Resume(s: State, w: nat, answer: Option<Text>): State
    requires CanResume(s, w)
  {
    match s.workers[w]
    case Fresh => ClaimOrFinish(s, w)
    case Awaiting(i) =>
      if answer.None? then s.(workers := s.workers[w := Rejected])
      else ClaimOrFinish(s.(slots := s.slots[i := answer]), w)
  }

  // ---------------------------------------------------------------------------- runs

  datatype Event = Event(worker: nat, rejected: bool)

  /** The answer of the call for index `i` is `answers[i]`, whoever makes it and whenever it arrives. */
  function Answer(s: State, e: Event, answers: seq<Text>): Option<Text>
    requires CanResume(s, e.worker) && |answers| == |s.slots|
  {
    if e.rejected || s.workers[e.worker].Fresh? then None else Some(answers[s.workers[e.worker].index])
  }

  /** `run` leads from `s` to `t`. */
  ghost predicate Leads(s: State, run: seq<Event>, t: State, answers: seq<Text>)
    decreases |run|
  {
    if run == [] then s == t
    else
      && CanResume(s, run[0].worker) && |answers| == |s.slots|
      && Leads(Resume(s, run[0].worker, Answer(s, run[0], answers)), run[1..], t, answers)
  }

  lemma {:induction false} LeadsOn(s: State, run: seq<Event>, t: State, e: Event, answers: seq<Text>)
    requires Leads(s, run, t, answers) && CanResume(t, e.worker) && |answers| == |t.slots|
    ensures Leads(s, run + [e], Resume(t, e.worker, Answer(t, e, answers)), answers)
    decreases |run|
  {
    if run == [] {
      assert ([] + [e])[1..] == [];
    } else {
      assert (run + [e])[1..] == run[1..] + [e];
      LeadsOn(Resume(s, run[0].worker, Answer(s, run[0], answers)), run[1..], t, e, answers);
    }
  }

  ghost predicate Inv(s: State, answers: seq<Text>) {
    && s.nextIndex <= s.n == |s.slots| == |answers|
    && |s.claims| == s.nextIndex
    // every index below nextIndex was claimed, once, in order, by a worker of the pool
    && (forall i :: 0 <= i < s.nextIndex ==> s.claims[i].index == i && s.claims[i].worker < |s.workers|)
    // a worker waits for an index it claimed
    && (forall w :: 0 <= w < |s.workers| && s.workers[w].Awaiting? ==>
          s.workers[w].index < s.nextIndex && s.claims[s.workers[w].index].worker == w &&
              s.slots[s.workers[w].index].None?)
    // a claimed index is answered, being waited for, or lost to a rejection
    && (forall i :: 0 <= i < s.nextIndex ==>
          || s.slots[i] == Some(answers[i])
          || s.workers[s.claims[i].worker] == Awaiting(i)
          || s.workers[s.claims[i].worker] == Rejected)
    && (forall i :: s.nextIndex <= i < s.n ==> s.slots[i].None?)
    && (forall w :: 0 <= w < |s.workers| && s.workers[w].Finished? ==> s.nextIndex == s.n)
  }

  lemma ResumeKeepsInv(s: State, e: Event, answers: seq<Text>)
    requires Inv(s, answers) && CanResume(s, e.worker)
    ensures Inv(Resume(s, e.worker, Answer(s, e, answers)), answers)
  {
  }

  lemma {:induction false} RunKeepsInv(s: State, run: seq<Event>, t: State, answers: seq<Text>)
    requires Inv(s, answers) && Leads(s, run, t, answers)
    ensures Inv(t, answers) && t.n == s.n && |t.workers| == |s.workers|
    decreases |run|
  {
    if run != [] {
      ResumeKeepsInv(s, run[0], answers);
      RunKeepsInv(Resume(s, run[0].worker, Answer(s, run[0], answers)), run[1..], t, answers);
    }
  }

  ghost predicate Reaches(n: nat, concurrency: JsNumber, run: seq<Event>, t: State, answers: seq<Text>) {
    |answers| == n && Leads(Initial(n, concurrency), run, t, answers)
  }

  /** In every interleaving, exactly the indices below `nextIndex` are claimed, each once. */
  lemma ClaimedExactlyOnce(n: nat, concurrency: JsNumber, run: seq<Event>, t: State, answers: seq<Text>, index: nat)
    requires Reaches(n, concurrency, run, t, answers)
    ensures index < t.nextIndex <==> exists k :: 0 <= k < |t.claims| && t.claims[k].index == index
    ensures forall k, l :: 0 <= k < |t.claims| && 0 <= l < |t.claims| && t.claims[k].index == t.claims[l].index ==>
            k == l
  {
    RunKeepsInv(Initial(n, concurrency), run, t, answers);
    if index < t.nextIndex {
      assert t.claims[index].index == index;
    }
  }

  /** The canonicalizations in flight. */
  ghost function InFlight(s: State): set<nat> {
    set w | 0 <= w < |s.workers| && s.workers[w].Awaiting? :: s.workers[w].index
  }

  lemma {:induction false} InFlightBound(workers: seq<Worker>)
    ensures |set w | 0 <= w < |workers| && workers[w].Awaiting? :: workers[w].index| <= |workers|
  {
    var all := set w | 0 <= w < |workers| && workers[w].Awaiting? :: workers[w].index;
    if workers != [] {
      var k := |workers| - 1;
      var front := workers[..k];
      InFlightBound(front);
      var most := set w | 0 <= w < |front| && front[w].Awaiting? :: front[w].index;
      if workers[k].Awaiting? {
        assert all == most + {workers[k].index};
      } else {
        assert all == most;
      }
    }
  }

  /** At most min(n, max(1, floor(concurrency))) calls are in flight, and no index is in flight twice. */
  lemma ConcurrencyIsBounded(n: nat, concurrency: JsNumber, run: seq<Event>, t: State, answers: seq<Text>)
    requires Reaches(n, concurrency, run, t, answers)
    ensures |InFlight(t)| <= WorkerCount(n, concurrency)
    ensures var m := WorkerCount(n, concurrency);
            match concurrency
            case Finite(value) =>
              m <= n && (m <= 1 || m as real <= value) && (m < n ==> 1 <= m && value < (m + 1) as real)
            case PositiveInfinity => m == n
            case NegativeInfinity => m == if n == 0 then 0 else 1
            case NaN => m == 0
    ensures forall v, w :: 0 <= v < w < |t.workers| && t.workers[v].Awaiting? && t.workers[w].Awaiting? ==>
              t.workers[v].index != t.workers[w].index
  {
    RunKeepsInv(Initial(n, concurrency), run, t, answers);
    InFlightBound(t.workers);
  }

  /** No worker is stuck: one that has not ended can be resumed. */
  lemma NobodyIsStuck(n: nat, concurrency: JsNumber, run: seq<Event>, t: State, answers: seq<Text>, w: nat)
    requires Reaches(n, concurrency, run, t, answers) && w < |t.workers|
    ensures |t.workers| == WorkerCount(n, concurrency)
    ensures CanResume(t, w) <==> t.workers[w] != Finished && t.workers[w] != Rejected
  {
    RunKeepsInv(Initial(n, concurrency), run, t, answers);
  }

  // ---------------------------------------------------------------------- termination

  function CountEnded(workers: seq<Worker>): nat {
    if workers == [] then 0
    else (if workers[0].Finished? || workers[0].Rejected? then 1 else 0) + CountEnded(workers[1..])
  }

  lemma {:induction false} CountAfterUpdate(workers: seq<Worker>, w: nat, next: Worker)
    requires w < |workers| && (workers[w].Fresh? || workers[w].Awaiting?)
    ensures CountEnded(workers[w := next]) == CountEnded(workers) + if next.Finished? || next.Rejected? then 1 else 0
    ensures CountEnded(workers) < |workers|
  {
    if w > 0 {
      assert workers[w := next][1..] == workers[1..][w - 1 := next];
      CountAfterUpdate(workers[1..], w - 1, next);
    } else {
      assert workers[w := next][1..] == workers[1..];
      CountBound(workers[1..]);
    }
  }

  lemma {:induction false} CountBound(workers: seq<Worker>)
    ensures CountEnded(workers) <= |workers|
  {
    if workers != [] { CountBound(workers[1..]); }
  }

  /** Every step claims an index or ends a worker, so no run is longer than n + workers. */
  lemma {:induction false} RunsAreShort(s: State, run: seq<Event>, t: State, answers: seq<Text>)
    requires Inv(s, answers) && Leads(s, run, t, answers)
    ensures |run| == (t.nextIndex - s.nextIndex) + (CountEnded(t.workers) - CountEnded(s.workers))
    ensures |run| <= s.n + |s.workers|
    decreases |run|
  {
    RunKeepsInv(s, run, t, answers);
    CountBound(t.workers);
    if run != [] {
      var w := run[0].worker;
      var s' := Resume(s, w, Answer(s, run[0], answers));
      ResumeKeepsInv(s, run[0], answers);
      RunsAreShort(s', run[1..], t, answers);
      CountAfterUpdate(s.workers, w, s'.workers[w]);
      assert s'.workers == s.workers[w := s'.workers[w]];
    }
  }

  // ------------------------------------------------------------------------ the result

  datatype Canonicalized = Canonicalized(input: nat, canonicalPath: Option<Text>)

  function Length(path: Option<Text>): nat { if path.Some? then |path.value| else 0 }

  function LongestFirst(left: Canonicalized, right: Canonicalized): int {
    Length(right.canonicalPath) - Length(left.canonicalPath)
  }

  function Entry(slots: seq<Option<Text>>): seq<Canonicalized> {
    seq(|slots|, i requires 0 <= i < |slots| => Canonicalized(i, slots[i]))
  }

  /** What Promise.all resolves to: nothing after a rejection, otherwise the slots, sorted. */
  function Result(s: State): Option<seq<Canonicalized>> {
    if Rejected in s.workers then None else Some(StableSort(Entry(s.slots), LongestFirst))
  }

  ghost predicate Done(s: State) {
    forall w :: 0 <= w < |s.workers| ==> s.workers[w].Finished? || s.workers[w].Rejected?
  }

  function Expected(answers: seq<Text>): seq<Canonicalized> {
    seq(|answers|, i requires 0 <= i < |answers| => Canonicalized(i, Some(answers[i])))
  }

  lemma EverySlotIsAnswered(n: nat, concurrency: JsNumber, run: seq<Event>, t: State, answers: seq<Text>)
    requires Reaches(n, concurrency, run, t, answers) && Done(t) && Rejected !in t.workers
    requires n == 0 || concurrency != NaN
    ensures Entry(t.slots) == Expected(answers)
  {
    RunKeepsInv(Initial(n, concurrency), run, t, answers);
    if n > 0 {
      assert t.workers[0].Finished?;
    }
    forall i | 0 <= i < n ensures t.slots[i] == Some(answers[i]) {
      assert t.workers[t.claims[i].worker].Finished?;
    }
  }

  // Without a worker nothing is claimed, and the missing slots survive the sort.
  lemma NoSlotIsAnswered(n: nat, concurrency: JsNumber, run: seq<Event>, t: State, answers: seq<Text>)
    requires Reaches(n, concurrency, run, t, answers) && n > 0 && concurrency == NaN
    ensures StableSort(Entry(t.slots), LongestFirst) != StableSort(Expected(answers), LongestFirst)
  {
    NoWorkersNoSteps(t, run, answers, n, concurrency);
    var missing, wanted := Entry(t.slots)[0], StableSort(Expected(answers), LongestFirst);
    SameElements(StableSort(Entry(t.slots), LongestFirst), Entry(t.slots));
    SameElements(wanted, Expected(answers));
    assert missing in StableSort(Entry(t.slots), LongestFirst);
    assert missing.canonicalPath.None? && forall entry :: entry in wanted ==> entry.canonicalPath.Some?;
  }

  /** Whatever the interleaving, the outcome is the same: every input with its own canonical path, longest first. */
  lemma ResultIgnoresInterleaving(n: nat, concurrency: JsNumber, run: seq<Event>, t: State, answers: seq<Text>)
    requires Reaches(n, concurrency, run, t, answers) && Done(t) && Rejected !in t.workers
    ensures n == 0 || concurrency != NaN <==> Result(t) == Some(StableSort(Expected(answers), LongestFirst))
  {
    if n == 0 || concurrency != NaN {
      EverySlotIsAnswered(n, concurrency, run, t, answers);
    } else {
      NoSlotIsAnswered(n, concurrency, run, t, answers);
    }
  }

  lemma NoWorkersNoSteps(t: State, run: seq<Event>, answers: seq<Text>, n: nat, concurrency: JsNumber)
    requires concurrency == NaN && Reaches(n, concurrency, run, t, answers)
    ensures t == Initial(n, concurrency)
  {
  }

  /** The entries whose canonical path has the given length, in order. */
  function OfLength(entries: seq<Canonicalized>, length: nat): seq<Canonicalized> {
    Filter(entries, (c: Canonicalized) => Length(c.canonicalPath) == length)
  }

  /** The promised shape of a complete result: a permutation of the inputs, each with its own canonical path, longest
      first, and paths of one length in input order. */
  lemma ResultIsSortedPermutation(answers: seq<Text>)
    ensures var r := StableSort(Expected(answers), LongestFirst);
            && multiset(r) == multiset(Expected(answers))
            && (forall i, j :: 0 <= i < j < |r| ==> Length(r[i].canonicalPath) >= Length(r[j].canonicalPath))
            && (forall length: nat :: OfLength(r, length) == OfLength(Expected(answers), length))
  {
    var entries := Expected(answers);
    StableSortSorts(entries, LongestFirst, Elements(entries));
    var r := StableSort(entries, LongestFirst);
    forall i, j | 0 <= i < j < |r| ensures Length(r[i].canonicalPath) >= Length(r[j].canonicalPath) {
      assert LongestFirst(r[i], r[j]) <= 0;
    }
    forall length: nat ensures OfLength(r, length) == OfLength(entries, length) {
      StableSortKeepsTies(entries, LongestFirst, (c: Canonicalized) => Length(c.canonicalPath) == length);
    }
  }

  // What one resumption does to the slots and the claims.
  lemma OneResumption(s: State, e: Event, answers: seq<Text>)
    requires Inv(s, answers) && CanResume(s, e.worker)
    ensures var (t, w) := (Resume(s, e.worker, Answer(s, e, answers)), e.worker);
            && |t.workers| == |s.workers| && |t.slots| == |s.slots|
            && (forall i :: 0 <= i < s.n ==>
                  t.slots[i] == if s.workers[w] == Awaiting(i) then Answer(s, e, answers) else s.slots[i])
            && (t.workers[w].Awaiting? ==>
                  && t.claims == s.claims + [Claim(w, t.workers[w].index)]
                  && forall claim :: claim in s.claims ==> claim.index != t.workers[w].index)
            && (t.workers[w].Finished? ==> t.nextIndex == s.n)
            && (t.workers[w].Rejected? <==> s.workers[w].Awaiting? && e.rejected)
  {
  }

  // ------------------------------------------------------------------------- the pool itself

  /** The variables the workers share, updated in place. The canonicalizer answers `answers[i]` for index `i`. */
  class Pool {
    var nextIndex: nat
    var workers: seq<Worker>
    var canonicalized: seq<Option<Text>>
    const n: nat
    const concurrency: JsNumber
    ghost const answers: seq<Text>
    ghost var claims: seq<Claim>
    ghost var run: seq<Event>

    ghost function View(): State reads this { State(n, nextIndex, workers, canonicalized, claims) }

    /** The variables are what the resumptions so far have made of them, so that everything said about interleavings
        holds of the object. */
    ghost predicate Valid()
      reads this
    {
      Reaches(n, concurrency, run, View(), answers) && Inv(View(), answers)
    }

    constructor (n: nat, concurrency: JsNumber, ghost answers: seq<Text>)
      requires |answers| == n
      ensures Valid() && View() == Initial(n, concurrency) && run == []
      ensures this.n == n && this.concurrency == concurrency && this.answers == answers
    {
      this.n, this.concurrency, this.answers := n, concurrency, answers;
      nextIndex := 0;
      workers := seq(WorkerCount(n, concurrency), _ => Fresh);
      canonicalized := seq(n, _ => None);
      claims, run := [], [];
    }

    /** One resumption: the call that was awaited fills its own slot and no other, and the worker goes on with an index
        nobody has claimed, or ends once all are claimed; the pool's bound is kept. */
    method ResumeWorker(w: nat, answer: Option<Text>)
      requires Valid() && CanResume(View(), w)
      requires workers[w].Awaiting? && answer.Some? ==> answer.value == answers[workers[w].index]
      modifies this
      ensures Valid() && run == old(run) + [Event(w, answer.None?)] && |workers| == old(|workers|)
      ensures |InFlight(View())| <= WorkerCount(n, concurrency)
      ensures forall i :: 0 <= i < n ==>
                canonicalized[i] == if old(workers[w]) == Awaiting(i) then answer else old(canonicalized[i])
      ensures workers[w].Awaiting? ==>
                claims == old(claims) + [Claim(w, workers[w].index)] &&
                forall claim :: claim in old(claims) ==> claim.index != workers[w].index
      ensures workers[w].Finished? ==> nextIndex == n
      ensures workers[w].Rejected? <==> old(workers[w].Awaiting?) && answer.None?
    {
      ghost var e := Event(w, answer.None?);
      ghost var next := Resume(View(), w, Answer(View(), e, answers));
      LeadsOn(Initial(n, concurrency), run, View(), e, answers);
      ResumeKeepsInv(View(), e, answers);
      ConcurrencyIsBounded(n, concurrency, run + [e], next, answers);
      OneResumption(View(), e, answers);
      run := run + [e];
      if workers[w].Awaiting? {
        if answer.None? {
          workers := workers[w := Rejected];
          assert View() == next;
          return;
        }
        canonicalized := canonicalized[workers[w].index := answer];
      }
      if nextIndex < n {
        var index := nextIndex;
        nextIndex := nextIndex + 1;
        claims := claims + [Claim(w, index)];
        workers := workers[w := Awaiting(index)];
      } else {
        workers := workers[w := Finished];
      }
      assert View() == next;
    }

    /** The end of the function, after all workers have settled: a rejection is passed on, and otherwise the result is
        the promised one, exactly unless concurrency was NaN for a non-empty input. */
    method Settle() returns (result: Option<seq<Canonicalized>>)
      requires Valid() && Done(View())
      ensures result.None? <==> Rejected in workers
      ensures result.Some? ==>
                (result.value == StableSort(Expected(answers), LongestFirst) <==> n == 0 || concurrency != NaN)
    {
      if Rejected in workers { return None; }
      ResultIgnoresInterleaving(n, concurrency, run, View(), answers);
      result := Some(StableSort(Entry(canonicalized), LongestFirst));
    }
  }
}
