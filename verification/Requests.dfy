/** Matching the answers of agents to the threads that wait for them. */
module Requests {
  import opened CStrings

  // ----- the registry

  /** The bytes of a `pthread_t`. */
  type Tid = s: string | |s| == TID_SIZE witness seq(TID_SIZE, _ => '\0')
  const TID_SIZE: nat := 8

  /** A registered request: a thread id, and the worker that registered it. */
  datatype Request = Request(tid: Tid, worker: nat)

  /** `get_Request` */
  function FirstWith(rs: seq<Request>, tid: Tid): (r: Option<Request>)
    ensures r.Some? ==> r.value in rs && r.value.tid == tid
    ensures r.Some? ==> exists k :: 0 <= k < |rs| && rs[k] == r.value && forall j :: 0 <= j < k ==> rs[j].tid != tid
    ensures r.None? ==> forall q <- rs :: q.tid != tid
  {
    if rs == [] then None
    else if rs[0].tid == tid then assert rs[0] == rs[0]; Some(rs[0])
    else
      assert forall j :: 1 <= j < |rs| ==> rs[j] == rs[1..][j - 1];
      FirstWith(rs[1..], tid)
  }

  /** `std::list::remove` */
  function Without(rs: seq<Request>, r: Request): (qs: seq<Request>)
    ensures forall q :: q in qs <==> q in rs && q != r
  {
    if rs == [] then [] else (if rs[0] == r then [] else [rs[0]]) + Without(rs[1..], r)
  }

  lemma {:induction false} WithoutSplits(before: seq<Request>, q: Request, behind: seq<Request>, r: Request)
    ensures Without(before + [q] + behind, r)
         == Without(before, r) + (if q == r then [] else [q]) + Without(behind, r)
    decreases |before|
  {
    var all := before + [q] + behind;
    if before == [] {
      assert all[1..] == behind;
    } else {
      assert all[1..] == before[1..] + [q] + behind;
      WithoutSplits(before[1..], q, behind, r);
    }
  }

  class Registry {
    var requests: seq<Request>

    constructor ()
      ensures requests == []
    {
      requests := [];
    }

    method Get(tid: Tid) returns (r: Option<Request>)
      ensures r == FirstWith(requests, tid)
    {
      var i := 0;
      while i < |requests|
        invariant i <= |requests| && FirstWith(requests[i..], tid) == FirstWith(requests, tid)
      {
        if requests[i].tid == tid {
          return Some(requests[i]);
        }
        i := i + 1;
      }
      return None;
    }

    method Register(r: Request)
      modifies this
      ensures requests == old(requests) + [r]
    {
      requests := requests + [r];
    }

    method Unregister(r: Request)
      modifies this
      ensures requests == Without(old(requests), r)
    {
      var kept: seq<Request>, i := [], 0;
      while i < |requests|
        invariant i <= |requests| && requests == old(requests)
        invariant kept + Without(requests[i..], r) == Without(requests, r)
      {
        if requests[i] != r {
          Assoc(kept, [requests[i]], Without(requests[i + 1..], r));
          kept := kept + [requests[i]];
        } else {
          assert [] + Without(requests[i + 1..], r) == Without(requests[i + 1..], r);
        }
        assert requests[i..][1..] == requests[i + 1..];
        i := i + 1;
      }
      NoTail(kept);
      requests := kept;
    }
  }

  // ----- the bytes of commands and acknowledgements

  const ACK: char := 'a'

  /** A message of either direction: its type, a thread id, and a text. */
  function Pack(kind: char, tid: Tid, text: string): string {
    [kind] + tid + text
  }

  function TidOf(message: string): Tid
    requires |message| > TID_SIZE
  {
    message[1..TID_SIZE + 1]
  }

  function TextOf(message: string): string
    requires |message| > TID_SIZE
  {
    message[TID_SIZE + 1..]
  }

  lemma PackUnpacks(kind: char, tid: Tid, text: string)
    ensures var m := Pack(kind, tid, text);
            |m| == 9 + |text| && m[0] == kind && m[1..9] == TidOf(m) == tid && m[9..] == TextOf(m) == text
  {
  }

  // ----- the system: workers, agents, and everything between them

  /** A worker registers, sends one command, waits, and leaves with whatever its buffer holds. */
  datatype Stage = Started | Registered | Waiting | Left

  datatype Worker = Worker(tid: Tid, stage: Stage, buffer: string)

  /** A command or an acknowledgement in flight; `origin` is the worker whose command it stems from. */
  datatype Message = Message(origin: nat, tid: Tid, text: string)

  /** A request has been found for an acknowledgement, and the text is about to be written to its buffer.  The
      request and the buffer lie on the stack of their thread.  A thread id that comes back comes back with the
      stack, so the address of the buffer stands for the same id. */
  datatype Write = Write(tid: Tid, text: string)

  /** Messages are kept without regard to agent and order: a step may take any of them, which covers any
      number of agents and every order of delivery.  `answers` records what the agents replied. */
  datatype State = State(workers: seq<Worker>, registry: seq<Request>, commands: seq<Message>, acks: seq<Message>,
                         writes: seq<Write>, answers: map<nat, string>)

  datatype Step =
    | Start(tid: Tid)
    | Enter(w: nat)
    | Send(w: nat, params: string)
    | Handle(i: nat, text: string)
    | Look(i: nat)
    | Put(i: nat)
    | Leave(w: nat)

  const INITIAL := State([], [], [], [], [], map[])

  /** Thread ids are unique among the threads that exist; a worker runs its stages in order. */
  predicate Enabled(s: State, step: Step) {
    match step
    case Start(tid) => forall w <- s.workers :: w.tid == tid ==> w.stage == Left
    case Enter(w) => w < |s.workers| && s.workers[w].stage == Started
    case Send(w, _) => w < |s.workers| && s.workers[w].stage == Registered
    case Handle(i, _) => i < |s.commands|
    case Look(i) => i < |s.acks|
    case Put(i) => i < |s.writes|
    case Leave(w) => w < |s.workers| && s.workers[w].stage == Waiting
  }

  function Dropped<T>(s: seq<T>, i: nat): (r: seq<T>)
    requires i < |s|
    ensures |r| == |s| - 1
    ensures forall k :: 0 <= k < |r| ==> r[k] == s[if k < i then k else k + 1]
  {
    s[..i] + s[i + 1..]
  }

  /** The listener looks the id up among the registered requests; an unknown id leads to no write. */
  function Found(s: State, m: Message): seq<Write> {
    match FirstWith(s.registry, m.tid) case None => [] case Some(r) => [Write(r.tid, m.text)]
  }

  /** The thread that has the id now, or had it last. */
  function LastWith(workers: seq<Worker>, tid: Tid): (r: Option<nat>)
    ensures r.Some? ==> r.value < |workers| && workers[r.value].tid == tid
    ensures r.Some? ==> forall k :: r.value < k < |workers| ==> workers[k].tid != tid
    ensures r.None? ==> forall k :: 0 <= k < |workers| ==> workers[k].tid != tid
  {
    var n := |workers|;
    if n == 0 then None else if workers[n - 1].tid == tid then Some(n - 1) else LastWith(workers[..n - 1], tid)
  }

  /** The text goes to the buffer whether the worker it was meant for still waits or not: nothing is locked
      meanwhile. */
  function Written(workers: seq<Worker>, x: Write): seq<Worker> {
    match LastWith(workers, x.tid)
    case None => workers
    case Some(n) => workers[n := workers[n].(buffer := x.text)]
  }

  function After(s: State, step: Step): State
    requires Enabled(s, step)
  {
    match step
    case Start(tid) => s.(workers := s.workers + [Worker(tid, Started, "")])
    case Enter(w) =>
      s.(workers := s.workers[w := s.workers[w].(stage := Registered)],
         registry := s.registry + [Request(s.workers[w].tid, w)])
    case Send(w, params) =>
      s.(workers := s.workers[w := s.workers[w].(stage := Waiting)],
         commands := s.commands + [Message(w, s.workers[w].tid, params)])
    case Handle(i, text) =>
      var c := s.commands[i];
      s.(commands := Dropped(s.commands, i), acks := s.acks + [Message(c.origin, c.tid, text)],
         answers := s.answers[c.origin := text])
    case Look(i) => s.(acks := Dropped(s.acks, i), writes := s.writes + Found(s, s.acks[i]))
    case Put(i) => s.(workers := Written(s.workers, s.writes[i]), writes := Dropped(s.writes, i))
    case Leave(w) =>
      s.(workers := s.workers[w := s.workers[w].(stage := Left)],
         registry := Without(s.registry, Request(s.workers[w].tid, w)))
  }

  /** No thread takes an id that a command in flight still carries, or an acknowledgement with a text, or a
      text that has been looked up and not been written yet. */
  predicate Quiet(s: State, step: Step) {
    step.Start? ==>
      (forall m <- s.commands :: m.tid != step.tid)
      && (forall m <- s.acks :: m.tid == step.tid ==> m.text == "")
      && forall x <- s.writes :: x.tid == step.tid ==> x.text == ""
  }

  // ----- invariants

  predicate Live(s: State, w: nat) {
    w < |s.workers| && s.workers[w].stage != Left
  }

  predicate InRegistry(s: State, w: nat) {
    w < |s.workers| && (s.workers[w].stage == Registered || s.workers[w].stage == Waiting)
  }

  /** A live worker is the last with its id. */
  predicate DistinctIds(s: State) {
    forall v, w :: 0 <= v < w < |s.workers| && Live(s, v) ==> s.workers[v].tid != s.workers[w].tid
  }

  /** The registry holds exactly the workers between registering and leaving, each once. */
  predicate RegistryExact(s: State) {
    (forall r <- s.registry :: InRegistry(s, r.worker) && r.tid == s.workers[r.worker].tid)
    && (forall w :: 0 <= w < |s.workers| && InRegistry(s, w) ==> Request(s.workers[w].tid, w) in s.registry)
    && EachOnce(s.registry)
  }

  predicate EachOnce(rs: seq<Request>) {
    forall i, j :: 0 <= i < j < |rs| ==> rs[i].worker != rs[j].worker
  }

  /** A message carries the id of the worker it stems from, which has sent its command. */
  predicate Rooted(s: State, m: Message) {
    m.origin < |s.workers| && m.tid == s.workers[m.origin].tid
    && (s.workers[m.origin].stage == Waiting || s.workers[m.origin].stage == Left)
  }

  predicate MessagesRooted(s: State) {
    (forall m <- s.commands :: Rooted(s, m) && m.origin !in s.answers)
    && (forall m <- s.acks :: Rooted(s, m) && m.origin in s.answers && m.text == s.answers[m.origin])
    && forall w <- s.answers :: w < |s.workers| && (s.workers[w].stage == Waiting || s.workers[w].stage == Left)
  }

  /** No two messages stem from the same worker. */
  predicate OnceEach(ms: seq<Message>) {
    forall i, j :: 0 <= i < j < |ms| ==> ms[i].origin != ms[j].origin
  }

  /** One command per worker, one acknowledgement per command. */
  predicate MessagesOnce(s: State) {
    OnceEach(s.commands) && OnceEach(s.acks)
  }

  /** A message in flight and a live worker agree in their id only when one stems from the other. */
  predicate NoClash(s: State) {
    (forall m <- s.commands :: Clear(s, m)) && forall m <- s.acks :: m.text != "" ==> Clear(s, m)
  }

  predicate Clear(s: State, m: Message) {
    forall w :: 0 <= w < |s.workers| && Live(s, w) && s.workers[w].tid == m.tid ==> m.origin == w
  }

  /** Nothing, or the answer to the command of worker `w`. */
  predicate Own(s: State, w: nat, text: string) {
    text == "" || (w in s.answers && text == s.answers[w])
  }

  /** A buffer holds nothing, or the answer to the worker's own command. */
  predicate OwnAnswers(s: State) {
    forall w :: 0 <= w < |s.workers| ==> Own(s, w, s.workers[w].buffer)
  }

  /** A text that is about to be written is for the worker that has the id now, or had it last. */
  predicate OwnWrites(s: State) {
    forall x <- s.writes :: x.text != "" ==> OwnWrite(s, x)
  }

  predicate OwnWrite(s: State, x: Write) {
    match LastWith(s.workers, x.tid) case None => false case Some(n) => Own(s, n, x.text)
  }

  predicate Inv(s: State) {
    DistinctIds(s) && RegistryExact(s) && MessagesRooted(s) && MessagesOnce(s) && NoClash(s) && OwnAnswers(s)
    && OwnWrites(s)
  }

  /** The part that needs no assumption on thread ids. */
  predicate CoreInv(s: State) {
    DistinctIds(s) && RegistryExact(s) && MessagesRooted(s) && MessagesOnce(s)
  }

  // ----- one step

  lemma DroppedIn<T>(s: seq<T>, i: nat)
    requires i < |s|
    ensures forall x <- Dropped(s, i) :: x in s
  {
  }

  /** Steps do not touch ids, so messages stay rooted while stages only advance. */
  predicate Advances(s: State, t: State) {
    |s.workers| <= |t.workers|
    && forall w :: 0 <= w < |s.workers| ==>
      t.workers[w].tid == s.workers[w].tid
      && (s.workers[w].stage == Waiting || s.workers[w].stage == Left
        ==> t.workers[w].stage == Waiting || t.workers[w].stage == Left)
      && (Live(t, w) ==> Live(s, w))
  }

  lemma AfterAdvances(s: State, step: Step)
    requires Enabled(s, step)
    ensures Advances(s, After(s, step))
  {
  }

  lemma IdsStayDistinct(s: State, step: Step)
    requires Enabled(s, step) && DistinctIds(s)
    ensures DistinctIds(After(s, step))
  {
    var t := After(s, step);
    AfterAdvances(s, step);
    forall v, w | 0 <= v < w < |t.workers| && Live(t, v) && Live(t, w) ensures t.workers[v].tid != t.workers[w].tid {
      if w == |s.workers| { assert s.workers[v] in s.workers; }
    }
  }

  lemma WithoutKeepsOnce(rs: seq<Request>, r: Request)
    requires EachOnce(rs)
    ensures EachOnce(Without(rs, r))
  {
    if rs != [] {
      var more := Without(rs[1..], r);
      WithoutKeepsOnce(rs[1..], r);
      forall k | 0 <= k < |more| ensures more[k].worker != rs[0].worker {
        assert more[k] in rs[1..];
      }
    }
  }

  lemma RegistryStaysExact(s: State, step: Step)
    requires Enabled(s, step) && RegistryExact(s)
    ensures RegistryExact(After(s, step))
  {
    match step
    case Enter(w) => EntererListed(s, w);
    case Leave(w) => LeaverGone(s, w);
    case _ => SameRegistry(s, After(s, step));
  }

  lemma SameRegistry(s: State, t: State)
    requires RegistryExact(s) && t.registry == s.registry && |s.workers| <= |t.workers|
    requires forall w :: 0 <= w < |s.workers| ==>
      t.workers[w].tid == s.workers[w].tid && (InRegistry(t, w) <==> InRegistry(s, w))
    requires forall w :: |s.workers| <= w < |t.workers| ==> !InRegistry(t, w)
    ensures RegistryExact(t)
  {
    forall w | 0 <= w < |t.workers| && InRegistry(t, w) ensures Request(t.workers[w].tid, w) in t.registry {
      assert InRegistry(s, w);
    }
  }

  lemma EntererListed(s: State, w: nat)
    requires Enabled(s, Enter(w)) && RegistryExact(s)
    ensures RegistryExact(After(s, Enter(w)))
  {
    var t := After(s, Enter(w));
    var r := Request(s.workers[w].tid, w);
    assert forall q <- s.registry :: InRegistry(s, q.worker) && q.worker != w;
    assert forall i :: 0 <= i < |s.registry| ==> s.registry[i] in s.registry;
    assert t.registry[|s.registry|] == r;
    forall v | 0 <= v < |t.workers| && InRegistry(t, v) ensures Request(t.workers[v].tid, v) in t.registry {
      if v != w { assert InRegistry(s, v); }
    }
    forall q | q in t.registry ensures InRegistry(t, q.worker) && q.tid == t.workers[q.worker].tid {
      if q in s.registry { assert InRegistry(s, q.worker); }
    }
  }

  lemma LeaverGone(s: State, w: nat)
    requires Enabled(s, Leave(w)) && RegistryExact(s)
    ensures RegistryExact(After(s, Leave(w)))
  {
    var t := After(s, Leave(w));
    WithoutKeepsOnce(s.registry, Request(s.workers[w].tid, w));
    forall v | 0 <= v < |t.workers| && InRegistry(t, v) ensures Request(t.workers[v].tid, v) in t.registry {
      assert InRegistry(s, v) && v != w;
    }
    forall r | r in t.registry ensures InRegistry(t, r.worker) && r.tid == t.workers[r.worker].tid {
      assert r in s.registry && r.worker != w;
    }
  }

  lemma RootedStays(s: State, t: State, m: Message)
    requires Rooted(s, m) && Advances(s, t)
    ensures Rooted(t, m)
  {
  }

  lemma MessagesStayRooted(s: State, step: Step)
    requires Enabled(s, step) && MessagesRooted(s) && MessagesOnce(s)
    ensures MessagesRooted(After(s, step))
  {
    hide Rooted;
    var t := After(s, step);
    AfterAdvances(s, step);
    forall m | Rooted(s, m) ensures Rooted(t, m) { RootedStays(s, t, m); }
    match step
    case Send(w, params) => NewCommandRooted(s, w, params);
    case Handle(i, text) =>
      DroppedIn(s.commands, i);
      HandledRooted(s, i, text);
    case Look(i) => DroppedIn(s.acks, i);
    case _ =>
  }

  lemma NewCommandRooted(s: State, w: nat, params: string)
    requires Enabled(s, Send(w, params)) && MessagesRooted(s)
    ensures var t := After(s, Send(w, params));
            var m := Message(w, s.workers[w].tid, params);
            t.commands == s.commands + [m] && Rooted(t, m) && w !in s.answers
  {
  }

  lemma HandledRooted(s: State, i: nat, text: string)
    requires Enabled(s, Handle(i, text)) && MessagesRooted(s) && MessagesOnce(s)
    ensures var t := After(s, Handle(i, text));
            (forall m <- t.commands :: m.origin !in t.answers)
            && (forall m <- t.acks :: m.origin in t.answers && m.text == t.answers[m.origin] && Rooted(t, m))
            && forall w <- t.answers :: w < |t.workers| && (t.workers[w].stage == Waiting || t.workers[w].stage == Left)
  {
    var t, c := After(s, Handle(i, text)), s.commands[i];
    assert c in s.commands && Rooted(s, c);
    DroppedIn(s.commands, i);
    forall m | m in t.commands ensures m.origin != c.origin {
      var k :| 0 <= k < |t.commands| && t.commands[k] == m;
      assert m == s.commands[if k < i then k else k + 1];
    }
    forall m | m in t.acks ensures m.origin in t.answers && m.text == t.answers[m.origin] && Rooted(t, m) {
      if m in s.acks { assert m.origin != c.origin; }
    }
  }

  lemma MessagesStayOnce(s: State, step: Step)
    requires Enabled(s, step) && MessagesRooted(s) && MessagesOnce(s)
    ensures MessagesOnce(After(s, step))
  {
    hide OnceEach, Without, Written, Found;
    match step
    case Send(w, params) => OnceMore(s.commands, Message(w, s.workers[w].tid, params));
    case Handle(i, text) =>
      var c := s.commands[i];
      assert c in s.commands;
      OnceLess(s.commands, i);
      OnceMore(s.acks, Message(c.origin, c.tid, text));
    case Look(i) => OnceLess(s.acks, i);
    case _ =>
  }

  lemma OnceMore(ms: seq<Message>, m: Message)
    requires OnceEach(ms) && forall n <- ms :: n.origin != m.origin
    ensures OnceEach(ms + [m])
  {
  }

  lemma OnceLess(ms: seq<Message>, i: nat)
    requires OnceEach(ms) && i < |ms|
    ensures OnceEach(Dropped(ms, i))
  {
  }

  /** Every step keeps what needs no assumption on thread ids. */
  lemma CoreStep(s: State, step: Step)
    requires Enabled(s, step) && CoreInv(s)
    ensures CoreInv(After(s, step))
  {
    hide DistinctIds, RegistryExact, MessagesRooted, MessagesOnce;
    IdsStayDistinct(s, step);
    RegistryStaysExact(s, step);
    MessagesStayRooted(s, step);
    MessagesStayOnce(s, step);
  }

  lemma {:induction false} ClearStays(s: State, step: Step)
    requires Enabled(s, step) && MessagesRooted(s) && DistinctIds(s) && NoClash(s) && Quiet(s, step)
    ensures NoClash(After(s, step))
  {
    hide Rooted;
    var t := After(s, step);
    AfterAdvances(s, step);
    match step
    case Start(tid) =>
      forall m | m in s.commands || (m in s.acks && m.text != "") ensures Clear(t, m) {
        assert m.tid != tid && Clear(s, m);
      }
    case Send(w, params) => NewCommandClear(s, w, params);
    case Handle(i, text) =>
      DroppedIn(s.commands, i);
      assert s.commands[i] in s.commands;
    case Look(i) => DroppedIn(s.acks, i);
    case _ =>
  }

  lemma NewCommandClear(s: State, w: nat, params: string)
    requires Enabled(s, Send(w, params)) && DistinctIds(s) && NoClash(s)
    ensures NoClash(After(s, Send(w, params)))
  {
    var t := After(s, Send(w, params));
    var m := Message(w, s.workers[w].tid, params);
    AfterAdvances(s, Send(w, params));
    forall v | 0 <= v < |t.workers| && Live(t, v) && t.workers[v].tid == m.tid ensures v == w {
      assert Live(s, v) && Live(s, w);
    }
    assert t.commands == s.commands + [m] && Clear(t, m);
    forall n | n in s.commands || (n in s.acks && n.text != "") ensures Clear(t, n) { assert Clear(s, n); }
  }

  /** The request found for an acknowledgement with a text, if any, belongs to the worker it stems from. */
  lemma FoundIsOrigin(s: State, i: nat)
    requires i < |s.acks| && RegistryExact(s) && NoClash(s) && s.acks[i].text != ""
    ensures var r := FirstWith(s.registry, s.acks[i].tid);
            r.Some? ==> r.value.worker == s.acks[i].origin && Live(s, r.value.worker)
  {
    var m := s.acks[i];
    assert m in s.acks && Clear(s, m);
    var r := FirstWith(s.registry, m.tid);
    if r.Some? { assert InRegistry(s, r.value.worker) && Live(s, r.value.worker); }
  }

  /** Answers are given once, so what was somebody's own stays so. */
  lemma OwnStays(s: State, step: Step, w: nat, text: string)
    requires Enabled(s, step) && MessagesRooted(s) && Own(s, w, text)
    ensures Own(After(s, step), w, text)
  {
    if step.Handle? { assert s.commands[step.i] in s.commands; }
  }

  lemma LastIs(workers: seq<Worker>, tid: Tid, n: nat)
    requires n < |workers| && workers[n].tid == tid && forall k :: n < k < |workers| ==> workers[k].tid != tid
    ensures LastWith(workers, tid) == Some(n)
  {
  }

  /** Only a thread that starts with the id changes who has it. */
  lemma LastStays(s: State, step: Step, tid: Tid)
    requires Enabled(s, step) && step != Start(tid)
    ensures LastWith(After(s, step).workers, tid) == LastWith(s.workers, tid)
  {
    var t := After(s, step);
    AfterAdvances(s, step);
    assert forall k :: 0 <= k < |s.workers| ==> t.workers[k].tid == s.workers[k].tid;
    match LastWith(s.workers, tid)
    case Some(n) => LastIs(t.workers, tid, n);
    case None =>
  }

  lemma WriteStaysOwn(s: State, step: Step, x: Write)
    requires Enabled(s, step) && Quiet(s, step) && MessagesRooted(s) && x in s.writes && x.text != "" && OwnWrite(s, x)
    ensures OwnWrite(After(s, step), x)
  {
    hide Own, LastWith, MessagesRooted, After, Enabled;
    LastStays(s, step, x.tid);
    OwnStays(s, step, LastWith(s.workers, x.tid).value, x.text);
  }

  lemma WritesStayOwn(s: State, step: Step)
    requires Enabled(s, step) && Quiet(s, step) && Inv(s)
    ensures OwnWrites(After(s, step))
  {
    hide OwnWrite, Quiet;
    var t := After(s, step);
    forall x | x in s.writes && x.text != "" ensures OwnWrite(t, x) { WriteStaysOwn(s, step, x); }
    match step
    case Look(i) => FoundIsOwn(s, i);
    case Put(i) => DroppedIn(s.writes, i);
    case _ =>
  }

  lemma FoundIsOwn(s: State, i: nat)
    requires DistinctIds(s) && RegistryExact(s) && NoClash(s) && MessagesRooted(s) && i < |s.acks|
    ensures forall x <- Found(s, s.acks[i]) :: x.text != "" ==> OwnWrite(After(s, Look(i)), x)
  {
    hide RegistryExact, NoClash, FirstWith, LastWith;
    var m := s.acks[i];
    assert m in s.acks && Rooted(s, m);
    if m.text != "" && FirstWith(s.registry, m.tid).Some? {
      FoundIsOrigin(s, i);
      LastIs(s.workers, m.tid, m.origin);
    }
  }

  lemma AnswersStayOwn(s: State, step: Step)
    requires Enabled(s, step) && Inv(s)
    ensures OwnAnswers(After(s, step))
  {
    hide Own, LastWith;
    var t := After(s, step);
    forall w | 0 <= w < |s.workers|
      ensures Own(t, w, s.workers[w].buffer)
    {
      OwnStays(s, step, w, s.workers[w].buffer);
    }
    match step
    case Start(_) => NothingIsOwn(t, |s.workers|);
    case Put(i) =>
      var x := s.writes[i];
      assert x in s.writes;
      var r := LastWith(s.workers, x.tid);
      if r.Some? {
        if x.text == "" { NothingIsOwn(s, r.value); }
        OwnStays(s, step, r.value, x.text);
      }
    case _ =>
  }

  lemma NothingIsOwn(s: State, w: nat)
    ensures Own(s, w, "")
  {
  }

  /** Every step keeps all invariants, as long as no thread id is taken that is still in flight. */
  lemma QuietStep(s: State, step: Step)
    requires Enabled(s, step) && Quiet(s, step) && Inv(s)
    ensures Inv(After(s, step))
  {
    hide DistinctIds, RegistryExact, MessagesRooted, MessagesOnce, NoClash, OwnAnswers, OwnWrites;
    CoreStep(s, step);
    ClearStays(s, step);
    AnswersStayOwn(s, step);
    WritesStayOwn(s, step);
  }

  // ----- whole runs

  predicate Runs(s: State, steps: seq<Step>)
    decreases |steps|
  {
    steps == [] || (Enabled(s, steps[0]) && Runs(After(s, steps[0]), steps[1..]))
  }

  predicate RunsQuietly(s: State, steps: seq<Step>)
    decreases |steps|
  {
    steps == [] || (Enabled(s, steps[0]) && Quiet(s, steps[0]) && RunsQuietly(After(s, steps[0]), steps[1..]))
  }

  function Final(s: State, steps: seq<Step>): State
    requires Runs(s, steps)
    decreases |steps|
  {
    if steps == [] then s else Final(After(s, steps[0]), steps[1..])
  }

  lemma {:induction false} QuietRuns(s: State, steps: seq<Step>)
    requires RunsQuietly(s, steps)
    ensures Runs(s, steps)
    decreases |steps|
  {
    hide Enabled, After, Quiet;
    if steps != [] { QuietRuns(After(s, steps[0]), steps[1..]); }
  }

  lemma {:induction false} CoreRun(s: State, steps: seq<Step>)
    requires Runs(s, steps) && CoreInv(s)
    ensures CoreInv(Final(s, steps))
    decreases |steps|
  {
    hide Enabled, After, CoreInv;
    if steps != [] {
      CoreStep(s, steps[0]);
      CoreRun(After(s, steps[0]), steps[1..]);
    }
  }

  lemma {:induction false} QuietRun(s: State, steps: seq<Step>)
    requires RunsQuietly(s, steps) && Inv(s)
    ensures Runs(s, steps) && Inv(Final(s, steps))
    decreases |steps|
  {
    hide Enabled, After, Inv, Quiet;
    QuietRuns(s, steps);
    if steps != [] {
      QuietStep(s, steps[0]);
      QuietRun(After(s, steps[0]), steps[1..]);
    }
  }

  /** In every reachable state the registry has one entry for each worker between registering and leaving
      and none for any other; every message in flight carries the id of the worker it stems from, and no
      two commands, nor two acknowledgements, stem from the same one. */
  lemma RegistryAlwaysExact(steps: seq<Step>)
    requires Runs(INITIAL, steps)
    ensures RegistryExact(Final(INITIAL, steps)) && MessagesRooted(Final(INITIAL, steps))
          && MessagesOnce(Final(INITIAL, steps))
  {
    CoreRun(INITIAL, steps);
  }

  /** If no thread takes an id that is still in flight, every worker ends with no answer or with the
      answer to its own command. */
  lemma AnswersReachTheirWorker(steps: seq<Step>)
    requires RunsQuietly(INITIAL, steps)
    ensures Runs(INITIAL, steps) && OwnAnswers(Final(INITIAL, steps))
  {
    QuietRun(INITIAL, steps);
  }

  /** An acknowledgement that is looked up after its worker has left leads to no write. */
  lemma {:induction false} LateAckIsDropped(s: State, i: nat)
    requires Inv(s) && i < |s.acks| && s.acks[i].text != "" && !Live(s, s.acks[i].origin)
    ensures After(s, Look(i)).writes == s.writes && After(s, Look(i)).workers == s.workers
  {
    FoundIsOrigin(s, i);
    NoTail(s.writes);
  }

  /** Nothing keeps a worker from leaving between the look-up and the write: the text then goes to the buffer
      of a worker that is not there any more. */
  lemma WriteAfterLeave(s: State, i: nat)
    requires Inv(s) && i < |s.acks| && s.acks[i].text != "" && s.acks[i].origin < |s.workers|
    requires s.workers[s.acks[i].origin].stage == Waiting
    ensures var w := s.acks[i].origin;
            var steps := [Look(i), Leave(w), Put(|s.writes|)];
            Runs(s, steps) && w < |Final(s, steps).workers|
              && Final(s, steps).workers[w] == Worker(s.acks[i].tid, Stage.Left, s.acks[i].text)
  {
    hide FirstWith, LastWith, Inv, Without;
    var m, w, n := s.acks[i], s.acks[i].origin, |s.writes|;
    WaiterFound(s, i);
    var u := After(s, Look(i));
    var v := After(u, Leave(w));
    assert v.writes[n] == Write(m.tid, m.text);
    LastIs(v.workers, m.tid, w);
    ThreeSteps(s, Look(i), Leave(w), Put(n));
  }

  /** While the worker waits, looking up and writing bring it the text of its acknowledgement. */
  lemma AnswerArrives(s: State, i: nat)
    requires Inv(s) && i < |s.acks| && s.acks[i].text != "" && s.acks[i].origin < |s.workers|
    requires s.workers[s.acks[i].origin].stage == Waiting
    ensures var w, steps := s.acks[i].origin, [Look(i), Put(|s.writes|)];
            Runs(s, steps) && w < |Final(s, steps).workers|
              && Final(s, steps).workers[w] == Worker(s.acks[i].tid, Waiting, s.acks[i].text)
  {
    hide FirstWith, LastWith, Inv, Without;
    var m, w, n := s.acks[i], s.acks[i].origin, |s.writes|;
    WaiterFound(s, i);
    var u := After(s, Look(i));
    assert u.writes[n] == Write(m.tid, m.text);
    LastIs(u.workers, m.tid, w);
    TwoSteps(s, Look(i), Put(n));
  }

  function Count(steps: seq<Step>, p: Step -> bool): nat {
    if steps == [] then 0 else (if p(steps[0]) then 1 else 0) + Count(steps[1..], p)
  }

  /** Nothing is lost and nothing is doubled: a command sent is in flight or has been handled, its
      acknowledgement is in flight or has been looked up, and every text written has been looked up. */
  lemma {:induction false} MessagesConserved(s: State, steps: seq<Step>)
    requires Runs(s, steps)
    ensures var t := Final(s, steps);
            |t.workers| == |s.workers| + Count(steps, (x: Step) => x.Start?)
            && |t.commands| + Count(steps, (x: Step) => x.Handle?) == |s.commands| + Count(steps, (x: Step) => x.Send?)
            && |t.acks| + Count(steps, (x: Step) => x.Look?) == |s.acks| + Count(steps, (x: Step) => x.Handle?)
            && |t.writes| + Count(steps, (x: Step) => x.Put?) <= |s.writes| + Count(steps, (x: Step) => x.Look?)
    decreases |steps|
  {
    hide Enabled, After;
    if steps != [] {
      StepConserves(s, steps[0]);
      MessagesConserved(After(s, steps[0]), steps[1..]);
    }
  }

  lemma StepConserves(s: State, step: Step)
    requires Enabled(s, step)
    ensures var t := After(s, step);
            |t.workers| == |s.workers| + (if step.Start? then 1 else 0)
            && |t.commands| + (if step.Handle? then 1 else 0) == |s.commands| + (if step.Send? then 1 else 0)
            && |t.acks| + (if step.Look? then 1 else 0) == |s.acks| + (if step.Handle? then 1 else 0)
            && |t.writes| + (if step.Put? then 1 else 0) <= |s.writes| + (if step.Look? then 1 else 0)
  {
    hide FirstWith, LastWith, Without;
  }

  lemma WaiterFound(s: State, i: nat)
    requires Inv(s) && i < |s.acks| && s.acks[i].text != "" && s.acks[i].origin < |s.workers|
    requires s.workers[s.acks[i].origin].stage == Waiting
    ensures Found(s, s.acks[i]) == [Write(s.acks[i].tid, s.acks[i].text)]
    ensures s.workers[s.acks[i].origin].tid == s.acks[i].tid
    ensures forall k :: s.acks[i].origin < k < |s.workers| ==> s.workers[k].tid != s.acks[i].tid
  {
    assert s.acks[i] in s.acks && Rooted(s, s.acks[i]) && InRegistry(s, s.acks[i].origin);
    FoundIsOrigin(s, i);
    assert Live(s, s.acks[i].origin);
  }

  lemma {:induction false} RunsThrough(s: State, a: seq<Step>, b: seq<Step>)
    requires Runs(s, a) && Runs(Final(s, a), b)
    ensures Runs(s, a + b) && Final(s, a + b) == Final(Final(s, a), b)
    decreases |a|
  {
    hide Enabled, After;
    if a == [] {
      assert a + b == b;
    } else {
      RunsThrough(After(s, a[0]), a[1..], b);
      assert (a + b)[1..] == a[1..] + b;
    }
  }

  lemma OneStep(s: State, step: Step)
    requires Enabled(s, step)
    ensures Runs(s, [step]) && Final(s, [step]) == After(s, step)
  {
    hide Enabled, After;
    assert [step][1..] == [];
    assert Runs(After(s, step), []) && Final(After(s, step), []) == After(s, step);
  }

  lemma TwoSteps(s: State, x: Step, y: Step)
    requires Enabled(s, x) && Enabled(After(s, x), y)
    ensures Runs(s, [x, y]) && Final(s, [x, y]) == After(After(s, x), y)
  {
    hide Enabled, After;
    OneStep(s, x);
    OneStep(After(s, x), y);
    RunsThrough(s, [x], [y]);
    assert [x] + [y] == [x, y];
  }

  // ----- when a thread id may be taken again

  predicate KeepsOwn(s: State, steps: seq<Step>) {
    Runs(s, steps) ==> OwnAnswers(Final(s, steps))
  }

  lemma ThreeSteps(s: State, x: Step, y: Step, z: Step)
    requires Enabled(s, x) && Enabled(After(s, x), y) && Enabled(After(After(s, x), y), z)
    ensures Runs(s, [x, y, z]) && Final(s, [x, y, z]) == After(After(After(s, x), y), z)
  {
    hide Enabled, After;
    TwoSteps(s, x, y);
    OneStep(After(After(s, x), y), z);
    RunsThrough(s, [x, y], [z]);
    assert [x, y] + [z] == [x, y, z];
  }

  lemma {:induction false} StartlessIsQuiet(s: State, steps: seq<Step>)
    requires Runs(s, steps) && forall x <- steps :: !x.Start?
    ensures RunsQuietly(s, steps)
    decreases |steps|
  {
    hide Enabled, After;
    if steps != [] {
      assert steps[0] in steps && forall x <- steps[1..] :: x in steps;
      StartlessIsQuiet(After(s, steps[0]), steps[1..]);
    }
  }

  /** A thread that has started with an id and entered the registry is the one found under that id. */
  lemma EntererFound(s: State, tid: Tid)
    requires CoreInv(s) && Enabled(s, Start(tid))
    ensures var n := |s.workers|;
            var u := After(s, Start(tid));
            Enabled(u, Enter(n)) && FirstWith(After(u, Enter(n)).registry, tid) == Some(Request(tid, n))
  {
    var n := |s.workers|;
    var u := After(s, Start(tid));
    forall q | q in s.registry ensures q.tid != tid {
      assert InRegistry(s, q.worker) && s.workers[q.worker] in s.workers;
    }
    LastFound(s.registry, Request(tid, n));
    assert u.workers[n] == Worker(tid, Started, "");
  }

  lemma {:induction false} LastFound(rs: seq<Request>, r: Request)
    requires forall q <- rs :: q.tid != r.tid
    ensures FirstWith(rs + [r], r.tid) == Some(r)
  {
    if rs != [] {
      assert (rs + [r])[0] == rs[0] && rs[0] in rs && (rs + [r])[1..] == rs[1..] + [r];
      LastFound(rs[1..], r);
    }
  }

  /** A text that is written under the id of the newest thread reaches that thread. */
  lemma WriteMisdelivered(v: State, n: nat, i: nat)
    requires i < |v.writes| && v.writes[i].text != "" && n + 1 == |v.workers| && n !in v.answers
    requires v.workers[n].tid == v.writes[i].tid
    ensures Enabled(v, Put(i)) && !OwnAnswers(After(v, Put(i)))
  {
    var y := After(v, Put(i));
    LastIs(v.workers, v.writes[i].tid, n);
    assert !Own(y, n, y.workers[n].buffer);
  }

  /** So does an acknowledgement with that id and a text, once looked up and written. */
  lemma AckMisdelivered(v: State, n: nat, i: nat)
    requires i < |v.acks| && n + 1 == |v.workers| && v.acks[i].text != "" && n !in v.answers
    requires v.workers[n].tid == v.acks[i].tid
    requires FirstWith(v.registry, v.acks[i].tid) == Some(Request(v.acks[i].tid, n))
    ensures Enabled(v, Look(i)) && Enabled(After(v, Look(i)), Put(|v.writes|))
    ensures !OwnAnswers(After(After(v, Look(i)), Put(|v.writes|)))
  {
    var x := After(v, Look(i));
    assert x.writes[|v.writes|] == Write(v.acks[i].tid, v.acks[i].text);
    WriteMisdelivered(x, n, |v.writes|);
  }

  lemma WriteReused(s: State, tid: Tid, i: nat) returns (more: seq<Step>)
    requires CoreInv(s) && Enabled(s, Start(tid))
    requires i < |s.writes| && s.writes[i].tid == tid && s.writes[i].text != ""
    ensures RunsQuietly(After(s, Start(tid)), more) && !KeepsOwn(After(s, Start(tid)), more)
  {
    hide KeepsOwn, OwnAnswers;
    var u := After(s, Start(tid));
    WriteMisdelivered(u, |s.workers|, i);
    more := [Put(i)];
    OneStep(u, Put(i));
    StartlessIsQuiet(u, more);
    NotKept(u, more);
  }

  lemma NewIsUnanswered(s: State)
    requires CoreInv(s)
    ensures |s.workers| !in s.answers
  {
  }

  lemma AckReused(s: State, tid: Tid, i: nat) returns (more: seq<Step>)
    requires CoreInv(s) && Enabled(s, Start(tid))
    requires i < |s.acks| && s.acks[i].tid == tid && s.acks[i].text != ""
    ensures RunsQuietly(After(s, Start(tid)), more) && !KeepsOwn(After(s, Start(tid)), more)
  {
    hide FirstWith, KeepsOwn, OwnAnswers, CoreInv;
    var n, u := |s.workers|, After(s, Start(tid));
    EntererFound(s, tid);
    NewIsUnanswered(s);
    AckMisdelivered(After(u, Enter(n)), n, i);
    more := [Enter(n), Look(i), Put(|s.writes|)];
    ThreeSteps(u, Enter(n), Look(i), Put(|s.writes|));
    StartlessIsQuiet(u, more);
    NotKept(u, more);
  }

  lemma CommandReused(s: State, tid: Tid, i: nat) returns (more: seq<Step>)
    requires CoreInv(s) && Enabled(s, Start(tid)) && i < |s.commands| && s.commands[i].tid == tid
    ensures RunsQuietly(After(s, Start(tid)), more) && !KeepsOwn(After(s, Start(tid)), more)
  {
    hide FirstWith, CoreInv, KeepsOwn, OwnAnswers;
    var n, u := |s.workers|, After(s, Start(tid));
    EntererFound(s, tid);
    var v := After(u, Enter(n));
    var h := Handle(i, "x");
    CommandAnswered(s, tid, i);
    var x := After(v, h);
    AckMisdelivered(x, n, |s.acks|);
    var first, second := [Enter(n), h], [Look(|s.acks|), Put(|s.writes|)];
    TwoSteps(u, Enter(n), h);
    TwoSteps(x, Look(|s.acks|), Put(|s.writes|));
    RunsThrough(u, first, second);
    more := first + second;
    StartlessIsQuiet(u, more);
    NotKept(u, more);
  }

  lemma NotKept(s: State, steps: seq<Step>)
    requires Runs(s, steps) && !OwnAnswers(Final(s, steps))
    ensures !KeepsOwn(s, steps)
  {
  }

  lemma CommandAnswered(s: State, tid: Tid, i: nat)
    requires CoreInv(s) && Enabled(s, Start(tid)) && i < |s.commands| && s.commands[i].tid == tid
    ensures var n := |s.workers|;
            var u := After(s, Start(tid));
            Enabled(u, Enter(n)) && var v := After(u, Enter(n));
            Enabled(v, Handle(i, "x")) && var x := After(v, Handle(i, "x"));
            |x.acks| == |s.acks| + 1 && x.acks[|s.acks|].tid == tid && x.acks[|s.acks|].text == "x"
            && x.registry == v.registry && x.writes == s.writes && n !in x.answers
            && n + 1 == |x.workers| && x.workers[n].tid == tid
  {
    EntererFound(s, tid);
    assert s.commands[i] in s.commands && Rooted(s, s.commands[i]);
  }

  /** A thread id may be taken again exactly when no command in flight carries it, no acknowledgement with a
      text, and no text that has been looked up and not been written: then, and only then, every further run
      that keeps to the same rule leaves each worker with nothing or with the answer to its own command. */
  lemma ReuseIsExact(steps: seq<Step>, tid: Tid)
    requires RunsQuietly(INITIAL, steps)
    ensures Runs(INITIAL, steps)
    ensures var s := Final(INITIAL, steps);
            Enabled(s, Start(tid)) ==>
              (Quiet(s, Start(tid)) <==>
               forall more :: RunsQuietly(After(s, Start(tid)), more) ==> KeepsOwn(After(s, Start(tid)), more))
  {
    hide Runs, RunsQuietly, Enabled, After, KeepsOwn;
    QuietRun(INITIAL, steps);
    var s := Final(INITIAL, steps);
    if Enabled(s, Start(tid)) {
      if Quiet(s, Start(tid)) {
        QuietStep(s, Start(tid));
        forall more | RunsQuietly(After(s, Start(tid)), more) ensures KeepsOwn(After(s, Start(tid)), more) {
          KeptByInv(After(s, Start(tid)), more);
        }
      } else if m :| m in s.commands && m.tid == tid {
        var i :| 0 <= i < |s.commands| && s.commands[i] == m;
        var more := CommandReused(s, tid, i);
      } else if m :| m in s.acks && m.tid == tid && m.text != "" {
        var i :| 0 <= i < |s.acks| && s.acks[i] == m;
        var more := AckReused(s, tid, i);
      } else {
        var i :| 0 <= i < |s.writes| && s.writes[i].tid == tid && s.writes[i].text != "";
        var more := WriteReused(s, tid, i);
      }
    }
  }

  lemma KeptByInv(s: State, more: seq<Step>)
    requires Inv(s) && RunsQuietly(s, more)
    ensures KeepsOwn(s, more)
  {
    QuietRun(s, more);
  }

  /** A worker that starts, registers and has sent its command. */
  lemma {:induction false} WorkerWaits(s: State, tid: Tid)
    requires Enabled(s, Start(tid))
    ensures var n := |s.workers|;
            Runs(s, [Start(tid), Enter(n), Send(n, "")])
            && Final(s, [Start(tid), Enter(n), Send(n, "")])
            == State(s.workers + [Worker(tid, Waiting, "")], s.registry + [Request(tid, n)],
                     s.commands + [Message(n, tid, "")], s.acks, s.writes, s.answers)
  {
    var n := |s.workers|;
    var t := After(s, Start(tid));
    var u := After(t, Enter(n));
    TwoSteps(s, Start(tid), Enter(n));
    assert u.workers == s.workers + [Worker(tid, Registered, "")];
    OneStep(u, Send(n, ""));
    RunsThrough(s, [Start(tid), Enter(n)], [Send(n, "")]);
    assert [Start(tid), Enter(n)] + [Send(n, "")] == [Start(tid), Enter(n), Send(n, "")];
  }

  /** With reuse of an id in flight the wrong worker is answered: a first worker times out, a second one
      gets its thread id, and the late answer to the first lands in the buffer of the second. */
  lemma ReuseMisdelivers(tid: Tid, text: string)
    requires text != ""
    ensures var steps := [Start(tid), Enter(0), Send(0, "")] + [Leave(0)] + [Start(tid), Enter(1), Send(1, "")]
                         + [Handle(0, text), Look(0), Put(0)];
            Runs(INITIAL, steps) && |Final(INITIAL, steps).workers| == 2
            && Final(INITIAL, steps).workers[1].buffer == text && 1 !in Final(INITIAL, steps).answers
  {
    var first, second := [Start(tid), Enter(0), Send(0, "")], [Start(tid), Enter(1), Send(1, "")];
    WorkerWaits(INITIAL, tid);
    var s3 := Final(INITIAL, first);
    var s4 := LeaveAlone(s3, tid);
    OneStep(s3, Leave(0));
    RunsThrough(INITIAL, first, [Leave(0)]);
    WorkerWaits(s4, tid);
    RunsThrough(INITIAL, first + [Leave(0)], second);
    var s7 := Final(s4, second);
    WrongAnswer(s7, tid, text);
    RunsThrough(INITIAL, first + [Leave(0)] + second, [Handle(0, text), Look(0), Put(0)]);
  }

  lemma LeaveAlone(s: State, tid: Tid) returns (t: State)
    requires s == State([Worker(tid, Waiting, "")], [Request(tid, 0)], [Message(0, tid, "")], [], [], map[])
    ensures Enabled(s, Leave(0)) && t == After(s, Leave(0)) && Enabled(t, Start(tid))
    ensures t == State([Worker(tid, Stage.Left, "")], [], [Message(0, tid, "")], [], [], map[])
  {
    t := After(s, Leave(0));
    assert s.registry[1..] == [] && Without([], Request(tid, 0)) == [];
  }

  lemma WrongAnswer(s: State, tid: Tid, text: string)
    requires s.workers == [Worker(tid, Stage.Left, ""), Worker(tid, Waiting, "")] && s.registry == [Request(tid, 1)]
    requires s.commands == [Message(0, tid, ""), Message(1, tid, "")] && s.acks == []
    requires s.writes == [] && s.answers == map[]
    ensures Runs(s, [Handle(0, text), Look(0), Put(0)])
    ensures var t := Final(s, [Handle(0, text), Look(0), Put(0)]);
            |t.workers| == 2 && t.workers[1].buffer == text && 1 !in t.answers
  {
    var u := After(s, Handle(0, text));
    assert u.acks == [Message(0, tid, text)] && u.answers == map[0 := text];
    var v := LookedUp(u, tid, text);
    ThreeSteps(s, Handle(0, text), Look(0), Put(0));
  }

  lemma LookedUp(u: State, tid: Tid, text: string) returns (v: State)
    requires u.workers == [Worker(tid, Stage.Left, ""), Worker(tid, Waiting, "")] && u.registry == [Request(tid, 1)]
    requires u.acks == [Message(0, tid, text)] && u.writes == [] && 1 !in u.answers
    ensures Enabled(u, Look(0)) && v == After(u, Look(0)) && Enabled(v, Put(0))
    ensures var t := After(v, Put(0)); |t.workers| == 2 && t.workers[1].buffer == text && 1 !in t.answers
  {
    v := After(u, Look(0));
    assert v.writes == [Write(tid, text)];
    LastIs(v.workers, tid, 1);
  }

  /** The same without anything in flight: the answer to a first worker has been looked up, the worker leaves, a
      second one gets its thread id and enters, and only then the answer is written. */
  lemma PendingWriteMisdelivers(tid: Tid, text: string)
    requires text != ""
    ensures var before := [Start(tid), Enter(0), Send(0, "")] + [Handle(0, text), Look(0), Leave(0)];
            var behind := [Start(tid), Enter(1), Put(0)];
            Runs(INITIAL, before) && Final(INITIAL, before).commands == [] && Final(INITIAL, before).acks == []
            && Runs(INITIAL, before + behind) && |Final(INITIAL, before + behind).workers| == 2
            && Final(INITIAL, before + behind).workers[1] == Worker(tid, Registered, text)
            && 1 !in Final(INITIAL, before + behind).answers
  {
    var first, second := [Start(tid), Enter(0), Send(0, "")], [Handle(0, text), Look(0), Leave(0)];
    WorkerWaits(INITIAL, tid);
    var s3 := Final(INITIAL, first);
    var s6 := AnswerPending(s3, tid, text);
    RunsThrough(INITIAL, first, second);
    PendingWritten(s6, tid, text);
    RunsThrough(INITIAL, first + second, [Start(tid), Enter(1), Put(0)]);
  }

  lemma AnswerPending(s: State, tid: Tid, text: string) returns (t: State)
    requires s == State([Worker(tid, Waiting, "")], [Request(tid, 0)], [Message(0, tid, "")], [], [], map[])
    ensures Runs(s, [Handle(0, text), Look(0), Leave(0)]) && t == Final(s, [Handle(0, text), Look(0), Leave(0)])
    ensures t == State([Worker(tid, Stage.Left, "")], [], [], [], [Write(tid, text)], map[0 := text])
  {
    var u := After(s, Handle(0, text));
    assert u.acks == [Message(0, tid, text)] && u.commands == [] && u.answers == map[0 := text];
    var v := After(u, Look(0));
    assert v.writes == [Write(tid, text)] && v.acks == [];
    assert v.registry[1..] == [] && Without([], Request(tid, 0)) == [];
    ThreeSteps(s, Handle(0, text), Look(0), Leave(0));
    t := After(v, Leave(0));
  }

  lemma PendingWritten(s: State, tid: Tid, text: string)
    requires s == State([Worker(tid, Stage.Left, "")], [], [], [], [Write(tid, text)], map[0 := text])
    ensures Runs(s, [Start(tid), Enter(1), Put(0)])
    ensures var t := Final(s, [Start(tid), Enter(1), Put(0)]);
            |t.workers| == 2 && t.workers[1] == Worker(tid, Registered, text) && 1 !in t.answers
  {
    ThreeSteps(s, Start(tid), Enter(1), Put(0));
    LastIs(After(After(s, Start(tid)), Enter(1)).workers, tid, 1);
  }
}
