/**
 The room as a state machine: any number of threads push messages, players enter and leave, sessions
 come to an end, and one consumer takes the queue, executes its jobs, takes a snapshot and sends.  What
 happens under the room's lock is one step.
 */
module RoomModel {
  import opened Framing

  type Message = seq<Byte>

  /** Where the consumer's loop is. */
  datatype Pc =
    | Waiting
    | Executing(local: seq<Message>)
    | Sending(batch: seq<Message>, left: set<nat>)

  /**
   `queue`, `pending` and `players` are the room's fields, and `expired` are the players whose session
   is gone.  The rest is a log: what was pushed, what was taken out for sending, and what each player
   was sent; who ever entered, who did so again, how much had been pushed when a player entered and
   how much taken out before the first snapshot with it.
   */
  datatype State = State(queue: seq<Message>, pending: seq<Message>, players: set<nat>, expired: set<nat>, pc: Pc,
                         pushed: seq<Message>, flushed: seq<Message>, sent: map<nat, seq<Message>>,
                         entered: set<nat>, again: set<nat>, joined: map<nat, nat>, start: map<nat, nat>)

  const START := State([], [], {}, {}, Waiting, [], [], map[], {}, {}, map[], map[])

  datatype Action =
    | Push(message: Message)
    | Enter(player: nat)
    | Exit(player: nat)
    | Expire(player: nat)
    | SwapQueue
    | ExecuteOne
    | Snapshot
    | SendTo(player: nat)
    | EndRound

  function SentIn(sent: map<nat, seq<Message>>, p: nat): seq<Message> { if p in sent then sent[p] else [] }

  function SentTo(s: State, p: nat): seq<Message> { SentIn(s.sent, p) }

  function Local(pc: Pc): seq<Message> { if pc.Executing? then pc.local else [] }

  predicate Due(s: State, p: nat) { s.pc.Sending? && p in s.pc.left }

  predicate Enabled(s: State, act: Action) {
    match act
    case Push(_) => true
    case Enter(_) => true
    case Exit(_) => true
    case Expire(_) => true
    case SwapQueue => s.pc.Waiting? && s.queue != []
    case ExecuteOne => s.pc.Executing? && s.pc.local != []
    case Snapshot => s.pc.Executing? && s.pc.local == []
    case SendTo(p) => Due(s, p)
    case EndRound => s.pc.Sending? && s.pc.left == {}
  }

  function Started(s: State): map<nat, nat> {
    map p | p in s.start.Keys + s.players :: if p in s.start then s.start[p] else |s.flushed|
  }

  function Next(s: State, act: Action): State
    requires Enabled(s, act)
  {
    match act
    case Push(m) => s.(queue := s.queue + [m], pushed := s.pushed + [m])
    case Enter(p) =>
      s.(players := s.players + {p}, entered := s.entered + {p},
         again := if p in s.entered then s.again + {p} else s.again,
         joined := if p in s.entered then s.joined else s.joined[p := |s.pushed|])
    case Exit(p) => s.(players := s.players - {p})
    case Expire(p) => s.(expired := s.expired + {p})
    case SwapQueue => s.(pc := Executing(s.queue), queue := [])
    case ExecuteOne => s.(pc := Executing(s.pc.local[1..]), pending := s.pending + [s.pc.local[0]])
    case Snapshot =>
      s.(pc := Sending(s.pending, s.players), pending := [], flushed := s.flushed + s.pending, start := Started(s))
    case SendTo(p) =>
      s.(pc := Sending(s.pc.batch, s.pc.left - {p}),
         sent := if p in s.expired then s.sent else s.sent[p := SentTo(s, p) + s.pc.batch])
    case EndRound => s.(pc := Waiting)
  }

  // ----- The invariant --------------------------------------------------------------------------

  /** Every message pushed is in one place, and the places are in the order of pushing. */
  ghost predicate Conserved(s: State) {
    && s.pushed == s.flushed + (s.pending + (Local(s.pc) + s.queue))
    && (!s.pc.Executing? ==> s.pending == [])
    && (s.pc.Sending? ==> |s.pc.batch| <= |s.flushed| && s.flushed[|s.flushed| - |s.pc.batch|..] == s.pc.batch)
  }

  /** A player that no snapshot has had yet. */
  ghost predicate NotStarted(s: State, p: nat) {
    && SentTo(s, p) == [] && !Due(s, p)
    && (p in s.players ==> p in s.joined && |s.flushed| <= s.joined[p])
  }

  /** What a player was sent is a piece of what was taken out, and reaches to its end while the player
      is in the room with a session, but for the batch that is due. */
  ghost predicate InStep(s: State, p: nat)
    requires p in s.start
  {
    var from, upto := s.start[p], s.start[p] + |SentTo(s, p)|;
    && upto <= |s.flushed| && SentTo(s, p) == s.flushed[from..upto]
    && p in s.joined && from <= s.joined[p]
    && (p !in s.expired && Due(s, p) ==> upto == |s.flushed| - |s.pc.batch|)
    && (p !in s.expired && p in s.players && !Due(s, p) ==> upto == |s.flushed|)
  }

  ghost predicate PlayerOk(s: State, p: nat) {
    && (p !in s.entered ==> p !in s.players && p !in s.start)
    && (p !in s.again ==> if p in s.start then InStep(s, p) else NotStarted(s, p))
  }

  ghost predicate Inv(s: State) {
    Conserved(s) && forall p: nat :: PlayerOk(s, p)
  }

  // ----- Steps keep it --------------------------------------------------------------------------

  lemma AppendLast(flushed: seq<Message>, pending: seq<Message>, local: seq<Message>, queue: seq<Message>,
                   m: seq<Message>)
    ensures flushed + (pending + (local + queue)) + m == flushed + (pending + (local + (queue + m)))
  {
    assert local + queue + m == local + (queue + m);
    assert pending + (local + queue) + m == pending + (local + queue + m);
    assert flushed + (pending + (local + queue)) + m == flushed + (pending + (local + queue) + m);
  }

  lemma MoveOne(pending: seq<Message>, local: seq<Message>, queue: seq<Message>)
    requires local != []
    ensures pending + (local + queue) == (pending + [local[0]]) + (local[1..] + queue)
  {
    assert local == [local[0]] + local[1..];
    assert local + queue == [local[0]] + (local[1..] + queue);
  }

  lemma TakeOut(flushed: seq<Message>, pending: seq<Message>, rest: seq<Message>)
    ensures flushed + (pending + rest) == (flushed + pending) + ([] + rest)
    ensures (flushed + pending)[|flushed + pending| - |pending|..] == pending
  {
    assert [] + rest == rest;
  }

  lemma StepConserves(s: State, act: Action)
    requires Conserved(s) && Enabled(s, act)
    ensures Conserved(Next(s, act))
  {
    match act
    case Push(m) => AppendLast(s.flushed, s.pending, Local(s.pc), s.queue, [m]);
    case SwapQueue => assert [] + s.queue == s.queue + [];
    case ExecuteOne => MoveOne(s.pending, s.pc.local, s.queue);
    case Snapshot => TakeOut(s.flushed, s.pending, [] + s.queue);
    case _ =>
  }

  lemma SnapshotKeepsPlayer(s: State, p: nat)
    requires Conserved(s) && Enabled(s, Snapshot) && PlayerOk(s, p)
    ensures PlayerOk(Next(s, Snapshot), p)
  {
    var s' := Next(s, Snapshot);
    if p !in s.again && p in s.start {
      var from, upto := s.start[p], s.start[p] + |SentTo(s, p)|;
      assert s'.flushed[from..upto] == s.flushed[from..upto];
    }
  }

  lemma ExtendPiece(flushed: seq<Message>, from: nat, upto: nat, batch: seq<Message>)
    requires from <= upto && upto + |batch| == |flushed| && flushed[upto..] == batch
    ensures flushed[from..upto + |batch|] == flushed[from..upto] + batch
  {
  }

  lemma SendKeepsPlayer(s: State, q: nat, p: nat)
    requires Conserved(s) && Enabled(s, SendTo(q)) && PlayerOk(s, p)
    ensures PlayerOk(Next(s, SendTo(q)), p)
  {
    if p == q && p !in s.again && p !in s.expired {
      assert InStep(s, p);
      ExtendPiece(s.flushed, s.start[p], s.start[p] + |SentTo(s, p)|, s.pc.batch);
    }
  }

  lemma OtherStepKeepsPlayer(s: State, act: Action, p: nat)
    requires Enabled(s, act) && PlayerOk(s, p) && !act.Snapshot? && !act.SendTo?
    requires |s.flushed| <= |s.pushed|
    ensures PlayerOk(Next(s, act), p)
  {
  }

  lemma StepKeepsPlayer(s: State, act: Action, p: nat)
    requires Conserved(s) && Enabled(s, act) && PlayerOk(s, p)
    ensures PlayerOk(Next(s, act), p)
  {
    match act
    case Snapshot => SnapshotKeepsPlayer(s, p);
    case SendTo(q) => SendKeepsPlayer(s, q, p);
    case _ => OtherStepKeepsPlayer(s, act, p);
  }

  lemma StepKeepsInv(s: State, act: Action)
    requires Inv(s) && Enabled(s, act)
    ensures Inv(Next(s, act))
  {
    StepConserves(s, act);
    forall p: nat ensures PlayerOk(Next(s, act), p) {
      StepKeepsPlayer(s, act, p);
    }
  }

  lemma QuietIsFlushed(s: State)
    requires Conserved(s)
    ensures s.pc.Waiting? ==> s.pending == []
    ensures s.pc.Waiting? && s.queue == [] ==> s.flushed == s.pushed
  {
    assert s.pc.Waiting? && s.queue == [] ==> s.pending + (Local(s.pc) + s.queue) == [];
  }

  /** The state after a run, if every step of it was possible. */
  ghost predicate IsRun(states: seq<State>, acts: seq<Action>) {
    && |states| == |acts| + 1 && states[0] == START
    && forall i | 0 <= i < |acts| :: StepAt(states, acts, i)
  }

  ghost predicate StepAt(states: seq<State>, acts: seq<Action>, i: nat)
    requires |states| == |acts| + 1 && i < |acts|
  {
    Enabled(states[i], acts[i]) && states[i + 1] == Next(states[i], acts[i])
  }

  lemma {:induction false} RunKeepsInv(states: seq<State>, acts: seq<Action>, i: nat)
    requires IsRun(states, acts) && i < |states|
    ensures Inv(states[i])
  {
    if i > 0 {
      RunKeepsInv(states, acts, i - 1);
      assert StepAt(states, acts, i - 1);
      StepKeepsInv(states[i - 1], acts[i - 1]);
    }
  }

  // ----- What every run promises ----------------------------------------------------------------

  /** Nothing is lost, doubled or reordered, and what was taken out for sending comes first. */
  lemma FlushedIsPrefix(states: seq<State>, acts: seq<Action>, i: nat)
    requires IsRun(states, acts) && i < |states|
    ensures var s := states[i];
            && s.flushed <= s.pushed
            && s.pushed[|s.flushed|..] == s.pending + (Local(s.pc) + s.queue)
            && (s.pc.Waiting? ==> s.pushed == s.flushed + s.queue)
  {
    RunKeepsInv(states, acts, i);
    var s := states[i];
    assert s.pc.Waiting? ==> s.pending + (Local(s.pc) + s.queue) == s.queue;
  }

  /** The pushes of a run, in order. */
  function Pushes(acts: seq<Action>): seq<Message> {
    if |acts| == 0 then []
    else Pushes(acts[..|acts| - 1]) + if acts[|acts| - 1].Push? then [acts[|acts| - 1].message] else []
  }

  lemma {:induction false} PushedInOrder(states: seq<State>, acts: seq<Action>, i: nat)
    requires IsRun(states, acts) && i < |states|
    ensures states[i].pushed == Pushes(acts[..i])
  {
    if i > 0 {
      PushedInOrder(states, acts, i - 1);
      assert StepAt(states, acts, i - 1);
      assert acts[..i][..i - 1] == acts[..i - 1];
    }
  }

  /** A player that enters once is sent a contiguous piece of what was pushed, in the order of pushing,
      and the piece starts no later than what was pushed after the player entered. */
  lemma PlayersGetSegments(states: seq<State>, acts: seq<Action>, i: nat, p: nat)
    requires IsRun(states, acts) && i < |states| && p !in states[i].again && SentTo(states[i], p) != []
    ensures var s := states[i];
            && p in s.start && p in s.joined && s.start[p] <= s.joined[p]
            && s.start[p] + |SentTo(s, p)| <= |s.flushed| <= |s.pushed|
            && SentTo(s, p) == s.pushed[s.start[p]..s.start[p] + |SentTo(s, p)|]
  {
    RunKeepsInv(states, acts, i);
    FlushedIsPrefix(states, acts, i);
    var s := states[i];
    assert PlayerOk(s, p);
  }

  /** Two players see what they both see at the same place in the order of pushing. */
  lemma PlayersAgree(states: seq<State>, acts: seq<Action>, i: nat, p: nat, q: nat, k: nat)
    requires IsRun(states, acts) && i < |states|
    requires p !in states[i].again && SentTo(states[i], p) != [] && q !in states[i].again && SentTo(states[i], q) != []
    ensures var s := states[i];
            && p in s.start && q in s.start
            && (s.start[p] <= k < s.start[p] + |SentTo(s, p)| && s.start[q] <= k < s.start[q] + |SentTo(s, q)| ==>
                k < |s.pushed| && SentTo(s, p)[k - s.start[p]] == SentTo(s, q)[k - s.start[q]] == s.pushed[k])
  {
    PlayersGetSegments(states, acts, i, p);
    PlayersGetSegments(states, acts, i, q);
  }

  /** When the consumer waits, a player in the room with a session, that entered once, has been sent
      everything taken out since it entered; and when the queue is empty too, everything pushed since. */
  lemma InRoomIsServed(states: seq<State>, acts: seq<Action>, i: nat, p: nat)
    requires IsRun(states, acts) && i < |states| && states[i].pc.Waiting?
    requires var s := states[i]; p in s.players && p !in s.expired && p !in s.again
    ensures var s := states[i];
            && p in s.joined
            && (s.joined[p] < |s.flushed| ==>
                && p in s.start && s.start[p] <= s.joined[p]
                && SentTo(s, p) == s.flushed[s.start[p]..])
            && (s.queue == [] ==> s.flushed == s.pushed)
  {
    RunKeepsInv(states, acts, i);
    FlushedIsPrefix(states, acts, i);
    assert PlayerOk(states[i], p);
  }

  // ----- Entering and leaving, by what was done ----------------------------------------------------

  /** As far as the player has been sent what was taken out: all of it but the batch that is due. */
  function Reached(s: State, p: nat): int {
    if Due(s, p) then |s.flushed| - |s.pc.batch| else |s.flushed|
  }

  /** What was taken out from place `since` as far as that is the end of what the player was sent. */
  ghost predicate Served(s: State, p: nat, since: nat) {
    var n := Reached(s, p) - since;
    0 <= n <= |s.flushed| - since ==>
      n <= |SentTo(s, p)| && SentTo(s, p)[|SentTo(s, p)| - n..] == s.flushed[since..since + n]
  }

  lemma ExtendTail(sent: seq<Message>, flushed: seq<Message>, batch: seq<Message>, since: nat)
    requires |batch| <= |flushed| && flushed[|flushed| - |batch|..] == batch && since <= |flushed|
    requires var n := |flushed| - |batch| - since;
             n >= 0 ==> n <= |sent| && sent[|sent| - n..] == flushed[since..since + n]
    ensures var n, sent' := |flushed| - since, sent + batch; n <= |sent'| && sent'[|sent'| - n..] == flushed[since..]
  {
    var n := |flushed| - |batch| - since;
    if n >= 0 {
      assert flushed[since..] == flushed[since..since + n] + batch;
      assert (sent + batch)[|sent| - n..] == sent[|sent| - n..] + batch;
    } else {
      assert flushed[since..] == batch[-n..];
      assert (sent + batch)[|sent| - n..] == batch[-n..];
    }
  }

  lemma SendServes(s: State, q: nat, p: nat, since: nat)
    requires Conserved(s) && Enabled(s, SendTo(q)) && Served(s, p, since) && p !in s.expired
    ensures Served(Next(s, SendTo(q)), p, since)
  {
    if p == q && since <= |s.flushed| {
      ExtendTail(SentTo(s, p), s.flushed, s.pc.batch, since);
      assert s.flushed[since..|s.flushed|] == s.flushed[since..];
    }
  }

  lemma SnapshotServes(s: State, p: nat, since: nat)
    requires Enabled(s, Snapshot) && Served(s, p, since) && p in s.players
    ensures Served(Next(s, Snapshot), p, since)
  {
    var n := |s.flushed| - since;
    if n >= 0 {
      assert (s.flushed + s.pending)[since..since + n] == s.flushed[since..since + n];
    }
  }

  lemma StepServes(s: State, act: Action, p: nat, since: nat)
    requires Conserved(s) && Enabled(s, act) && Served(s, p, since)
    requires p in s.players && p !in s.expired && act != Exit(p) && act != Expire(p)
    ensures Served(Next(s, act), p, since)
  {
    match act
    case SendTo(q) => SendServes(s, q, p, since);
    case Snapshot => SnapshotServes(s, p, since);
    case _ => SameServed(s, Next(s, act), p, since);
  }

  lemma SameServed(s: State, s': State, p: nat, since: nat)
    requires Served(s, p, since) && SentTo(s', p) == SentTo(s, p) && s'.flushed == s.flushed
    requires Reached(s', p) == Reached(s, p)
    ensures Served(s', p, since)
  {
  }

  lemma {:induction false} NotExpired(states: seq<State>, acts: seq<Action>, k: nat, p: nat)
    requires IsRun(states, acts) && k < |states| && forall m | 0 <= m < k :: acts[m] != Expire(p)
    ensures p !in states[k].expired
  {
    if k > 0 {
      NotExpired(states, acts, k - 1, p);
      assert StepAt(states, acts, k - 1) && acts[k - 1] != Expire(p);
    }
  }

  lemma {:induction false} StaysServed(states: seq<State>, acts: seq<Action>, k: nat, i: nat, p: nat)
    requires IsRun(states, acts) && k < i < |states| && acts[k] == Enter(p)
    requires forall m | k < m < i :: acts[m] != Exit(p)
    requires forall m | 0 <= m < i :: acts[m] != Expire(p)
    ensures Served(states[i], p, |states[k].pushed|) && p in states[i].players && p !in states[i].expired
    decreases i
  {
    assert StepAt(states, acts, i - 1);
    RunKeepsInv(states, acts, i - 1);
    if i - 1 == k {
      NotExpired(states, acts, k, p);
    } else {
      StaysServed(states, acts, k, i - 1, p);
      assert acts[i - 1] != Exit(p) && acts[i - 1] != Expire(p);
      StepServes(states[i - 1], acts[i - 1], p, |states[k].pushed|);
      assert p in Next(states[i - 1], acts[i - 1]).players;
    }
  }

  /** A player that enters, for the first time or again, and neither leaves nor loses its session, has
      been sent everything pushed since and taken out, at the end of what it was sent, whenever the
      consumer waits; with an empty queue, everything pushed since. */
  lemma NothingIsMissed(states: seq<State>, acts: seq<Action>, k: nat, i: nat, p: nat)
    requires IsRun(states, acts) && k < i < |states| && acts[k] == Enter(p) && states[i].pc.Waiting?
    requires forall m | k < m < i :: acts[m] != Exit(p)
    requires forall m | 0 <= m < i :: acts[m] != Expire(p)
    ensures var s, since := states[i], |states[k].pushed|;
            && s.flushed <= s.pushed
            && (since <= |s.flushed| ==>
                var n := |s.flushed| - since;
                && n <= |SentTo(s, p)| && SentTo(s, p)[|SentTo(s, p)| - n..] == s.pushed[since..|s.flushed|])
            && (s.queue == [] ==> s.flushed == s.pushed)
  {
    StaysServed(states, acts, k, i, p);
    FlushedIsPrefix(states, acts, i);
    var s, since := states[i], |states[k].pushed|;
    assert since <= |s.flushed| ==> s.pushed[since..|s.flushed|] == s.flushed[since..|s.flushed|];
  }

  /** Outside the room, and not in the snapshot being served. */
  predicate Out(s: State, p: nat) { p !in s.players && !Due(s, p) }

  lemma {:induction false} StaysOut(states: seq<State>, acts: seq<Action>, k: nat, j: nat, p: nat)
    requires IsRun(states, acts) && k <= j < |states| && Out(states[k], p)
    requires forall m | k <= m < j :: acts[m] != Enter(p)
    ensures Out(states[j], p) && SentTo(states[j], p) == SentTo(states[k], p)
    decreases j
  {
    if k < j {
      StaysOut(states, acts, k, j - 1, p);
      assert StepAt(states, acts, j - 1) && acts[j - 1] != Enter(p);
    }
  }

  /** A player that leaves, and is not in a snapshot being served, is sent nothing more until it enters
      again. */
  lemma LeavingEndsSending(states: seq<State>, acts: seq<Action>, k: nat, j: nat, p: nat)
    requires IsRun(states, acts) && k < j < |states| && acts[k] == Exit(p) && !Due(states[k], p)
    requires forall m | k < m < j :: acts[m] != Enter(p)
    ensures SentTo(states[j], p) == SentTo(states[k], p)
  {
    assert StepAt(states, acts, k);
    StaysOut(states, acts, k + 1, j, p);
  }

  lemma {:induction false} DueOrOut(states: seq<State>, acts: seq<Action>, k: nat, j: nat, p: nat)
    requires IsRun(states, acts) && k <= j < |states| && Due(states[k], p) && p !in states[k].players
    requires forall m | k <= m < j :: acts[m] != Enter(p)
    ensures p !in states[j].players
    ensures if Due(states[j], p)
            then SentTo(states[j], p) == SentTo(states[k], p) && states[j].pc.batch == states[k].pc.batch
            else (|| SentTo(states[j], p) == SentTo(states[k], p)
                  || SentTo(states[j], p) == SentTo(states[k], p) + states[k].pc.batch)
    decreases j
  {
    if k < j {
      DueOrOut(states, acts, k, j - 1, p);
      assert StepAt(states, acts, j - 1) && acts[j - 1] != Enter(p);
    }
  }

  /** One that leaves while a snapshot with it is being served may still be sent that batch, and no more. */
  lemma LeavingLate(states: seq<State>, acts: seq<Action>, k: nat, j: nat, p: nat)
    requires IsRun(states, acts) && k < j < |states| && acts[k] == Exit(p) && Due(states[k], p)
    requires forall m | k < m < j :: acts[m] != Enter(p)
    ensures SentTo(states[j], p) == SentTo(states[k], p)
         || SentTo(states[j], p) == SentTo(states[k], p) + states[k].pc.batch
  {
    assert StepAt(states, acts, k);
    DueOrOut(states, acts, k + 1, j, p);
  }

  lemma {:induction false} StaysExpired(states: seq<State>, acts: seq<Action>, k: nat, j: nat, p: nat)
    requires IsRun(states, acts) && k <= j < |states| && p in states[k].expired
    ensures p in states[j].expired && SentTo(states[j], p) == SentTo(states[k], p)
    decreases j
  {
    if k < j {
      StaysExpired(states, acts, k, j - 1, p);
      assert StepAt(states, acts, j - 1);
    }
  }

  /** A player whose session is gone is sent nothing more. */
  lemma ExpiryEndsSending(states: seq<State>, acts: seq<Action>, k: nat, j: nat, p: nat)
    requires IsRun(states, acts) && k < j < |states| && acts[k] == Expire(p)
    ensures SentTo(states[j], p) == SentTo(states[k], p)
  {
    assert StepAt(states, acts, k);
    StaysExpired(states, acts, k + 1, j, p);
  }
}
