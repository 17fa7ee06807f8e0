/**
 The room's own methods, as the steps of RoomModel, and one round of the consumer's loop when nobody
 comes between its steps.
 */
module Rooms {
  import opened RoomModel

  /** What p has been sent once the batch has gone to `done`. */
  function SentAfter(was: map<nat, seq<Message>>, batch: seq<Message>, done: set<nat>, p: nat): seq<Message> {
    if p in done then SentIn(was, p) + batch else SentIn(was, p)
  }

  lemma OneMoreSent(was: map<nat, seq<Message>>, sent: map<nat, seq<Message>>, batch: seq<Message>, snapshot: set<nat>,
                    left: set<nat>, expired: set<nat>, p: nat)
    requires p in left && left <= snapshot
    requires forall q: nat :: SentIn(sent, q) == SentAfter(was, batch, snapshot - left - expired, q)
    ensures var sent' := if p in expired then sent else sent[p := SentIn(sent, p) + batch];
            forall q: nat :: SentIn(sent', q) == SentAfter(was, batch, snapshot - (left - {p}) - expired, q)
  {
    var sent' := if p in expired then sent else sent[p := SentIn(sent, p) + batch];
    forall q: nat ensures SentIn(sent', q) == SentAfter(was, batch, snapshot - (left - {p}) - expired, q) {
      assert SentIn(sent, q) == SentAfter(was, batch, snapshot - left - expired, q);
    }
  }

  lemma FrontMoves(pending: seq<Message>, local: seq<Message>)
    requires local != []
    ensures pending + local == (pending + [local[0]]) + local[1..]
  {
  }

  class Room {
    var etcQueue: seq<Message>
    var pendingMsg: seq<Message>
    var players: set<nat>
    /** The players whose session is gone, and what every other session was sent. */
    var expired: set<nat>
    var sent: map<nat, seq<Message>>
    ghost var pc: Pc
    ghost var pushed: seq<Message>
    ghost var flushed: seq<Message>
    ghost var entered: set<nat>
    ghost var again: set<nat>
    ghost var joined: map<nat, nat>
    ghost var start: map<nat, nat>

    ghost function State(): State
      reads this
    {
      RoomModel.State(etcQueue, pendingMsg, players, expired, pc, pushed, flushed, sent, entered, again, joined, start)
    }

    constructor ()
      ensures State() == START && Inv(State())
    {
      etcQueue, pendingMsg, players, expired, sent := [], [], {}, {}, map[];
      pc, pushed, flushed, entered, again, joined, start := Waiting, [], [], {}, {}, map[], map[];
    }

    /** PushETCJob of a job that broadcasts m. */
    method PushETCJob(m: Message)
      modifies this
      ensures State() == Next(old(State()), Push(m))
    {
      etcQueue := etcQueue + [m];
      pushed := pushed + [m];
    }

    method EnterObject(p: nat)
      modifies this
      ensures State() == Next(old(State()), Enter(p))
    {
      players := players + {p};
      if p in entered {
        again := again + {p};
      } else {
        joined := joined[p := |pushed|];
      }
      entered := entered + {p};
    }

    method ExitObject(p: nat)
      modifies this
      ensures State() == Next(old(State()), Exit(p))
    {
      players := players - {p};
    }

    method BroadcastSerialized(m: Message)
      modifies this`pendingMsg
      ensures pendingMsg == old(pendingMsg) + [m]
    {
      pendingMsg := pendingMsg + [m];
    }

    // ----- The sections of Flush ----------------------------------------------------------------

    method TakeQueue() returns (localQueue: seq<Message>)
      requires Enabled(State(), SwapQueue)
      modifies this`etcQueue, this`pc
      ensures State() == Next(old(State()), SwapQueue) && pc == Executing(localQueue)
    {
      localQueue := etcQueue;
      etcQueue := [];
      pc := Executing(localQueue);
    }

    /** Execute and pop the front job. */
    method ExecuteFront(localQueue: seq<Message>) returns (rest: seq<Message>)
      requires pc == Executing(localQueue) && localQueue != []
      modifies this`pendingMsg, this`pc
      ensures State() == Next(old(State()), ExecuteOne) && pc == Executing(rest)
    {
      BroadcastSerialized(localQueue[0]);
      rest := localQueue[1..];
      pc := Executing(rest);
    }

    method TakeSnapshot() returns (batch: seq<Message>, snapshot: set<nat>)
      requires Enabled(State(), Snapshot)
      modifies this`pendingMsg, this`pc, this`flushed, this`start
      ensures State() == Next(old(State()), Snapshot) && pc == Sending(batch, snapshot)
    {
      start := Started(State());
      batch, snapshot := pendingMsg, players;
      flushed := flushed + pendingMsg;
      pendingMsg := [];
      pc := Sending(batch, snapshot);
    }

    method SendBatch(p: nat, batch: seq<Message>)
      requires Enabled(State(), SendTo(p)) && pc.batch == batch
      modifies this`sent, this`pc
      ensures State() == Next(old(State()), SendTo(p))
      ensures sent == if p in expired then old(sent) else old(sent)[p := SentIn(old(sent), p) + batch]
    {
      if p !in expired {
        sent := sent[p := SentIn(sent, p) + batch];
      }
      pc := Sending(batch, pc.left - {p});
    }

    /** The jobs of the local queue, one after the other. */
    method ExecuteAll(localQueue: seq<Message>)
      requires Inv(State()) && pc == Executing(localQueue)
      modifies this`pendingMsg, this`pc
      ensures Inv(State()) && pc == Executing([])
      ensures pendingMsg == old(pendingMsg) + localQueue
    {
      var local := localQueue;
      while local != []
        invariant Inv(State()) && pc == Executing(local)
        invariant pendingMsg + local == old(pendingMsg) + localQueue
        decreases |local|
      {
        StepKeepsInv(State(), ExecuteOne);
        FrontMoves(pendingMsg, local);
        local := ExecuteFront(local);
      }
    }

    /** The batch to every session of the snapshot, in any order. */
    method SendAll(batch: seq<Message>, snapshot: set<nat>)
      requires Inv(State()) && pc == Sending(batch, snapshot)
      modifies this`sent, this`pc
      ensures Inv(State()) && pc == Sending(batch, {})
      ensures forall p: nat :: SentIn(sent, p) == SentAfter(old(sent), batch, snapshot - expired, p)
    {
      var left := snapshot;
      while left != {}
        invariant Inv(State()) && left <= snapshot && pc == Sending(batch, left)
        invariant forall p: nat :: SentIn(sent, p) == SentAfter(old(sent), batch, snapshot - left - expired, p)
        decreases left
      {
        var p: nat :| p in left;
        StepKeepsInv(State(), SendTo(p));
        OneMoreSent(old(sent), sent, batch, snapshot, left, expired, p);
        SendBatch(p, batch);
        left := left - {p};
      }
    }

    /** The first half of a round: the whole queue becomes pending messages. */
    method ExecuteQueue()
      requires Inv(State()) && pc == Waiting && etcQueue != []
      modifies this`etcQueue, this`pendingMsg, this`pc
      ensures Inv(State()) && pc == Executing([]) && etcQueue == [] && pendingMsg == old(etcQueue)
    {
      QuietIsFlushed(State());
      StepKeepsInv(State(), SwapQueue);
      var localQueue := TakeQueue();
      ExecuteAll(localQueue);
      assert [] + localQueue == localQueue;
    }

    /** One round of Flush: everything queued goes, in order, to every player with a session. */
    method FlushRound()
      requires Inv(State()) && pc == Waiting && etcQueue != []
      modifies this
      ensures Inv(State()) && pc == Waiting && etcQueue == []
      ensures players == old(players) && expired == old(expired) && pushed == old(pushed)
      ensures flushed == pushed
      ensures forall p: nat :: SentIn(sent, p) == SentAfter(old(sent), old(etcQueue), players - expired, p)
    {
      ExecuteQueue();
      StepKeepsInv(State(), Snapshot);
      var batch, snapshot := TakeSnapshot();
      SendAll(batch, snapshot);
      StepKeepsInv(State(), EndRound);
      pc := Waiting;
      QuietIsFlushed(State());
    }
  }
}
