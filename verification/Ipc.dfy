// Bounded mailboxes and request/reply with timeouts.
module Ipc {
  import opened Bytes
  import opened Resources
  import opened CapabilityModel
  import CR = CapabilityRuns
  import opened CapabilityTables

  const MAILBOX_CAPACITY: nat := 256

  type MessageId = nat

  datatype MessageType = Data | Request | Reply | CapTransfer | Signal

  datatype Message = Message(id: MessageId, sender: TaskId, recipient: TaskId, kind: MessageType, payload: seq<byte>,
                             transfer: Option<CapId>, replyTo: Option<MessageId>)

  datatype IpcError = RecipientNotFound | MailboxFull | CapabilityDenied | InvalidCapTransfer

  datatype Pending = Pending(requester: TaskId, deadline: nat)

  datatype SendResult = Sent(id: MessageId) | Refused(error: IpcError)

  // How a request ended.
  datatype Ending = Answered(reply: Message) | TimedOut

  type Boxes = map<TaskId, seq<Message>>

  // A mailbox holds what was accepted and not yet delivered, in order, and never more than 256.
  ghost predicate MailboxesOk(boxes: Boxes, accepted: Boxes, delivered: Boxes) {
    && accepted.Keys == boxes.Keys && delivered.Keys == boxes.Keys
    && forall t :: t in boxes ==> |boxes[t]| <= 256 && accepted[t] == delivered[t] + boxes[t]
  }

  lemma BoxChanges(boxes: Boxes, accepted: Boxes, delivered: Boxes, t: TaskId, b: seq<Message>, a: seq<Message>, d: seq<Message>)
    requires MailboxesOk(boxes, accepted, delivered) && |b| <= MAILBOX_CAPACITY && a == d + b
    ensures MailboxesOk(boxes[t := b], accepted[t := a], delivered[t := d])
    ensures MailboxesOk(boxes - {t}, accepted - {t}, delivered - {t})
  {
  }

  // `requester`, `ending` and `collected` are history: who made each request, how the finished ones
  // ended, and which replies were handed out.
  datatype Requests = Requests(pending: map<MessageId, Pending>, replies: map<MessageId, Message>,
                               requester: map<MessageId, TaskId>, ending: map<MessageId, Ending>,
                               collected: set<MessageId>)

  // m is the answer to request id, and is addressed to whoever made it.
  ghost predicate AnswerTo(q: Requests, id: MessageId, m: Message) {
    && id in q.ending && q.ending[id] == Answered(m) && id in q.requester
    && m.recipient == q.requester[id] && m.replyTo == Some(id) && m.kind == Reply
  }

  // Every request is pending or has ended, never both; a reply waits until it is collected.
  ghost predicate RequestOk(q: Requests, next: MessageId, id: MessageId) {
    && (id in q.requester ==> 1 <= id < next)
    && (id in q.requester <==> id in q.pending || id in q.ending)
    && (id in q.pending ==> id !in q.ending && id in q.requester && q.pending[id].requester == q.requester[id])
    && (id in q.replies ==> AnswerTo(q, id, q.replies[id]) && id !in q.collected)
    && (id in q.collected ==> id in q.ending && q.ending[id].Answered?)
    && (id in q.ending && q.ending[id].Answered? ==> id in q.replies || id in q.collected)
  }

  ghost predicate RequestsOk(q: Requests, next: MessageId) {
    forall id: MessageId :: RequestOk(q, next, id)
  }

  // The two agree about every request but one.
  ghost predicate DiffersAt(q: Requests, r: Requests, id: MessageId) {
    forall j: MessageId :: j != id ==>
      && (j in q.pending <==> j in r.pending) && (j in q.pending ==> q.pending[j] == r.pending[j])
      && (j in q.replies <==> j in r.replies) && (j in q.replies ==> q.replies[j] == r.replies[j])
      && (j in q.requester <==> j in r.requester) && (j in q.requester ==> q.requester[j] == r.requester[j])
      && (j in q.ending <==> j in r.ending) && (j in q.ending ==> q.ending[j] == r.ending[j])
      && (j in q.collected <==> j in r.collected)
  }

  lemma OneRequestChanges(q: Requests, r: Requests, id: MessageId, next: MessageId, later: MessageId)
    requires RequestsOk(q, next) && next <= later && DiffersAt(q, r, id) && RequestOk(r, later, id)
    ensures RequestsOk(r, later)
  {
    forall j: MessageId ensures RequestOk(r, later, j) { assert RequestOk(q, next, j); }
  }

  ////////////// Passing on capabilities //////////////

  // The table after the capability named in a message is delegated to the recipient, with all its
  // permissions.
  function Transferred(t: Table, sender: TaskId, recipient: TaskId, transfer: Option<CapId>): CapResult<Table> {
    if transfer.None? then Granted(t)
    else match Get(t, transfer.value)
      case Denied(e) => Denied(e)
      case Granted(cap) =>
        match Delegated(t, transfer.value, sender, recipient, cap.permissions, None)
        case Denied(e) => Denied(e)
        case Granted(copy) => Granted(Insert(t, copy))
  }

  // A capability can be passed on by its owner just when it is live and may be delegated; then the
  // recipient holds one on the same resource with the same permissions.
  lemma TransferOutcome(t: Table, sender: TaskId, recipient: TaskId, c: CapId)
    requires Inv(t)
    ensures Transferred(t, sender, recipient, Some(c)).Granted? <==>
      Alive(t, c) && t.caps[c].value.owner == sender && Contains(t.caps[c].value.permissions, DELEGATE)
    ensures var r := Transferred(t, sender, recipient, Some(c));
      r.Granted? ==>
        && Inv(r.value) && Validate(r.value, t.nextId, recipient, t.caps[c].value.permissions).Granted?
        && r.value.caps[t.nextId].value.resource == t.caps[c].value.resource
        && r.value.caps[t.nextId].value.parent == Some(c)
  {
    if Alive(t, c) {
      var cap := t.caps[c].value;
      AllContained(cap.permissions);
      var copy := Delegated(t, c, sender, recipient, cap.permissions, None);
      if copy.Granted? {
        CR.InsertSlots(t, copy.value);
        CR.StepInv(t, CR.DelegateOp(c, sender, recipient, cap.permissions, None));
      }
      hide Inv, Insert;
    }
  }

  lemma AllContained(p: PermissionBits)
    ensures Contains(p, p)
  {
  }

  class IpcKernel {
    const table: CapabilityTable
    var mailboxes: map<TaskId, seq<Message>>
    var nextMsgId: MessageId
    var pending: map<MessageId, Pending>
    var replies: map<MessageId, Message>

    // What each mailbox has accepted and handed out since it was registered.
    ghost var accepted: map<TaskId, seq<Message>>
    ghost var delivered: map<TaskId, seq<Message>>
    // Who made each request, how the finished ones ended, and which replies were collected.
    ghost var requester: map<MessageId, TaskId>
    ghost var ending: map<MessageId, Ending>
    ghost var collected: set<MessageId>

    constructor (table: CapabilityTable)
      requires table.Valid()
      ensures this.table == table && Valid() && mailboxes == map[] && requester == map[]
    {
      this.table := table;
      mailboxes, pending, replies, nextMsgId := map[], map[], map[], 1;
      accepted, delivered, requester, ending, collected := map[], map[], map[], map[], {};
    }

    ghost predicate Valid()
      reads this, table
    {
      && table.Valid()
      && nextMsgId >= 1
      && MailboxesOk(mailboxes, accepted, delivered)
      && RequestsOk(Requests(pending, replies, requester, ending, collected), nextMsgId)
    }

    method Register(t: TaskId)
      requires Valid()
      modifies this`mailboxes, this`accepted, this`delivered
      ensures Valid() && mailboxes == old(mailboxes)[t := []]
      ensures accepted == old(accepted)[t := []] && delivered == old(delivered)[t := []]
    {
      BoxChanges(mailboxes, accepted, delivered, t, [], [], []);
      hide Inv, MailboxesOk, RequestsOk;
      mailboxes := mailboxes[t := []];
      accepted, delivered := accepted[t := []], delivered[t := []];
    }

    method Unregister(t: TaskId)
      requires Valid()
      modifies this`mailboxes, this`accepted, this`delivered
      ensures Valid() && mailboxes == old(mailboxes) - {t}
      ensures accepted == old(accepted) - {t} && delivered == old(delivered) - {t}
    {
      BoxChanges(mailboxes, accepted, delivered, t, [], [], []);
      hide Inv, MailboxesOk, RequestsOk;
      mailboxes := mailboxes - {t};
      accepted, delivered := accepted - {t}, delivered - {t};
    }

    // A refused message still uses up an id once it got that far, and a capability it was to carry
    // stays with the recipient.
    method Send(sender: TaskId, recipient: TaskId, kind: MessageType, payload: seq<byte>, transfer: Option<CapId>,
                replyTo: Option<MessageId>, senderCap: CapId) returns (r: SendResult)
      requires Valid()
      modifies this`mailboxes, this`nextMsgId, this`accepted, table
      ensures Valid()
      ensures r == if Validate(old(table.Value()), senderCap, sender, 0x2).Denied? then Refused(CapabilityDenied)
                   else if Transferred(old(table.Value()), sender, recipient, transfer).Denied? then Refused(InvalidCapTransfer)
                   else if recipient !in old(mailboxes) then Refused(RecipientNotFound)
                   else if |old(mailboxes)[recipient]| >= 256 then Refused(MailboxFull)
                   else Sent(old(nextMsgId))
      ensures table.Value() == if r == Refused(CapabilityDenied) || r == Refused(InvalidCapTransfer) then old(table.Value())
                               else Transferred(old(table.Value()), sender, recipient, transfer).value
      ensures r != Refused(CapabilityDenied) && r != Refused(InvalidCapTransfer) && transfer.Some? ==>
        Validate(table.Value(), old(table.nextId), recipient, old(table.Value()).caps[transfer.value].value.permissions).Granted?
      ensures r.Sent? ==> recipient in old(accepted)
      ensures nextMsgId == old(nextMsgId) + if r == Refused(CapabilityDenied) || r == Refused(InvalidCapTransfer) then 0 else 1
      ensures accepted == if r.Sent?
                          then old(accepted)[recipient := old(accepted)[recipient] +
                                             [Message(old(nextMsgId), sender, recipient, kind, payload, transfer, replyTo)]]
                          else old(accepted)
    {
      hide Inv, MailboxesOk, RequestsOk, Validate, Transferred;
      var permitted := table.CheckedLookup(senderCap, sender, WRITE);
      if permitted.Denied? { return Refused(CapabilityDenied); }
      var passed := PassOn(sender, recipient, transfer);
      if !passed { return Refused(InvalidCapTransfer); }
      r := Post(sender, recipient, kind, payload, transfer, replyTo);
    }

    method PassOn(sender: TaskId, recipient: TaskId, transfer: Option<CapId>) returns (ok: bool)
      requires Valid()
      modifies table
      ensures Valid() && ok == Transferred(old(table.Value()), sender, recipient, transfer).Granted?
      ensures table.Value() == if ok then Transferred(old(table.Value()), sender, recipient, transfer).value else old(table.Value())
      ensures ok && transfer.Some? ==>
        && Exists(old(table.Value()), transfer.value)
        && Validate(table.Value(), old(table.nextId), recipient, old(table.Value()).caps[transfer.value].value.permissions).Granted?
    {
      if transfer.None? { return true; }
      TransferOutcome(table.Value(), sender, recipient, transfer.value);
      hide Inv, MailboxesOk, RequestsOk, Insert;
      var cap := table.Lookup(transfer.value);
      if cap.Denied? { return false; }
      var id := table.Delegate(transfer.value, sender, recipient, cap.value.permissions, None);
      ok := id.Granted?;
    }

    // Puts a message into the recipient's mailbox.
    method Post(sender: TaskId, recipient: TaskId, kind: MessageType, payload: seq<byte>, transfer: Option<CapId>,
                replyTo: Option<MessageId>) returns (r: SendResult)
      requires Valid()
      modifies this`mailboxes, this`nextMsgId, this`accepted
      ensures Valid() && nextMsgId == old(nextMsgId) + 1
      ensures r == if recipient !in old(mailboxes) then Refused(RecipientNotFound)
                   else if |old(mailboxes)[recipient]| >= 256 then Refused(MailboxFull)
                   else Sent(old(nextMsgId))
      ensures r.Sent? ==> recipient in old(accepted)
      ensures accepted == if r.Sent?
                          then old(accepted)[recipient := old(accepted)[recipient] +
                                             [Message(old(nextMsgId), sender, recipient, kind, payload, transfer, replyTo)]]
                          else old(accepted)
    {
      hide Inv, RequestsOk;
      var id := nextMsgId;
      IdUsed(Requests(pending, replies, requester, ending, collected), nextMsgId);
      nextMsgId := nextMsgId + 1;
      if recipient !in mailboxes { return Refused(RecipientNotFound); }
      var box := mailboxes[recipient];
      if |box| >= MAILBOX_CAPACITY { return Refused(MailboxFull); }
      var m := Message(id, sender, recipient, kind, payload, transfer, replyTo);
      BoxChanges(mailboxes, accepted, delivered, recipient, box + [m], accepted[recipient] + [m], delivered[recipient]);
      assert delivered[recipient := delivered[recipient]] == delivered;
      hide MailboxesOk;
      mailboxes := mailboxes[recipient := box + [m]];
      accepted := accepted[recipient := accepted[recipient] + [m]];
      r := Sent(id);
    }

    // A task gets its messages in the order they were accepted, each once.
    method Receive(t: TaskId) returns (r: Option<Message>)
      requires Valid()
      modifies this`mailboxes, this`delivered
      ensures Valid() && accepted == old(accepted)
      ensures r.Some? <==> t in old(mailboxes) && old(mailboxes)[t] != []
      ensures r.Some? ==> r.value == old(mailboxes)[t][0] && mailboxes == old(mailboxes)[t := old(mailboxes)[t][1..]]
      ensures r.Some? ==> delivered == old(delivered)[t := old(delivered)[t] + [r.value]]
      ensures r.Some? ==> delivered[t] <= accepted[t]
      ensures r.None? ==> delivered == old(delivered) && mailboxes == old(mailboxes)
    {
      if t !in mailboxes { return None; }
      var box := mailboxes[t];
      if box == [] { return None; }
      assert delivered[t] + box == delivered[t] + [box[0]] + box[1..];
      BoxChanges(mailboxes, accepted, delivered, t, box[1..], accepted[t], delivered[t] + [box[0]]);
      assert accepted[t := accepted[t]] == accepted;
      hide Inv, MailboxesOk, RequestsOk;
      mailboxes := mailboxes[t := box[1..]];
      delivered := delivered[t := delivered[t] + [box[0]]];
      r := Some(box[0]);
    }

    // Sends a request and remembers who waits for its reply until when.
    method Ask(sender: TaskId, recipient: TaskId, payload: seq<byte>, senderCap: CapId, now: nat, timeout: nat)
      returns (r: SendResult)
      requires Valid()
      modifies this`mailboxes, this`nextMsgId, this`accepted, this`pending, this`requester, table
      ensures Valid() && table.Value() == old(table.Value())
      ensures r == if Validate(old(table.Value()), senderCap, sender, 0x2).Denied? then Refused(CapabilityDenied)
                   else if recipient !in old(mailboxes) then Refused(RecipientNotFound)
                   else if |old(mailboxes)[recipient]| >= 256 then Refused(MailboxFull)
                   else Sent(old(nextMsgId))
      ensures r.Sent? ==> r.id !in old(requester) && pending == old(pending)[r.id := Pending(sender, now + timeout)]
      ensures requester == if r.Sent? then old(requester)[r.id := sender] else old(requester)
      ensures r.Refused? ==> pending == old(pending) && accepted == old(accepted)
      ensures r.Sent? ==> recipient in old(accepted)
      ensures r.Sent? ==>
        accepted == old(accepted)[recipient := old(accepted)[recipient] +
                                  [Message(r.id, sender, recipient, Request, payload, None, None)]]
    {
      hide Inv, MailboxesOk, RequestsOk, Validate;
      NextIdUnused(Requests(pending, replies, requester, ending, collected), nextMsgId);
      var permitted := table.CheckedLookup(senderCap, sender, WRITE);
      if permitted.Denied? { return Refused(CapabilityDenied); }
      r := Send(sender, recipient, Request, payload, None, None, senderCap);
      if r.Sent? { Await(r.id, Pending(sender, now + timeout)); }
    }

    method Await(id: MessageId, p: Pending)
      requires Valid() && 1 <= id < nextMsgId && id !in requester
      modifies this`pending, this`requester
      ensures Valid() && pending == old(pending)[id := p] && requester == old(requester)[id := p.requester]
    {
      ghost var q := Requests(pending, replies, requester, ending, collected);
      assert RequestOk(q, nextMsgId, id);
      hide Inv, MailboxesOk, RequestsOk;
      pending := pending[id := p];
      requester := requester[id := p.requester];
      OneRequestChanges(q, Requests(pending, replies, requester, ending, collected), id, nextMsgId, nextMsgId);
    }

    // Answers a request that is still pending; otherwise there is nobody to answer. The capability is
    // not looked at, so any task can answer.
    method Respond(sender: TaskId, id: MessageId, payload: seq<byte>, senderCap: CapId) returns (ok: bool)
      requires Valid()
      modifies this`pending, this`replies, this`ending
      ensures Valid() && ok == (id in old(pending))
      ensures ok ==> id !in old(ending) && id in requester && pending == old(pending) - {id}
      ensures ending == if ok then old(ending)[id := Answered(Message(0, sender, requester[id], Reply, payload, None, Some(id)))]
                        else old(ending)
      ensures !ok ==> pending == old(pending) && replies == old(replies)
    {
      if id !in pending { return false; }
      ghost var q := Requests(pending, replies, requester, ending, collected);
      assert RequestOk(q, nextMsgId, id);
      hide Inv, MailboxesOk, RequestsOk;
      var p := pending[id];
      pending := pending - {id};
      var m := Message(0, sender, p.requester, Reply, payload, None, Some(id));
      replies := replies[id := m];
      ending := ending[id := Answered(m)];
      OneRequestChanges(q, Requests(pending, replies, requester, ending, collected), id, nextMsgId, nextMsgId);
      ok := true;
    }

    // Hands out a reply, at most once, to whoever asks for this id.
    method Collect(id: MessageId) returns (r: Option<Message>)
      requires Valid()
      modifies this`replies, this`collected
      ensures Valid()
      ensures r.Some? <==> id in old(replies)
      ensures r.Some? ==> id !in old(collected) && id in collected
      ensures r.Some? ==> AnswerTo(Requests(pending, replies, requester, ending, collected), id, r.value)
      ensures collected == if r.Some? then old(collected) + {id} else old(collected)
    {
      if id !in replies { return None; }
      ghost var q := Requests(pending, replies, requester, ending, collected);
      assert RequestOk(q, nextMsgId, id);
      hide Inv, MailboxesOk, RequestsOk;
      r := Some(replies[id]);
      replies := replies - {id};
      collected := collected + {id};
      OneRequestChanges(q, Requests(pending, replies, requester, ending, collected), id, nextMsgId, nextMsgId);
    }

    // Drops the requests whose deadline has come. Does nothing when the lock is taken.
    method CheckTimeouts(now: nat, locked: bool)
      requires Valid()
      modifies this`pending, this`ending
      ensures Valid()
      ensures locked ==> pending == old(pending) && ending == old(ending)
      ensures !locked ==> forall id :: id in pending <==> id in old(pending) && now < old(pending)[id].deadline
      ensures !locked ==> forall id :: id in pending ==> pending[id] == old(pending)[id]
      ensures !locked ==> forall id ::
        id in ending <==> id in old(ending) || (id in old(pending) && old(pending)[id].deadline <= now)
      ensures forall id :: id in ending ==> ending[id] == if id in old(ending) then old(ending)[id] else TimedOut
    {
      if locked { return; }
      var expired := Expired(pending, now);
      ghost var done: set<MessageId> := {};
      assert pending - {} == pending;
      while expired != {}
        invariant Valid() && expired <= pending.Keys && done + expired == Expired(old(pending), now)
        invariant pending == old(pending) - done && ending.Keys == old(ending).Keys + done
        invariant forall id :: id in ending ==> ending[id] == if id in old(ending) then old(ending)[id] else TimedOut
        decreases expired
      {
        var id :| id in expired;
        Expire(id);
        expired := expired - {id};
        done := done + {id};
      }
    }

    method Expire(id: MessageId)
      requires Valid() && id in pending
      modifies this`pending, this`ending
      ensures Valid() && id !in old(ending) && pending == old(pending) - {id} && ending == old(ending)[id := TimedOut]
    {
      ghost var q := Requests(pending, replies, requester, ending, collected);
      assert RequestOk(q, nextMsgId, id);
      hide Inv, MailboxesOk, RequestsOk;
      pending := pending - {id};
      ending := ending[id := TimedOut];
      OneRequestChanges(q, Requests(pending, replies, requester, ending, collected), id, nextMsgId, nextMsgId);
    }
  }

  function Expired(pending: map<MessageId, Pending>, now: nat): set<MessageId> {
    set id | id in pending && now >= pending[id].deadline
  }

  lemma NextIdUnused(q: Requests, next: MessageId)
    requires RequestsOk(q, next)
    ensures next !in q.requester
  {
    assert RequestOk(q, next, next);
  }

  lemma IdUsed(q: Requests, next: MessageId)
    requires RequestsOk(q, next)
    ensures RequestsOk(q, next + 1)
  {
    var later := next + 1;
    forall j: MessageId ensures RequestOk(q, later, j) { assert RequestOk(q, next, j); }
  }
}
