/** The in-memory `TestMailBox`, which exists twice in the repository
    (`mailbox/src/mailbox.rs` and `database/src/mailbox.rs`) with the same
    `get_messages` and `delete_message` and different initial contents.
    The shared behaviour is defined once, over any message type. */
module MemoryMailBox {
  import opened Wrappers

  /** `MailboxError`. */
  datatype MailboxError = MessageDoesNotExist

  /** `TestMailBox`: the stored messages, in order. */
  datatype TestMailBox<M> = TestMailBox(db: seq<M>)

  /** The 0-based numbering of a sequence of messages. */
  function Numbered<M>(db: seq<M>): map<nat, M> {
    map i | 0 <= i < |db| :: db[i]
  }

  /** `get_messages`: the loop over `db.iter().enumerate()` that inserts
      each message under its index. */
  method GetMessages<M>(box: TestMailBox<M>) returns (out: map<nat, M>)
    ensures forall i: nat :: i in out <==> i < |box.db|
    ensures forall i :: 0 <= i < |box.db| ==> out[i] == box.db[i]
  {
    out := map[];
    for i := 0 to |box.db|
      invariant forall j: nat :: j in out <==> j < i
      invariant forall j :: 0 <= j < i ==> out[j] == box.db[j]
    {
      out := out[i := box.db[i]];
    }
  }

  /** `delete_message`: the mailbox afterwards and the result. */
  function DeleteMessage<M>(box: TestMailBox<M>, message: nat): (r: (TestMailBox<M>, Result<(), MailboxError>))
    ensures message >= |box.db| ==> r == (box, Failure(MessageDoesNotExist))
    ensures message < |box.db| ==> r.1 == Success(())
    ensures message < |box.db| ==> |r.0.db| == |box.db| - 1
    ensures message < |box.db| ==> forall i :: 0 <= i < message ==> r.0.db[i] == box.db[i]
    ensures message < |box.db| ==> forall i :: message <= i < |r.0.db| ==> r.0.db[i] == box.db[i + 1]
  {
    if message >= |box.db| then (box, Failure(MessageDoesNotExist))
    else (TestMailBox(box.db[..message] + box.db[message + 1..]), Success(()))
  }

  /** A delete that succeeds removes exactly the named message: the
      remaining ones and the deleted one are what there was before. */
  lemma DeleteRemovesOne<M>(box: TestMailBox<M>, message: nat)
    requires message < |box.db|
    ensures multiset(DeleteMessage(box, message).0.db) + multiset{box.db[message]} == multiset(box.db)
  {
    var db := box.db;
    assert db == db[..message] + [db[message]] + db[message + 1..];
  }

  /** After a delete, message `i` of the listing is the one that was
      numbered `i` before it when `i` is below the deleted number, and the
      one numbered `i + 1` otherwise. */
  lemma DeleteRenumbers<M>(box: TestMailBox<M>, message: nat, i: nat)
    requires message < |box.db| && i < |box.db| - 1
    ensures i in Numbered(DeleteMessage(box, message).0.db)
    ensures Numbered(DeleteMessage(box, message).0.db)[i]
         == Numbered(box.db)[if i < message then i else i + 1]
  {
  }
}

/** The copy in the `mailbox` crate, whose messages are raw octets. */
module MailboxCrate {
  import opened Bytes
  import opened MemoryMailBox

  /** `Mail` of the `mailbox` crate. */
  datatype Mail = Mail(content: seq<byte>)

  /** `content_len`: the length in octets. */
  function ContentLen(m: Mail): nat {
    |m.content|
  }

  /** The text of the one message: "This is a plaintext, non MIME message". */
  const CONTENT: seq<byte> :=
    [84, 104, 105, 115, 32, 105, 115, 32, 97, 32, 112, 108, 97, 105, 110, 116, 101, 120, 116, 44]
    + [32, 110, 111, 110, 32, 77, 73, 77, 69, 32, 109, 101, 115, 115, 97, 103, 101]

  /** `TestMailBox::new`: one plain-text message. */
  function New(): (box: TestMailBox<Mail>)
    ensures |box.db| == 1
    ensures ContentLen(box.db[0]) == 37
  {
    TestMailBox([Mail(CONTENT)])
  }

  /** Message 0 is the only one that can be deleted, and after it the
      mailbox is empty. */
  lemma NewDeletes(message: nat)
    ensures DeleteMessage(New(), message).1.Success? <==> message == 0
    ensures message == 0 ==> DeleteMessage(New(), message).0.db == []
  {
  }
}

/** The copy in the `database` crate, which stores parsed messages. */
module DatabaseCrate {
  import opened Wrappers
  import opened MemoryMailBox
  import ImfMail

  /** `TestMailBox::new`: no messages. */
  function New(): (box: TestMailBox<ImfMail.Mail>)
    ensures box.db == []
  {
    TestMailBox([])
  }

  /** On a fresh mailbox every delete fails and changes nothing. */
  lemma NewRejectsDeletes(message: nat)
    ensures DeleteMessage(New(), message) == (New(), Failure(MessageDoesNotExist))
  {
  }
}
