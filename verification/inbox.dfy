/** An agent's inbox: the chain of received messages, newest first. The
    chain starting at `recent` and following `next` links is represented by
    the sequence of messages it visits, so the head is at index 0. */
module Inboxes {
  import opened JavaTypes
  import opened Messages

  datatype Inbox = Inbox(messages: seq<Message>)

  /** The state of what `read` returns and leaves behind. */
  datatype ReadResult = ReadResult(inbox: Inbox, message: Option<Message>)

  /** The lines `printAll` writes, and whether it then throws. */
  datatype PrintResult = PrintResult(lines: seq<JString>, faulted: bool)

  /** The line written after the last message, or for an empty inbox. */
  const EndMarker: JString := Lit("<no more messages>")

  /** A fresh inbox, as a secret agent gets at construction. */
  function EmptyInbox(): (r: Inbox)
    ensures |r.messages| == 0
  {
    Inbox([])
  }

  /** No message occurs twice in the chain: the chain has no cycle. */
  predicate Distinct(ib: Inbox) {
    forall i, j :: 0 <= i < j < |ib.messages| ==> ib.messages[i] != ib.messages[j]
  }

  /** `receive`: the message becomes the head and the previous chain, as it
      was, its tail. The chain stays free of repeats as long as the message
      is not already in it. */
  function Receive(ib: Inbox, m: Message): (r: Inbox)
    ensures |r.messages| == |ib.messages| + 1
    ensures r.messages[0] == m && r.messages[1..] == ib.messages
    ensures Distinct(ib) && m !in ib.messages ==> Distinct(r)
  {
    Inbox([m] + ib.messages)
  }

  /** `delete` as written: the loop walks the chain but sets each `next`
      link to the value it already has, so nothing is unlinked. The first
      line dereferences `recent`, so the inbox must not be empty. */
  function Delete(ib: Inbox, m: Message): (r: Inbox)
    requires |ib.messages| > 0
    ensures r.messages == ib.messages
    ensures m in ib.messages ==> m in r.messages
  {
    ib
  }

  /** `read`: on an empty inbox returns null and leaves it empty; otherwise
      returns the head and advances `recent` past it. */
  function Read(ib: Inbox): (r: ReadResult)
    ensures |ib.messages| == 0 ==> r.message.None? && r.inbox == ib
    ensures |ib.messages| > 0 ==> r.message == Some(ib.messages[0])
    ensures |ib.messages| > 0 ==> r.inbox.messages == ib.messages[1..]
    ensures |ib.messages| > 0 ==> [r.message.value] + r.inbox.messages == ib.messages
  {
    if |ib.messages| == 0 then
      ReadResult(ib, None)
    else
      var head := ib.messages[0];
      var kept := Delete(ib, head);
      ReadResult(Inbox(kept.messages[1..]), Some(head))
  }

  /** `getRecent`: the head, if any; the inbox is not touched. */
  function GetRecent(ib: Inbox): (r: Option<Message>)
    ensures r.None? <==> |ib.messages| == 0
    ensures r.Some? ==> r.value == ib.messages[0] && r == Read(ib).message
  {
    if |ib.messages| == 0 then None else Some(ib.messages[0])
  }

  /** `printAllRec`: the content of each message from `ms[0]` to the end of
      the chain, then the end marker. */
  function PrintAllRec(ms: seq<Message>): (r: seq<JString>)
    requires |ms| > 0
    ensures |r| == |ms| + 1
    ensures forall i :: 0 <= i < |ms| ==> r[i] == ms[i].content
    ensures r[|ms|] == EndMarker
    decreases |ms|
  {
    [ms[0].content] + (if |ms| == 1 then [EndMarker] else PrintAllRec(ms[1..]))
  }

  /** `printAll`: the contents newest to oldest and the end marker; on an
      empty inbox the marker is written and the recursive call then
      dereferences null. */
  function PrintAll(ib: Inbox): (r: PrintResult)
    ensures r.faulted <==> |ib.messages| == 0
    ensures |ib.messages| == 0 ==> r.lines == [EndMarker]
    ensures |ib.messages| > 0 ==> |r.lines| == |ib.messages| + 1
    ensures forall i :: 0 <= i < |ib.messages| ==> r.lines[i] == ib.messages[i].content
    ensures r.lines[|r.lines| - 1] == EndMarker
  {
    if |ib.messages| == 0 then PrintResult([EndMarker], true)
    else PrintResult(PrintAllRec(ib.messages), false)
  }

  /** Two receives followed by reads give the messages back newest first,
      then null. */
  lemma {:induction false} ReceiveTwiceThenRead(ib: Inbox, m1: Message, m2: Message)
    requires |ib.messages| == 0
    ensures var full := Receive(Receive(ib, m1), m2);
            var r1 := Read(full);
            var r2 := Read(r1.inbox);
            var r3 := Read(r2.inbox);
            GetRecent(full) == Some(m2) &&
            r1.message == Some(m2) && r2.message == Some(m1) &&
            r3.message.None? && |r3.inbox.messages| == 0
  {
    var one := Receive(ib, m1);
    var full := Receive(one, m2);
    assert full.messages == [m2, m1];
    var r1 := Read(full);
    assert r1.inbox.messages == [m1];
    var r2 := Read(r1.inbox);
    assert r2.inbox.messages == [];
  }

  /** Reading an inbox message by message yields it in chain order, and the
      chain is exhausted after as many reads as it has messages. */
  function ReadAll(ib: Inbox): (r: seq<Message>)
    ensures r == ib.messages
    decreases |ib.messages|
  {
    var step := Read(ib);
    match step.message
    case None => []
    case Some(m) => [m] + ReadAll(step.inbox)
  }
}
