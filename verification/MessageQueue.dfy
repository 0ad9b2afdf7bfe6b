/** The linked queue of messages that a connection handler shares with its callers. */
module MessageQueue {
  import opened Bytes
  import opened Options

  datatype Message = Message(seqNum: uint64, body: bytes)

  class Element {
    const m: Message
    var next: Element?

    constructor (m: Message)
      ensures this.m == m && next == null
    {
      this.m, next := m, null;
    }
  }

  class Queue {
    var size: nat
    var first: Element?
    var last: Element?

    /** The elements in the order of their links. */
    ghost var elements: seq<Element>

    ghost predicate Valid()
      reads this, elements
    {
      && size == |elements|
      && (forall i, j | 0 <= i < j < |elements| :: elements[i] != elements[j])
      && (forall i {:trigger elements[i].next} | 0 <= i < |elements| ::
            elements[i].next == (if i + 1 < |elements| then elements[i + 1] else null))
      && first == (if size == 0 then null else elements[0])
      && last == (if size == 0 then null else elements[size - 1])
    }

    ghost function Contents(): (ms: seq<Message>)
      reads this
      ensures |ms| == |elements|
    {
      seq(|elements|, i requires 0 <= i < |elements| reads this => elements[i].m)
    }

    /** EMPTY_MESSAGE_QUEUE. */
    constructor ()
      ensures Valid() && Contents() == [] && elements == []
    {
      size, first, last, elements := 0, null, null, [];
    }

    method Top() returns (r: Option<Message>)
      requires Valid()
      ensures r == if Contents() == [] then None else Some(Contents()[0])
    {
      r := if size == 0 then None else Some(first.m);
    }

    method Push(m: Message)
      requires Valid()
      modifies this, elements
      ensures Valid() && forall e | e in elements :: e in old(elements) || fresh(e)
      ensures Contents() == old(Contents()) + [m]
    {
      var next := new Element(m);
      if size != 0 {
        last.next := next;
        last := next;
      } else {
        first := next;
        last := next;
      }
      size := size + 1;
      elements := elements + [next];
    }

    /** The oldest message, or NULL from an empty queue. */
    method Pop() returns (r: Option<Message>)
      requires Valid()
      modifies this
      ensures Valid() && (forall e | e in elements :: e in old(elements))
      ensures old(Contents()) == [] ==> r == None && Contents() == []
      ensures old(Contents()) != [] ==> r == Some(old(Contents())[0]) && Contents() == old(Contents())[1..]
    {
      if size == 0 {
        return None;
      }
      r := Some(first.m);
      first := first.next;
      size := size - 1;
      elements := elements[1..];
      if size == 0 {
        first, last := null, null;
      }
    }
  }
}
