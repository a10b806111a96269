/** Event masks of Handler.h and HandlerImp.cpp. */
module EventMask {

  type Mask = bv32

  /** Bits of `epoll_event.events`, from sys/epoll.h. */
  const EPOLLIN: Mask := 0x001
  const EPOLLPRI: Mask := 0x002
  const EPOLLOUT: Mask := 0x004
  const EPOLLHUP: Mask := 0x010

  function Reading(e: Mask): Mask {
    e | (EPOLLIN | EPOLLPRI)
  }

  function Writing(e: Mask): Mask {
    e | EPOLLOUT
  }

  function NotWriting(e: Mask): Mask {
    e & !EPOLLOUT
  }

  predicate IsWriting(e: Mask) {
    e & EPOLLOUT != 0
  }

  predicate IsReading(e: Mask) {
    e & (EPOLLIN | EPOLLPRI) == EPOLLIN | EPOLLPRI
  }

  /** Interest in reading is set by the operation that should, and gone when all interest is. */
  lemma ReadInterest(e: Mask)
    ensures IsReading(Reading(e)) && !IsReading(0)
  {
  }

  /** The operations on the write bit leave interest in reading alone. */
  lemma WriteBitKeepsReading(e: Mask)
    ensures IsReading(Writing(e)) <==> IsReading(e)
    ensures IsReading(NotWriting(e)) <==> IsReading(e)
  {
  }

  /** Interest in reading is bits 0x1 and 0x2; `EnableRead` touches no other. */
  lemma ReadingTouches(e: Mask)
    ensures Reading(e) & 0xFFFF_FFFC == e & 0xFFFF_FFFC
  {
  }

  /** Interest in writing is bit 0x4; `EnableWrite` and `DisableWrite` touch no other. */
  lemma WritingTouches(e: Mask)
    ensures Writing(e) & 0xFFFF_FFFB == e & 0xFFFF_FFFB
  {
  }

  lemma NotWritingTouches(e: Mask)
    ensures NotWriting(e) & 0xFFFF_FFFB == e & 0xFFFF_FFFB
  {
  }

  /** Interest in writing is set, cleared and left alone by the operations that should. */
  lemma WriteInterest(e: Mask)
    ensures IsWriting(Writing(e)) && !IsWriting(NotWriting(e)) && !IsWriting(0)
    ensures IsWriting(Reading(e)) <==> IsWriting(e)
  {
  }
}

module EventHandler {
  import opened EventMask

  class Handler {
    var events: Mask

    constructor ()
      ensures events == 0
    {
      events := 0;
    }

    method EnableRead()
      modifies this
      ensures events == Reading(old(events))
    {
      events := events | (EPOLLIN | EPOLLPRI);
    }

    method EnableWrite()
      modifies this
      ensures events == Writing(old(events))
    {
      events := events | EPOLLOUT;
    }

    method DisableWrite()
      modifies this
      ensures events == NotWriting(old(events))
    {
      events := events & !EPOLLOUT;
    }

    method DisableAll()
      modifies this
      ensures events == 0
    {
      events := 0;
    }
  }
}
