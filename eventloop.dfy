/** What the relay core needs of its event loop and of sockets. The event-loop module
    itself (proxyx/eventloop.py) is not part of this model: only its readiness bits and the
    identity of the sockets it reports are. */
module EventLoop {

  /** Readiness bits, with the values of the epoll interface the loop wraps. */
  const POLL_NULL: bv32 := 0x00
  const POLL_IN: bv32 := 0x01
  const POLL_OUT: bv32 := 0x04
  const POLL_ERR: bv32 := 0x08
  const POLL_HUP: bv32 := 0x10

  /** A socket object. Python compares sockets by identity, as Dafny compares objects;
      `fileno()` is the descriptor the loop reports with each event. */
  class Socket {
    const fd: int

    constructor (fd: int)
      ensures this.fd == fd
    {
      this.fd := fd;
    }
  }

  /** One readiness report `(sock, fd, event)` as the loop hands it to the relay; `sock`
      is None (null) when the descriptor was removed from the poll set meanwhile. */
  datatype Event = Event(sock: Socket?, fd: int, mask: bv32)
}
