/** The status-recording response writers, nested by the request logger and the error store around one connection. */
module ResponseWriter {
  import opened Common

  const OK := 200
  const SWITCHING_PROTOCOLS := 101
  const INTERNAL_SERVER_ERROR := 500

  /** The codes that the server's own writer takes; it panics on any other. */
  predicate Known(code: int) { 100 <= code <= 999 }

  /** Headers that announce something and leave the final status to a later one. */
  predicate Informational(code: int) { 100 <= code < OK && code != SWITCHING_PROTOCOLS }

  /** Headers that settle the status. */
  predicate Final(code: int) { Known(code) && !Informational(code) }

  /** Statuses that come without a body: the server drops what is written after them. */
  predicate Bodiless(status: int) { status == SWITCHING_PROTOCOLS || status == 204 || status == 304 }

  /** What the server has sent: any announcements, the final status, the body; and how often it was given a header. */
  datatype Sent = Sent(announced: seq<int>, status: Option<int>, body: string, headerCalls: nat)

  const NOTHING := Sent([], None, "", 0)

  /** The server's own writer: the first final header counts. Also says whether it panics. */
  function ServerHeader(s: Sent, code: int): (Sent, bool) {
    var t := s.(headerCalls := s.headerCalls + 1);
    if s.status.Some? then (t, false)
    else if !Known(code) then (t, true)
    else if Informational(code) then (t.(announced := s.announced + [code]), false)
    else (t.(status := Some(code)), false)
  }

  /** A body without a final header sends 200. */
  function ServerWrite(s: Sent, body: string): Sent {
    var status := if s.status.Some? then s.status.value else OK;
    s.(status := Some(status), body := if Bodiless(status) then s.body else s.body + body)
  }

  /** A flush sends 200 unless a final header has been sent. */
  function ServerFlush(s: Sent): Sent {
    s.(status := if s.status.Some? then s.status else Some(OK))
  }

  /** The status the client gets once the handler has returned. */
  function ClientStatus(s: Sent): int { if s.status.Some? then s.status.value else OK }

  class Connection {
    var sent: Sent

    constructor ()
      ensures sent == NOTHING
    {
      sent := NOTHING;
    }
  }

  /** What one wrapper remembers. */
  datatype Level = Level(status: int, wroteHeader: bool)

  const UNTOUCHED := Level(0, false)

  function StatusOf(l: Level): int { if l.status == 0 then OK else l.status }

  /** A header handed to a stack of wrappers, outermost first: each remembers and passes on the first one only. Also
      says whether the server's writer panics. */
  function StackHeader(levels: seq<Level>, s: Sent, code: int): (seq<Level>, Sent, bool) {
    if levels == [] then
      var (t, panicked) := ServerHeader(s, code);
      ([], t, panicked)
    else if levels[0].wroteHeader then (levels, s, false)
    else
      var (rest, t, panicked) := StackHeader(levels[1..], s, code);
      ([Level(code, true)] + rest, t, panicked)
  }

  function StackWrite(levels: seq<Level>, s: Sent, body: string): (seq<Level>, Sent)
    decreases |levels|
  {
    if levels == [] then ([], ServerWrite(s, body))
    else
      var header := StackHeader(levels, s, OK);
      var touched := if levels[0].wroteHeader then levels else header.0;
      var t := if levels[0].wroteHeader then s else header.1;
      assert |touched| == |levels| by { StackKeepsDepth(levels, s, OK); }
      var (rest, u) := StackWrite(touched[1..], t, body);
      ([touched[0]] + rest, u)
  }

  /** A header changes no wrapper's place, and the implied 200 never panics. */
  lemma {:induction false} StackKeepsDepth(levels: seq<Level>, s: Sent, code: int)
    ensures |StackHeader(levels, s, code).0| == |levels|
    ensures Known(code) ==> !StackHeader(levels, s, code).2
  {
    if levels != [] {
      StackKeepsDepth(levels[1..], s, code);
    }
  }

  /** One wrapper around the connection or around another wrapper. */
  class Writer {
    const inner: Writer?
    const connection: Connection
    var status: int
    var wroteHeader: bool
    ghost const Repr: set<object>

    ghost predicate Valid()
      reads this, Repr
      decreases Repr
    {
      && this in Repr && connection in Repr
      && (inner != null ==> inner in Repr && inner.Repr < Repr && this !in inner.Repr
                            && inner.connection == connection && inner.Valid())
    }

    /** What the wrappers remember, this one first. */
    ghost function Levels(): seq<Level>
      requires Valid()
      reads this, Repr
      decreases Repr
    {
      [Level(status, wroteHeader)] + if inner == null then [] else inner.Levels()
    }

    constructor (connection: Connection, inner: Writer?)
      requires inner != null ==> inner.Valid() && inner.connection == connection
      ensures Valid() && this.connection == connection && this.inner == inner
      ensures fresh(Repr - {connection} - if inner == null then {} else inner.Repr)
      ensures Levels() == [UNTOUCHED] + if inner == null then [] else old(inner.Levels())
    {
      this.connection, this.inner := connection, inner;
      this.status, this.wroteHeader := 0, false;
      this.Repr := {this, connection} + if inner == null then {} else inner.Repr;
    }

    method WriteHeader(code: int) returns (panicked: bool)
      requires Valid()
      modifies Repr
      ensures Valid()
      ensures (Levels(), connection.sent, panicked) == StackHeader(old(Levels()), old(connection.sent), code)
      decreases Repr
    {
      if wroteHeader {
        return false;
      }
      status := code;
      wroteHeader := true;
      if inner != null {
        panicked := inner.WriteHeader(code);
      } else {
        var (sent, panics) := ServerHeader(connection.sent, code);
        connection.sent := sent;
        panicked := panics;
      }
    }

    method Write(body: string)
      requires Valid()
      modifies Repr
      ensures Valid()
      ensures (Levels(), connection.sent) == StackWrite(old(Levels()), old(connection.sent), body)
      decreases Repr
    {
      if !wroteHeader {
        StackKeepsDepth(Levels(), connection.sent, OK);
        var panicked := WriteHeader(OK);
        assert !panicked;
      }
      if inner != null {
        inner.Write(body);
      } else {
        connection.sent := ServerWrite(connection.sent, body);
      }
    }

    /** The writer inside this one; null stands for the server's own writer. */
    method Unwrap() returns (w: Writer?)
      ensures w == inner
    {
      return inner;
    }

    /** A response controller unwraps down to the server's own writer, and flushes that: no wrapper sees it. */
    method Flush()
      requires Valid()
      modifies Repr
      ensures Valid() && Levels() == old(Levels())
      ensures connection.sent == ServerFlush(old(connection.sent))
      decreases Repr
    {
      var w := Unwrap();
      if w != null {
        w.Flush();
      } else {
        connection.sent := ServerFlush(connection.sent);
      }
    }

    method Status() returns (code: int)
      requires Valid()
      ensures code == StatusOf(Levels()[0])
    {
      if status == 0 {
        return OK;
      }
      return status;
    }
  }
}
