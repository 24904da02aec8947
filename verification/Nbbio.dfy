/** Nonblocking buffered i/o: a ring buffer that refines a FIFO queue of bytes, with partial reads
    and writes, and the resumable line reader on top of it. */
module Nbbio {
  import opened LineSplit

  const BUFLEN := 1024

  /** Unix error codes the buffer returns of its own; any other comes from the kernel. */
  datatype Errno = OK | EWOULDBLOCK | EMSGSIZE | EPIPE | ENOSPC | Kernel(errno: int)

  /** What one write(2) does: it takes at most n bytes, or fails. */
  datatype Write = Takes(n: nat) | WriteFails(errno: int)

  /** What one read(2) has to offer: some bytes (none at the end of the stream), or failure. */
  datatype Read = Offers(bytes: seq<byte>) | ReadFails(errno: int)

  function Min(a: int, b: int): int {
    if a < b then a else b
  }

  // ---------- the queue the buffer stands for ----------

  /** How a flush of a queue of used bytes ends, when the first contig of them lie in one piece:
      the error and the number of bytes sent. */
  function Flush(used: nat, contig: nat, first: Write, second: Write): (r: (Errno, nat))
    requires contig <= used
    ensures r.1 <= used
  {
    if contig == 0 then (OK, 0)
    else match first
      case WriteFails(e) => (Kernel(e), 0)
      case Takes(n) =>
        if n < contig || contig == used then (OK, Min(n, contig))
        else match second
          case WriteFails(e) => (Kernel(e), contig)
          case Takes(k) => (OK, contig + Min(k, used - contig))
  }

  /** A flush that sends the whole first piece goes on as a flush of the rest. */
  lemma FlushGoesOn(used: nat, contig: nat, first: Write, second: Write)
    requires 0 < contig < used && first.Takes? && first.n >= contig
    ensures var r := Flush(used - contig, used - contig, second, second);
            Flush(used, contig, first, second) == (r.0, contig + r.1)
  {
  }

  /** What a read into a piece of room bytes takes of what is offered. */
  function Taken(r: Read, room: nat): (t: seq<byte>)
    ensures r.ReadFails? ==> t == []
    ensures r.Offers? ==> t <= r.bytes && |t| == if |r.bytes| < room then |r.bytes| else room
  {
    if r.ReadFails? then [] else r.bytes[..Min(|r.bytes|, room)]
  }

  /** Only a first read that fills its piece, with more room at the start of the array, is followed by
      a second. */
  predicate ReadsAgain(free: nat, contig: nat, first: Read) {
    first.Offers? && 0 < contig < free && |first.bytes| >= contig
  }

  /** Only a first write that sends its piece, with more to send, is followed by a second. */
  predicate WritesAgain(used: nat, contig: nat, first: Write) {
    first.Takes? && 0 < contig < used && first.n >= contig
  }

  /** Every outcome of a flush, from the writes alone. */
  lemma {:induction false} FlushOutcome(used: nat, contig: nat, first: Write, second: Write)
    requires contig <= used && (contig == 0 ==> used == 0)
    ensures var (err, sent) := Flush(used, contig, first, second);
            (used > 0 && first.WriteFails? ==> err == Kernel(first.errno) && sent == 0) &&
            (WritesAgain(used, contig, first) && second.WriteFails? ==>
               err == Kernel(second.errno) && sent == contig) &&
            (WritesAgain(used, contig, first) && second.Takes? ==>
               err == OK && sent == if second.n < used - contig then contig + second.n else used) &&
            (first.Takes? && !WritesAgain(used, contig, first) ==>
               err == OK && sent == if first.n < contig then first.n else contig) &&
            (used == 0 ==> err == OK && sent == 0)
  {
  }

  class Nbbio {
    const m_buf: array<byte>
    var m_getFrom: int  // where to pull bytes from
    var m_putTo: int  // where to append bytes
    var m_linelen: int  // bytes already in the caller's line buffer
    var m_lastchar: byte
    ghost var accepted: seq<byte>  // every byte ever put in
    ghost var removed: seq<byte>  // every byte ever taken out

    ghost predicate InRange()
      reads `m_getFrom, `m_putTo
    {
      m_buf.Length == BUFLEN && 0 <= m_getFrom < BUFLEN && 0 <= m_putTo < BUFLEN
    }

    ghost function Held(): (s: seq<byte>)
      requires InRange()
      reads `m_getFrom, `m_putTo, m_buf
      ensures |s| == (m_putTo - m_getFrom) % BUFLEN
    {
      if m_getFrom <= m_putTo then m_buf[m_getFrom..m_putTo] else m_buf[m_getFrom..] + m_buf[..m_putTo]
    }

    /** In every reachable state no byte is lost, added or out of order. */
    ghost predicate Valid()
      reads this, m_buf
    {
      InRange() && 0 <= m_linelen && accepted == removed + Held()
    }

    constructor ()
      ensures Valid() && accepted == [] && Held() == [] && m_linelen == 0 && m_lastchar == 0 && fresh(m_buf)
    {
      m_buf := new byte[BUFLEN];
      m_putTo, m_getFrom, m_linelen, m_lastchar := 0, 0, 0, 0;
      accepted, removed := [], [];
    }

    function BytesUsed(): (n: nat)
      requires InRange()
      reads `m_getFrom, `m_putTo, m_buf
      ensures n == |Held()| < BUFLEN
    {
      (m_putTo - m_getFrom) % BUFLEN
    }

    function BytesFree(): (n: nat)
      requires InRange()
      reads `m_getFrom, `m_putTo, m_buf
      ensures n + |Held()| == BUFLEN - 1
    {
      BUFLEN - 1 - BytesUsed()
    }

    predicate IsEmpty()
      requires InRange()
      reads `m_getFrom, `m_putTo, m_buf
      ensures IsEmpty() <==> Held() == []
    {
      m_putTo == m_getFrom
    }

    /** The longest piece of the queue's front that is contiguous in the array. */
    function ContigBytesUsed(): (n: nat)
      requires InRange()
      reads `m_getFrom, `m_putTo, m_buf
      ensures n <= |Held()| && m_getFrom + n <= BUFLEN
      ensures n < |Held()| ==> m_getFrom + n == BUFLEN
      ensures n == 0 <==> |Held()| == 0
    {
      (if m_putTo >= m_getFrom then m_putTo else BUFLEN) - m_getFrom
    }

    lemma ContigIsFront(n: nat)
      requires InRange() && n <= ContigBytesUsed()
      ensures m_buf[m_getFrom..m_getFrom + n] == Held()[..n]
    {
    }

    /** The longest free piece of the array from m_putTo on that may be filled. */
    function ContigBytesFree(): (n: nat)
      requires InRange()
      reads `m_getFrom, `m_putTo, m_buf
      ensures n <= BytesFree() && m_putTo + n <= BUFLEN
      ensures n < BytesFree() ==> m_putTo + n == BUFLEN
      ensures n == 0 <==> BytesFree() == 0
    {
      (if m_getFrom > m_putTo then m_getFrom - 1 else BUFLEN) - m_putTo - (if m_getFrom == 0 then 1 else 0)
    }

    /** memcpy to m_putTo, and the update of m_putTo that goes with it. */
    method CopyIn(p: seq<byte>)
      requires Valid() && |p| <= ContigBytesFree()
      modifies this`m_putTo, this`accepted, m_buf
      ensures Valid() && accepted == old(accepted) + p && Held() == old(Held()) + p
      ensures m_putTo == if old(m_putTo) + |p| == BUFLEN then 0 else old(m_putTo) + |p|
    {
      ghost var h := Held();
      forall k | 0 <= k < |p| {
        m_buf[m_putTo + k] := p[k];
      }
      m_putTo := m_putTo + |p|;
      if m_putTo == BUFLEN {
        m_putTo := 0;
      }
      accepted := accepted + p;
      assert Held() == h + p;
    }

    /** All or nothing. */
    method Put(p: seq<byte>) returns (err: Errno)
      requires Valid()
      modifies this`m_putTo, this`accepted, m_buf
      ensures Valid() && Held() == old(Held()) + (if err == OK then p else [])
      ensures accepted == old(accepted) + (if err == OK then p else [])
      ensures err == OK <==> |old(Held())| + |p| < BUFLEN
      ensures err == EMSGSIZE <==> |p| >= BUFLEN
      ensures err == OK || err == EMSGSIZE || err == EWOULDBLOCK
    {
      hide Held;
      if BytesFree() < |p| {
        if |p| >= BUFLEN {
          return EMSGSIZE;
        }
        return EWOULDBLOCK;
      }
      var ncopy := ContigBytesFree();
      if ncopy > |p| {
        ncopy := |p|;
      }
      CopyIn(p[..ncopy]);
      if m_putTo == 0 {
        if |p| > ncopy {
          CopyIn(p[ncopy..]);
        }
      }
      assert p[..ncopy] + p[ncopy..] == p;
      return OK;
    }

    /** Takes n bytes from the contiguous front of the queue. */
    method Drop(n: nat)
      requires Valid() && n <= ContigBytesUsed()
      modifies this`m_getFrom, this`removed
      ensures Valid() && Held() == old(Held())[n..] && removed == old(removed) + old(Held())[..n]
      ensures m_getFrom == if old(m_getFrom) + n == BUFLEN then 0 else old(m_getFrom) + n
    {
      ghost var h := Held();
      m_getFrom := m_getFrom + n;
      if m_getFrom == BUFLEN {
        m_getFrom := 0;
      }
      removed := removed + h[..n];
      assert Held() == h[n..] && h == h[..n] + h[n..];
    }

    /** One write of the contiguous front. */
    method WriteFront(w: Write) returns (sent: seq<byte>)
      requires Valid() && w.Takes?
      modifies this`m_getFrom, this`removed
      ensures Valid() && removed == old(removed) + sent && sent + Held() == old(Held())
      ensures |sent| == Min(w.n, old(ContigBytesUsed()))
      ensures m_getFrom == if old(m_getFrom) + |sent| == BUFLEN then 0 else old(m_getFrom) + |sent|
    {
      ghost var h := Held();
      hide Held, ContigBytesUsed;
      var nwrite := Min(w.n, ContigBytesUsed());
      ContigIsFront(nwrite);
      sent := m_buf[m_getFrom..m_getFrom + nwrite];
      Drop(nwrite);
      assert h[..nwrite] + h[nwrite..] == h;
    }

    method FlushTo(first: Write, second: Write) returns (err: Errno, sent: seq<byte>)
      requires Valid()
      modifies this`m_getFrom, this`removed
      ensures Valid() && removed == old(removed) + sent && sent + Held() == old(Held())
      ensures (err, |sent|) == Flush(old(|Held()|), old(ContigBytesUsed()), first, second)
      ensures err.Kernel? <==> (old(Held()) != [] && first.WriteFails?) ||
                               (old(WritesAgain(|Held()|, ContigBytesUsed(), first)) && second.WriteFails?)
      ensures err.Kernel? ==> err.errno == if first.WriteFails? then first.errno else second.errno
      ensures err == OK || err.Kernel?
      decreases m_getFrom
    {
      hide Held, ContigBytesUsed;
      ghost var h := Held();
      var contigused := ContigBytesUsed();
      if contigused == 0 {
        return OK, [];
      }
      if first.WriteFails? {
        return Kernel(first.errno), [];
      }
      sent := WriteFront(first);
      if m_getFrom == 0 && |sent| > 0 {
        if !IsEmpty() {
          var more;
          ghost var front := sent;
          FlushGoesOn(|h|, contigused, first, second);
          hide Flush;
          err, more := FlushTo(second, second);
          assert front + more + Held() == front + (more + Held());
          sent := sent + more;
          return;
        }
      }
      return OK, sent;
    }

    method FillFrom(first: Read, second: Read) returns (err: Errno, ghost got: seq<byte>)
      requires Valid()
      modifies this`m_putTo, this`accepted, m_buf
      ensures Valid() && accepted == old(accepted) + got && Held() == old(Held()) + got
      ensures got == if old(ReadsAgain(BytesFree(), ContigBytesFree(), first))
                     then Taken(first, old(ContigBytesFree())) + Taken(second, old(BytesFree() - ContigBytesFree()))
                     else Taken(first, old(ContigBytesFree()))
      ensures err == EPIPE <==> old(BytesFree()) > 0 && first == Offers([])
      ensures err.Kernel? <==> (old(BytesFree()) > 0 && first.ReadFails?) ||
                               (old(ReadsAgain(BytesFree(), ContigBytesFree(), first)) && second.ReadFails?)
      ensures err.Kernel? ==> err.errno == if first.ReadFails? then first.errno else second.errno
      ensures err == OK || err == EPIPE || err.Kernel?
    {
      hide Held;
      var contigfree := ContigBytesFree();
      if contigfree == 0 {
        return OK, [];
      }
      if first.ReadFails? {
        return Kernel(first.errno), [];
      }
      if |first.bytes| == 0 {
        return EPIPE, [];
      }
      var nread := Min(|first.bytes|, contigfree);
      CopyIn(first.bytes[..nread]);
      got := first.bytes[..nread];
      if m_putTo == 0 {
        contigfree := ContigBytesFree();
        if contigfree == 0 {
          return OK, got;
        }
        if second.ReadFails? {
          return Kernel(second.errno), got;
        }
        nread := Min(|second.bytes|, contigfree);
        CopyIn(second.bytes[..nread]);
        got := got + second.bytes[..nread];
      }
      return OK, got;
    }

    method Readc() returns (c: byte)
      requires Valid() && Held() != []
      modifies this`m_getFrom, this`removed
      ensures Valid() && c == old(Held())[0] && Held() == old(Held())[1..] && removed == old(removed) + [c]
    {
      ContigIsFront(1);
      c := m_buf[m_getFrom];
      assert m_buf[m_getFrom..m_getFrom + 1][0] == c;
      Drop(1);
    }

    /** What readline keeps for its next call: the line so far is in the caller's buffer. */
    ghost function Kept(linebuf: array<byte>): Partial
      requires 0 <= m_linelen <= linebuf.Length
      reads this, linebuf
    {
      Partial(linebuf[..m_linelen], m_lastchar)
    }

    method Readline(linebuf: array<byte>, maxlen: int) returns (err: Errno)
      requires Valid() && linebuf != m_buf && m_linelen <= maxlen <= linebuf.Length
      modifies this`m_getFrom, this`m_linelen, this`m_lastchar, this`removed, linebuf
      ensures Valid() && m_linelen <= maxlen && accepted == old(accepted)
      ensures var r := ReadLine(old(Kept(linebuf)), old(Held()), maxlen);
              Held() == r.held && Kept(linebuf) == r.after &&
              match r.outcome
              case WouldBlock => err == EWOULDBLOCK
              case NoSpace => err == ENOSPC
              case Line(l) => err == OK && |l| < maxlen && linebuf[..|l|] == l && linebuf[|l|] == 0
    {
      hide Held;
      if IsEmpty() {
        return EWOULDBLOCK;
      }
      ghost var p, h := Kept(linebuf), Held();
      while !IsEmpty() && m_linelen < maxlen
        invariant Valid() && m_linelen <= maxlen && accepted == old(accepted)
        invariant ReadLoop(Kept(linebuf), Held(), maxlen) == ReadLoop(p, h, maxlen)
        decreases |Held()|
      {
        ghost var before := linebuf[..m_linelen];
        var c := Readc();
        if c == LF {
          if m_lastchar != CR {
            linebuf[m_linelen] := 0;
            m_lastchar := c;
            m_linelen := 0;
            assert linebuf[..|before|] == before;
            return OK;
          }
        } else if c == CR {
          linebuf[m_linelen] := 0;
          m_lastchar := c;
          m_linelen := 0;
          assert linebuf[..|before|] == before;
          return OK;
        } else {
          linebuf[m_linelen] := c;
          m_linelen := m_linelen + 1;
          m_lastchar := c;
          assert linebuf[..m_linelen] == before + [c];
        }
      }
      if m_linelen == maxlen {
        return ENOSPC;
      }
      return EWOULDBLOCK;
    }
  }
}
