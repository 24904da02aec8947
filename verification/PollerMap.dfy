/** What every poller maintains: a map from descriptor to client and mask. */
module PollerMap {
  import opened PollerTypes

  datatype Watch = Watch(client: Client, mask: Bits)

  datatype Call =
    | Add(fd: int, client: Client, mask: Bits)
    | Del(fd: int)
    | SetMask(fd: int, mask: Bits)
    | OrMask(fd: int, mask: Bits)
    | AndMask(fd: int, mask: Bits)

  /** Adding a monitored or impossible descriptor, or naming one that is not monitored, changes
      nothing. */
  function ApplyCall(w: map<int, Watch>, c: Call): map<int, Watch> {
    if c.Add? then if c.fd < 0 || c.fd in w then w else w[c.fd := Watch(c.client, c.mask)]
    else if c.fd !in w then w
    else match c
      case Del(fd) => w - {fd}
      case SetMask(fd, m) => w[fd := w[fd].(mask := m)]
      case OrMask(fd, m) => w[fd := w[fd].(mask := w[fd].mask + m)]
      case AndMask(fd, m) => w[fd := w[fd].(mask := w[fd].mask * m)]
  }

  /** What a client does when its event arrives; one that fails is deleted. */
  datatype Reaction = Reaction(calls: seq<Call>, fails: bool)

  function CallsOf(r: Reaction, fd: int): seq<Call> {
    r.calls + if r.fails then [Del(fd)] else []
  }

  function ApplyCalls(w: map<int, Watch>, calls: seq<Call>): map<int, Watch> {
    if calls == [] then w else ApplyCall(ApplyCalls(w, calls[..|calls| - 1]), calls[|calls| - 1])
  }

  /** The map after the events in log; the k-th is answered by script(k). */
  function AfterReactions(w: map<int, Watch>, script: nat -> Reaction, log: seq<PollEvent>): map<int, Watch> {
    if log == [] then w
    else
      var n := |log| - 1;
      ApplyCalls(AfterReactions(w, script, log[..n]), CallsOf(script(n), log[n].fd))
  }

  lemma OneMoreCall(w: map<int, Watch>, calls: seq<Call>, k: nat)
    requires k < |calls|
    ensures ApplyCalls(w, calls[..k + 1]) == ApplyCall(ApplyCalls(w, calls[..k]), calls[k])
  {
    assert calls[..k + 1][..k] == calls[..k];
  }

  lemma NoReactions(w: map<int, Watch>, script: nat -> Reaction)
    ensures AfterReactions(w, script, []) == w
  {
  }

  lemma OneMoreReaction(w: map<int, Watch>, script: nat -> Reaction, log: seq<PollEvent>, e: PollEvent)
    ensures AfterReactions(w, script, log + [e]) ==
            ApplyCalls(AfterReactions(w, script, log), CallsOf(script(|log|), e.fd))
  {
    assert (log + [e])[..|log|] == log;
  }

  // ---------- what a run of calls leaves ----------

  /** A call settles whether bit x is in the mask of fd: adding fd and setting its mask settle every
      bit, orMask the bits it names, andMask those it does not.  here says whether fd is monitored. */
  predicate Settles(here: bool, c: Call, fd: int, x: int) {
    c.fd == fd &&
    match c
    case Add(_, _, _) => !here
    case Del(_) => false
    case SetMask(_, _) => here
    case OrMask(_, m) => here && x in m
    case AndMask(_, m) => here && x !in m
  }

  predicate Gives(c: Call, x: int) {
    match c
    case Add(_, _, m) => x in m
    case SetMask(_, m) => x in m
    case OrMask(_, _) => true
    case _ => false
  }

  /** Which of the calls settle bit x of fd, and which put it in. */
  function Settling(w: map<int, Watch>, calls: seq<Call>, fd: int, x: int): seq<bool> {
    seq(|calls|, k requires 0 <= k < |calls| => Settles(fd in ApplyCalls(w, calls[..k]), calls[k], fd, x))
  }

  function Giving(calls: seq<Call>, x: int): seq<bool> {
    seq(|calls|, k requires 0 <= k < |calls| => Gives(calls[k], x))
  }

  lemma OneCallSettles(w: map<int, Watch>, c: Call, fd: int, x: int)
    requires 0 <= fd && fd in ApplyCall(w, c)
    ensures !Settles(fd in w, c, fd, x) ==> fd in w
    ensures x in ApplyCall(w, c)[fd].mask <==>
            if Settles(fd in w, c, fd, x) then Gives(c, x) else x in w[fd].mask
    ensures ApplyCall(w, c)[fd].client == if c.Add? && c.fd == fd && fd !in w then c.client else w[fd].client
  {
  }

  lemma SettlingOneMore(w: map<int, Watch>, calls: seq<Call>, fd: int, x: int)
    requires calls != []
    ensures var n := |calls| - 1;
            Settling(w, calls, fd, x) ==
            Settling(w, calls[..n], fd, x) + [Settles(fd in ApplyCalls(w, calls[..n]), calls[n], fd, x)] &&
            Giving(calls, x) == Giving(calls[..n], x) + [Gives(calls[n], x)]
  {
    hide Settles, Gives, ApplyCalls;
    var n := |calls| - 1;
    assert forall k | 0 <= k < n :: calls[..n][..k] == calls[..k];
  }

  lemma {:induction false} MaskIsSettled(w: map<int, Watch>, calls: seq<Call>, fd: int, x: int)
    requires 0 <= fd && fd in ApplyCalls(w, calls)
    ensures x in ApplyCalls(w, calls)[fd].mask <==>
            Settled(Settling(w, calls, fd, x), Giving(calls, x), fd in w && x in w[fd].mask)
    decreases |calls|
  {
    if calls != [] {
      var n := |calls| - 1;
      OneCallSettles(ApplyCalls(w, calls[..n]), calls[n], fd, x);
      SettlingOneMore(w, calls, fd, x);
      hide ApplyCall, Settles, Gives, Settling, Giving;
      if fd in ApplyCalls(w, calls[..n]) {
        MaskIsSettled(w, calls[..n], fd, x);
      }
    }
  }

  /** Over any run of calls, a bit is in the mask of a monitored descriptor if and only if the last
      call that settled it put it there, or none did and it was there at first. */
  lemma {:induction false} MaskIsAsLastSettled(w: map<int, Watch>, calls: seq<Call>, fd: int, x: int)
    requires 0 <= fd && fd in ApplyCalls(w, calls)
    ensures var settling := Settling(w, calls, fd, x);
            x in ApplyCalls(w, calls)[fd].mask <==>
            (exists k | 0 <= k < |calls| :: IsLast(settling, k) && Gives(calls[k], x)) ||
            (true !in settling && fd in w && x in w[fd].mask)
  {
    MaskIsSettled(w, calls, fd, x);
    SettledByTheLast(Settling(w, calls, fd, x), Giving(calls, x), fd in w && x in w[fd].mask);
    hide ApplyCalls, Gives, Settled, IsLast;
    assert forall k | 0 <= k < |calls| :: Giving(calls, x)[k] == Gives(calls[k], x);
  }
}
