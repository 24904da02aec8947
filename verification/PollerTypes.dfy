/** What the pollers share: event bits, clients and readiness events. */
module PollerTypes {
  /** A short holding event bits, as the set of the positions of its one bits: "&" is
      intersection, "|" is union and "& ~" is difference. */
  type Bits = set<int>

  const IN: int := 0  // POLLIN, 0x01
  const PRI: int := 1  // POLLPRI, 0x02
  const OUT: int := 2  // POLLOUT, 0x04
  const ERR: int := 3  // POLLERR, 0x08
  const HUP: int := 4  // POLLHUP, 0x10
  const NVAL: int := 5  // POLLNVAL, 0x20

  const ALLBITS: Bits := {IN, PRI, OUT, ERR, HUP, NVAL}

  /** A client object, by identity; 0 is the null pointer. */
  type Client = int

  const NOBODY: Client := 0

  datatype PollEvent = PollEvent(fd: int, revents: Bits, client: Client)

  /** EFAULT stands for an access outside an array, EABORT for an assertion that fails. */
  datatype Errno = OK | EINVAL | ENOENT | EALREADY | EWOULDBLOCK | EFAULT | EABORT | Kernel(errno: int)

  ghost predicate Distinct<T>(s: seq<T>) {
    forall i, j | 0 <= i < j < |s| :: s[i] != s[j]
  }

  /** The last step that settles something does so by what it gives; before is how it was at first. */
  function Settled(settles: seq<bool>, gives: seq<bool>, before: bool): bool
    requires |settles| == |gives|
  {
    if settles == [] then before
    else
      var n := |settles| - 1;
      if settles[n] then gives[n] else Settled(settles[..n], gives[..n], before)
  }

  predicate IsLast(settles: seq<bool>, k: nat)
    requires k < |settles|
  {
    settles[k] && forall j | k < j < |settles| :: !settles[j]
  }

  lemma {:induction false} SettledByTheLast(settles: seq<bool>, gives: seq<bool>, before: bool)
    requires |settles| == |gives|
    ensures Settled(settles, gives, before) <==>
            (exists k | 0 <= k < |settles| :: IsLast(settles, k) && gives[k]) || (before && true !in settles)
  {
    if settles != [] {
      var n := |settles| - 1;
      if settles[n] {
        assert IsLast(settles, n);
      } else {
        SettledByTheLast(settles[..n], gives[..n], before);
        forall k | 0 <= k < n ensures IsLast(settles, k) <==> IsLast(settles[..n], k) {
        }
        assert true in settles <==> true in settles[..n];
      }
    }
  }
}
