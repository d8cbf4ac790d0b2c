/**
 Reading and writing a SAN device: sanboot.c divides a request into fragments
 and retries each of them.
 */
module SanDevice {
  import opened Words

  /** One attempt at a command, as the rest of the system decides it: reopening
      the device failed, the command could not be initiated, or it completed.
      A command that fails may leave anything in its part of the destination. */
  datatype Attempt = ReopenFailed(rc: int) | NotInitiated(rc: int) | Completed(rc: int, junk: seq<byte>)

  // A failure has a status.
  predicate Sound(attempts: seq<Attempt>) {
    forall i :: 0 <= i < |attempts| && !attempts[i].Completed? ==> attempts[i].rc != 0
  }

  /** Success, a failure, or no outcome yet for the attempts that were given */
  datatype Result = Done | Failed(rc: int) | Waiting

  /** A command: starting block, number of blocks, and offset in the buffer */
  datatype Fragment = Fragment(lba: int, count: int, buffer: int)

  // ---- The fragments of a request -----------------------------------------

  function Min(a: int, b: int): int {
    if a < b then a else b
  }

  function Fragments(lba: int, remaining: nat, max: nat, buffer: int, blksize: nat): seq<Fragment>
    requires max >= 1
    decreases remaining
  {
    if remaining == 0 then []
    else
      var n := Min(max, remaining);
      [Fragment(lba, n, buffer)] + Fragments(lba + n, remaining - n, max, buffer + n * blksize, blksize)
  }

  // The fragments follow one another without a gap or an overlap, from the
  // first block to the last, each within the limit.
  lemma {:induction false} FragmentsTile(lba: int, remaining: nat, max: nat, buffer: int, blksize: nat)
    requires max >= 1
    ensures var f := Fragments(lba, remaining, max, buffer, blksize);
            && (f == [] <==> remaining == 0)
            && (forall i :: 0 <= i < |f| ==> 1 <= f[i].count <= max)
            && (f != [] ==> f[0].lba == lba && f[|f| - 1].lba + f[|f| - 1].count == lba + remaining)
            && (forall i :: 0 <= i < |f| - 1 ==> f[i].lba + f[i].count == f[i + 1].lba)
    decreases remaining
  {
    if remaining > 0 {
      hide Fragments;
      var n := Min(max, remaining);
      NextFragment(lba, remaining, max, buffer, blksize);
      FragmentsTile(lba + n, remaining - n, max, buffer + n * blksize, blksize);
    }
  }

  // Each is at the place in the buffer that matches its blocks.
  lemma {:induction false} FragmentsPlace(lba: int, remaining: nat, max: nat, buffer: int, blksize: nat, i: nat)
    requires max >= 1 && i < |Fragments(lba, remaining, max, buffer, blksize)|
    ensures var f := Fragments(lba, remaining, max, buffer, blksize)[i];
            f.buffer - buffer == (f.lba - lba) * blksize
    decreases remaining
  {
    if remaining > 0 {
      hide Fragments;
      var n := Min(max, remaining);
      NextFragment(lba, remaining, max, buffer, blksize);
      if i > 0 {
        var f := Fragments(lba, remaining, max, buffer, blksize)[i];
        FragmentsPlace(lba + n, remaining - n, max, buffer + n * blksize, blksize, i - 1);
        Distribute(f.lba - (lba + n), n, blksize);
      }
    }
  }

  /** What every fragment of a request has in common */
  datatype Setup = Setup(blksize: nat, maxCount: nat, attempts: seq<Attempt>, retryLimit: nat, paths: nat)

  // ---- One command --------------------------------------------------------

  // Only the given part of the array differs.
  twostate predicate Only(a: array<byte>, at: int, len: int)
    reads a
  {
    forall i :: 0 <= i < a.Length && !(at <= i < at + len) ==> a[i] == old(a[i])
  }

  ghost predicate Same(src: seq<byte>, s: int, dst: seq<byte>, d: int, len: int) {
    && 0 <= s && s + len <= |src| && 0 <= d && d + len <= |dst|
    && forall j :: d <= j < d + len ==> dst[j] == src[s + (j - d)]
  }

  // The transfer itself, when it succeeds
  method Copy(src: array<byte>, s: int, dst: array<byte>, d: int, len: nat)
    requires src != dst && 0 <= s && s + len <= src.Length && 0 <= d && d + len <= dst.Length
    modifies dst
    ensures Same(src[..], s, dst[..], d, len) && Only(dst, d, len)
  {
    for k := 0 to len
      invariant forall j :: d <= j < d + k ==> dst[j] == src[s + (j - d)]
      invariant Only(dst, d, len)
    {
      dst[d + k] := src[s + k];
    }
  }

  method Scribble(dst: array<byte>, d: int, len: nat, junk: seq<byte>)
    requires 0 <= d && d + len <= dst.Length
    modifies dst
    ensures Only(dst, d, len)
  {
    for k := 0 to Min(len, |junk|)
      invariant Only(dst, d, len)
    {
      dst[d + k] := junk[k];
    }
  }

  // Where a command takes its bytes from: memory, if it writes to the disk
  function Source(write: bool, blksize: nat, f: Fragment): int {
    if write then f.buffer else f.lba * blksize
  }

  function Target(write: bool, blksize: nat, f: Fragment): int {
    if write then f.lba * blksize else f.buffer
  }

  // The bytes of the command lie within the two arrays.
  ghost predicate Within(write: bool, blksize: nat, f: Fragment, src: nat, dst: nat) {
    && 0 <= f.count * blksize
    && 0 <= Source(write, blksize, f) && Source(write, blksize, f) + f.count * blksize <= src
    && 0 <= Target(write, blksize, f) && Target(write, blksize, f) + f.count * blksize <= dst
  }

  // The command has been carried out.
  ghost predicate Moved(write: bool, blksize: nat, f: Fragment, src: seq<byte>, dst: seq<byte>) {
    Same(src, Source(write, blksize, f), dst, Target(write, blksize, f), f.count * blksize)
  }

  predicate Good(a: Attempt) {
    a.Completed? && a.rc == 0
  }

  // An attempt that uses up a retry. Reopening a device that has more than one
  // path may fail any number of times.
  predicate Costs(setup: Setup, a: Attempt) {
    !Good(a) && (a.ReopenFailed? ==> setup.paths <= 1)
  }

  // The retries used up by the attempts from one up to, but without, another
  function Losses(setup: Setup, from: int, end: int): nat
    requires 0 <= from <= end <= |setup.attempts|
    decreases end - from
  {
    if end == from then 0 else Losses(setup, from, end - 1) + if Costs(setup, setup.attempts[end - 1]) then 1 else 0
  }

  ghost predicate NoneGood(setup: Setup, from: int, end: int)
    requires 0 <= from <= end <= |setup.attempts|
  {
    forall i :: from <= i < end ==> !Good(setup.attempts[i])
  }

  // Attempt n is the first to succeed, and no more retries than the limit were
  // used up before it.
  ghost predicate Recovers(setup: Setup, from: nat, n: int) {
    && from <= n < |setup.attempts| && Good(setup.attempts[n])
    && NoneGood(setup, from, n) && Losses(setup, from, n) <= setup.retryLimit
  }

  // Attempt n uses up one retry more than the limit.
  ghost predicate GivesUp(setup: Setup, from: nat, n: int) {
    && from <= n < |setup.attempts| && Costs(setup, setup.attempts[n])
    && NoneGood(setup, from, n) && Losses(setup, from, n) == setup.retryLimit
  }

  lemma {:induction false} LossesGrow(setup: Setup, from: int, mid: int, end: int)
    requires 0 <= from <= mid <= end <= |setup.attempts|
    ensures Losses(setup, from, mid) <= Losses(setup, from, end)
    decreases end - mid
  {
    if mid < end {
      LossesGrow(setup, from, mid, end - 1);
    }
  }

  // There is at most one outcome.
  lemma OneOutcome(setup: Setup, from: nat, n: int, m: int)
    requires Recovers(setup, from, n)
    ensures Recovers(setup, from, m) ==> m == n
    ensures !GivesUp(setup, from, m)
  {
    if GivesUp(setup, from, m) && m < n {
      LossesGrow(setup, from, m + 1, n);
    }
  }

  lemma OnlyOutcome(setup: Setup, from: nat, n: int)
    requires Recovers(setup, from, n)
    ensures forall m :: Recovers(setup, from, m) ==> m == n
  {
    forall m | Recovers(setup, from, m)
      ensures m == n
    {
      OneOutcome(setup, from, n, m);
    }
  }

  // The attempt that a command completes at, if it does
  ghost function Recovery(setup: Setup, from: nat): (r: Option<nat>)
    ensures r.Some? ==> Recovers(setup, from, r.value)
    ensures forall n :: Recovers(setup, from, n) ==> r == Some(n)
  {
    if exists n: nat :: Recovers(setup, from, n) then
      var n: nat :| Recovers(setup, from, n);
      OnlyOutcome(setup, from, n);
      Some(n)
    else None
  }

  // The attempt after those for k commands, if all of them complete
  ghost function Served(setup: Setup, from: nat, k: nat): Option<nat>
    decreases k
  {
    if k == 0 then Some(from)
    else
      match Recovery(setup, from)
      case None => None
      case Some(n) => Served(setup, n + 1, k - 1)
  }

  // sandev_command(), from the given attempt on, for a read or write command
  method Command(setup: Setup, from: nat, write: bool, f: Fragment, src: array<byte>, dst: array<byte>)
      returns (r: Result, next: nat, ghost initiated: nat)
    requires from <= |setup.attempts| && Sound(setup.attempts) && src != dst
    requires Within(write, setup.blksize, f, src.Length, dst.Length)
    modifies dst
    ensures from <= next <= |setup.attempts|
    ensures Only(dst, Target(write, setup.blksize, f), f.count * setup.blksize)
    ensures initiated <= setup.retryLimit + 1
    ensures r == Done ==> initiated >= 1 && Moved(write, setup.blksize, f, src[..], dst[..])
    ensures r == Waiting ==> next == |setup.attempts|
    ensures r.Failed? ==> r.rc != 0 && (setup.paths > 1 ==> initiated == setup.retryLimit + 1)
    // Exactly when it succeeds, and when it fails and with which status
    ensures r == Done ==> next > 0 && Recovery(setup, from) == Some(next - 1)
    ensures r != Done ==> Recovery(setup, from) == None
    ensures r.Failed? ==> next > 0 && GivesUp(setup, from, next - 1) && r.rc == setup.attempts[next - 1].rc
    ensures r == Waiting ==> NoneGood(setup, from, next) && Losses(setup, from, next) <= setup.retryLimit
  {
    next := from;
    initiated := 0;
    var s, d, len := Source(write, setup.blksize, f), Target(write, setup.blksize, f), f.count * setup.blksize;
    var retries, rc := 0, 0;
    while next < |setup.attempts|
      invariant from <= next <= |setup.attempts| && Only(dst, d, len)
      invariant NoneGood(setup, from, next) && Losses(setup, from, next) == retries
      invariant initiated <= retries <= setup.retryLimit && (setup.paths > 1 ==> initiated == retries)
    {
      var attempt := setup.attempts[next];
      next := next + 1;
      match attempt {
        case ReopenFailed(why) =>
          rc := why;
          if setup.paths <= 1 {
            retries := retries + 1;
          }
        case NotInitiated(why) =>
          rc := why;
          initiated := initiated + 1;
          retries := retries + 1;
        case Completed(status, junk) =>
          initiated := initiated + 1;
          if status == 0 {
            Copy(src, s, dst, d, len);
            assert Recovers(setup, from, next - 1);
            return Done, next, initiated;
          }
          Scribble(dst, d, len, junk);
          rc := status;
          retries := retries + 1;
      }
      if retries > setup.retryLimit {
        NoRecovery(setup, from, next);
        return Failed(rc), next, initiated;
      }
    }
    r := Waiting;
  }

  lemma NoRecovery(setup: Setup, from: nat, next: nat)
    requires from < next <= |setup.attempts| && NoneGood(setup, from, next)
    requires Losses(setup, from, next) > setup.retryLimit
    ensures Recovery(setup, from) == None
  {
    match Recovery(setup, from)
    case None =>
    case Some(n) =>
      LossesGrow(setup, from, next, n);
      assert false;
  }

  // ---- A whole request ----------------------------------------------------

  // The fragments one after another. All of those issued before the last one,
  // and that one too if there was no failure, have been carried out.
  method Transfer(setup: Setup, write: bool, lba0: nat, total: nat, buffer0: nat, src: array<byte>, dst: array<byte>)
      returns (r: Result, ghost issued: seq<Fragment>, ghost tries: seq<nat>)
    requires setup.maxCount >= 1 && Sound(setup.attempts) && src != dst
    requires Within(write, setup.blksize, Fragment(lba0, total, buffer0), src.Length, dst.Length)
    modifies dst
    ensures Only(dst, Target(write, setup.blksize, Fragment(lba0, total, buffer0)), total * setup.blksize)
    ensures issued <= Fragments(lba0, total, setup.maxCount, buffer0, setup.blksize)
    ensures |tries| == |issued| && forall i :: 0 <= i < |tries| ==> tries[i] <= setup.retryLimit + 1
    ensures forall i :: 0 <= i < |issued| - 1 ==> Moved(write, setup.blksize, issued[i], src[..], dst[..])
    ensures r == Done ==>
              && issued == Fragments(lba0, total, setup.maxCount, buffer0, setup.blksize)
              && (forall i :: 0 <= i < |tries| ==> tries[i] >= 1)
              && Moved(write, setup.blksize, Fragment(lba0, total, buffer0), src[..], dst[..])
    ensures r == Done <==> Served(setup, 0, |Fragments(lba0, total, setup.maxCount, buffer0, setup.blksize)|).Some?
    ensures r.Failed? ==> r.rc != 0
  {
    hide Fragments, Same, Source, Target, Moved, Before, Within, Recovery, GivesUp, NoneGood, Losses;
    var remaining, lba, buffer, count, next := total, lba0, buffer0, setup.maxCount, 0;
    ghost var all := Fragments(lba0, total, setup.maxCount, buffer0, setup.blksize);
    ghost var whole := Fragment(lba0, total, buffer0);
    issued, tries := [], [];
    while remaining > 0
      invariant 0 <= remaining <= total && 0 <= next <= |setup.attempts|
      invariant lba == lba0 + (total - remaining) && buffer == buffer0 + (total - remaining) * setup.blksize
      invariant remaining > 0 ==> Min(count, remaining) == Min(setup.maxCount, remaining)
      invariant all == issued + Fragments(lba, remaining, setup.maxCount, buffer, setup.blksize)
      invariant Served(setup, 0, |all|) == Served(setup, next, |all| - |issued|)
      invariant |tries| == |issued| && forall i :: 0 <= i < |tries| ==> 1 <= tries[i] <= setup.retryLimit + 1
      invariant Only(dst, Target(write, setup.blksize, whole), total * setup.blksize)
      invariant forall i :: 0 <= i < |issued| ==> Moved(write, setup.blksize, issued[i], src[..], dst[..])
      invariant forall i :: 0 <= i < |issued| ==>
                              Before(write, setup.blksize, issued[i], Fragment(lba, remaining, buffer))
    {
      if count > remaining {
        count := remaining;
      }
      ghost var n: nat;
      var f := Fragment(lba, count, buffer);
      ghost var rest := Fragment(lba + count, remaining - count, buffer + count * setup.blksize);
      Pieces(total, remaining, count, setup.blksize);
      Piece(write, setup.blksize, lba0, buffer0, total, remaining, count, src.Length, dst.Length);
      NextFragment(lba, remaining, setup.maxCount, buffer, setup.blksize);
      ghost var before := dst[..];
      r, next, n := Command(setup, next, write, f, src, dst);
      forall i | 0 <= i < |issued|
        ensures Moved(write, setup.blksize, issued[i], src[..], dst[..])
        ensures Before(write, setup.blksize, issued[i], rest)
      {
        StillMoved(write, setup.blksize, issued[i], Fragment(lba, remaining, buffer), f, src[..], before, dst[..]);
        Later(write, setup.blksize, issued[i], Fragment(lba, remaining, buffer), count);
      }
      Follows(write, setup.blksize, Fragment(lba, remaining, buffer), count);
      issued, tries := issued + [f], tries + [n];
      if r != Done {
        return;
      }
      buffer := buffer + count * setup.blksize;
      lba := lba + count;
      remaining := remaining - count;
    }
    NoFragments(lba, setup.maxCount, buffer, setup.blksize);
    Assembled(write, setup.blksize, lba0, total, setup.maxCount, buffer0, src[..], dst[..]);
    r := Done;
  }

  // The bytes written by f end where those written by g begin, or before.
  ghost predicate Before(write: bool, blksize: nat, f: Fragment, g: Fragment) {
    Target(write, blksize, f) + f.count * blksize <= Target(write, blksize, g)
  }

  lemma Later(write: bool, blksize: nat, f: Fragment, g: Fragment, count: nat)
    requires Before(write, blksize, f, g)
    ensures Before(write, blksize, f, Fragment(g.lba + count, g.count - count, g.buffer + count * blksize))
  {
    Distribute(g.lba, count, blksize);
    MulMono(0, count, blksize);
  }

  lemma Follows(write: bool, blksize: nat, g: Fragment, count: nat)
    ensures Before(write, blksize, Fragment(g.lba, count, g.buffer),
                   Fragment(g.lba + count, g.count - count, g.buffer + count * blksize))
  {
    Distribute(g.lba, count, blksize);
    MulMono(0, count, blksize);
  }

  lemma StillMoved(write: bool, blksize: nat, f: Fragment, g: Fragment, h: Fragment,
                   src: seq<byte>, before: seq<byte>, after: seq<byte>)
    requires |after| == |before| && Moved(write, blksize, f, src, before) && Before(write, blksize, f, g)
    requires h.lba == g.lba && h.buffer == g.buffer
    requires var at := Target(write, blksize, h);
             forall j :: 0 <= j < |before| && !(at <= j < at + h.count * blksize) ==> after[j] == before[j]
    ensures Moved(write, blksize, f, src, after)
  {
  }

  // A fragment of a request lies within it.
  lemma Piece(write: bool, blksize: nat, lba: nat, buffer: nat, total: nat, remaining: nat, count: nat,
              src: nat, dst: nat)
    requires count <= remaining <= total && Within(write, blksize, Fragment(lba, total, buffer), src, dst)
    ensures var done := total - remaining;
            var f := Fragment(lba + done, count, buffer + done * blksize);
            var whole := Fragment(lba, total, buffer);
            && Within(write, blksize, f, src, dst)
            && Target(write, blksize, whole) <= Target(write, blksize, f)
            && Target(write, blksize, f) + count * blksize <= Target(write, blksize, whole) + total * blksize
  {
    Pieces(total, remaining, count, blksize);
    Distribute(lba, total - remaining, blksize);
  }

  // The fragments cover every block of the request.
  lemma {:induction false} Covered(f: seq<Fragment>, lba: int, end: int, block: int) returns (i: nat)
    requires f != [] && f[0].lba == lba && f[|f| - 1].lba + f[|f| - 1].count == end
    requires forall i :: 0 <= i < |f| - 1 ==> f[i].lba + f[i].count == f[i + 1].lba
    requires lba <= block < end
    ensures i < |f| && f[i].lba <= block < f[i].lba + f[i].count
    decreases |f|
  {
    if block < f[0].lba + f[0].count {
      i := 0;
    } else {
      assert |f| > 1;
      var rest := f[1..];
      assert forall k :: 0 <= k < |rest| ==> rest[k] == f[k + 1];
      i := Covered(rest, rest[0].lba, end, block);
      i := i + 1;
    }
  }

  // When all of its fragments have been carried out, so has the request.
  lemma Assembled(write: bool, blksize: nat, lba: nat, total: nat, max: nat, buffer: nat,
                  src: seq<byte>, dst: seq<byte>)
    requires max >= 1 && Within(write, blksize, Fragment(lba, total, buffer), |src|, |dst|)
    requires var f := Fragments(lba, total, max, buffer, blksize);
             forall i :: 0 <= i < |f| ==> Moved(write, blksize, f[i], src, dst)
    ensures Moved(write, blksize, Fragment(lba, total, buffer), src, dst)
  {
    hide Moved, Fragments;
    var whole := Fragment(lba, total, buffer);
    var s, d, len := Source(write, blksize, whole), Target(write, blksize, whole), total * blksize;
    forall j | d <= j < d + len
      ensures dst[j] == src[s + (j - d)]
    {
      AssembledAt(write, blksize, lba, total, max, buffer, src, dst, j - d);
    }
    IsMoved(write, blksize, whole, src, dst);
  }

  lemma IsMoved(write: bool, blksize: nat, f: Fragment, src: seq<byte>, dst: seq<byte>)
    requires Within(write, blksize, f, |src|, |dst|)
    requires var s, d := Source(write, blksize, f), Target(write, blksize, f);
             forall j :: d <= j < d + f.count * blksize ==> dst[j] == src[s + (j - d)]
    ensures Moved(write, blksize, f, src, dst)
  {
  }

  lemma AssembledAt(write: bool, blksize: nat, lba: nat, total: nat, max: nat, buffer: nat,
                    src: seq<byte>, dst: seq<byte>, k: nat)
    requires max >= 1 && Within(write, blksize, Fragment(lba, total, buffer), |src|, |dst|) && k < total * blksize
    requires var f := Fragments(lba, total, max, buffer, blksize);
             forall i :: 0 <= i < |f| ==> Moved(write, blksize, f[i], src, dst)
    ensures var whole := Fragment(lba, total, buffer);
            dst[Target(write, blksize, whole) + k] == src[Source(write, blksize, whole) + k]
  {
    hide Fragments, Moved;
    var f := Fragments(lba, total, max, buffer, blksize);
    var block := lba + k / blksize;
    BlockOf(k, total, blksize);
    FragmentsTile(lba, total, max, buffer, blksize);
    var i := Covered(f, lba, lba + total, block);
    FragmentsPlace(lba, total, max, buffer, blksize, i);
    ByteOf(f[i].lba - lba, f[i].count, k, blksize);
    Distribute(lba, f[i].lba - lba, blksize);
    MovedAt(write, blksize, f[i], src, dst, k - (f[i].lba - lba) * blksize);
  }

  lemma BlockOf(k: nat, total: nat, blksize: nat)
    requires k < total * blksize
    ensures blksize > 0 && 0 <= k / blksize < total
  {
    Quotient(k, blksize);
    if k / blksize >= total {
      MulMono(total, k / blksize, blksize);
      assert false;
    }
  }

  // A byte of a block of the fragment is a byte of the fragment.
  lemma ByteOf(first: int, count: int, k: nat, blksize: nat)
    requires blksize > 0 && first <= k / blksize < first + count
    ensures first * blksize <= k < first * blksize + count * blksize
  {
    MulMono(first, k / blksize, blksize);
    MulMono(k / blksize + 1, first + count, blksize);
    Distribute(k / blksize, 1, blksize);
    Distribute(first, count, blksize);
  }

  lemma MovedAt(write: bool, blksize: nat, f: Fragment, src: seq<byte>, dst: seq<byte>, x: nat)
    requires Moved(write, blksize, f, src, dst) && x < f.count * blksize
    ensures 0 <= Target(write, blksize, f) && Target(write, blksize, f) + x < |dst|
    ensures 0 <= Source(write, blksize, f) && Source(write, blksize, f) + x < |src|
    ensures dst[Target(write, blksize, f) + x] == src[Source(write, blksize, f) + x]
  {
  }

  lemma NoFragments(lba: int, max: nat, buffer: int, blksize: nat)
    requires max >= 1
    ensures Fragments(lba, 0, max, buffer, blksize) == []
  {
  }

  lemma NextFragment(lba: int, remaining: nat, max: nat, buffer: int, blksize: nat)
    requires max >= 1 && remaining > 0
    ensures var n := Min(max, remaining);
            Fragments(lba, remaining, max, buffer, blksize) ==
            [Fragment(lba, n, buffer)] + Fragments(lba + n, remaining - n, max, buffer + n * blksize, blksize)
  {
  }

  // The bytes of a fragment lie within those of the request.
  lemma Pieces(total: nat, remaining: nat, count: nat, blksize: nat)
    requires count <= remaining <= total
    ensures 0 <= (total - remaining) * blksize && 0 <= count * blksize
    ensures (total - remaining) * blksize + count * blksize <= total * blksize
    ensures (total - (remaining - count)) * blksize == (total - remaining) * blksize + count * blksize
  {
    Distribute(total - remaining, count, blksize);
    MulMono(total - remaining + count, total, blksize);
    MulMono(0, total - remaining, blksize);
    MulMono(0, count, blksize);
  }

  // sandev_rw(): a request of `count` blocks, to or from the disk
  method ReadWrite(setup: Setup, write: bool, lba: nat, count: nat, shift: nat,
                   disk: array<byte>, buffer: array<byte>, start: nat)
      returns (r: Result, ghost issued: seq<Fragment>, ghost tries: seq<nat>)
    requires setup.maxCount >= 1 && Sound(setup.attempts) && disk != buffer
    requires (Shl(lba, shift) + Shl(count, shift)) * setup.blksize <= disk.Length
    requires start + Shl(count, shift) * setup.blksize <= buffer.Length
    modifies disk, buffer
    ensures if write then unchanged(buffer) else unchanged(disk)
    ensures write ==> Only(disk, Shl(lba, shift) * setup.blksize, Shl(count, shift) * setup.blksize)
    ensures !write ==> Only(buffer, start, Shl(count, shift) * setup.blksize)
    ensures issued <= Fragments(Shl(lba, shift), Shl(count, shift), setup.maxCount, start, setup.blksize)
    ensures |tries| == |issued| && forall i :: 0 <= i < |tries| ==> tries[i] <= setup.retryLimit + 1
    ensures r == Done ==>
              && issued == Fragments(Shl(lba, shift), Shl(count, shift), setup.maxCount, start, setup.blksize)
              && (forall i :: 0 <= i < |tries| ==> tries[i] >= 1)
              && if write
                 then Same(buffer[..], start, disk[..], Shl(lba, shift) * setup.blksize, Shl(count, shift) * setup.blksize)
                 else Same(disk[..], Shl(lba, shift) * setup.blksize, buffer[..], start, Shl(count, shift) * setup.blksize)
    ensures var f := Fragments(Shl(lba, shift), Shl(count, shift), setup.maxCount, start, setup.blksize);
            r == Done <==> Served(setup, 0, |f|).Some?
    ensures r.Failed? ==> r.rc != 0
  {
    hide Shl, Fragments, Same, Only, Served;
    Distribute(Shl(lba, shift), Shl(count, shift), setup.blksize);
    MulMono(0, Shl(lba, shift), setup.blksize);
    MulMono(0, Shl(count, shift), setup.blksize);
    if write {
      r, issued, tries := Transfer(setup, true, Shl(lba, shift), Shl(count, shift), start, buffer, disk);
    } else {
      r, issued, tries := Transfer(setup, false, Shl(lba, shift), Shl(count, shift), start, disk, buffer);
    }
  }
}
