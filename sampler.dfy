/**
 * Summation of the cumulative read-byte counters of a process snapshot
 * (`get_total_read_bytes`). A process whose counter query fails because it
 * vanished or because access was denied contributes nothing, and the loop
 * goes on with the next one.
 */
module Sampler {
  import opened Processes

  /** What one process adds to the total. */
  function Contribution(h: Host, p: Pid): nat
  {
    match h.counter(p)
    case ReadBytes(n) => n
    case CounterGone => 0
    case CounterDenied => 0
  }

  /** The sum of the contributions, in the order the loop visits them. */
  function Total(h: Host, procs: seq<Pid>): nat
  {
    if procs == [] then 0 else Total(h, procs[..|procs| - 1]) + Contribution(h, procs[|procs| - 1])
  }

  /** The accumulator loop over the snapshot. */
  method TotalReadBytes(h: Host, procs: seq<Pid>) returns (total: nat)
    ensures total == Total(h, procs)
  {
    total := 0;
    for i := 0 to |procs|
      invariant total == Total(h, procs[..i])
    {
      assert procs[..i + 1][..i] == procs[..i];
      match h.counter(procs[i]) {
        case ReadBytes(n) =>
          total := total + n;
        case CounterGone =>
        case CounterDenied =>
      }
    }
    assert procs[..|procs|] == procs;
  }

  /** One poll's sample: the total over the tree snapshot under `root`. */
  function SampleOf(h: Host, root: Pid): nat
  {
    Total(h, Related(h, root))
  }

  /** Totals add up over a split of the snapshot. */
  lemma {:induction false} TotalAppend(h: Host, a: seq<Pid>, b: seq<Pid>)
    ensures Total(h, a + b) == Total(h, a) + Total(h, b)
  {
    if b == [] {
      assert a + b == a;
    } else {
      var b' := b[..|b| - 1];
      assert (a + b)[..|a + b| - 1] == a + b';
      assert (a + b)[|a + b| - 1] == b[|b| - 1];
      TotalAppend(h, a, b');
    }
  }

  /** A process whose query fails leaves the total as it was, wherever it
      sits in the snapshot. */
  lemma FailingProcessAddsNothing(h: Host, a: seq<Pid>, p: Pid, b: seq<Pid>)
    requires !h.counter(p).ReadBytes?
    ensures Total(h, a + [p] + b) == Total(h, a + b)
    ensures Total(h, a + [p]) == Total(h, a)
    ensures Total(h, [p] + b) == Total(h, b)
  {
    assert Total(h, [p]) == Total(h, []) + Contribution(h, p);
    TotalAppend(h, a, [p]);
    TotalAppend(h, [p], b);
    TotalAppend(h, a + [p], b);
    TotalAppend(h, a, b);
  }

  /** The processes whose counter query succeeds, each occurrence kept, in order. */
  function Readable(h: Host, procs: seq<Pid>): (r: seq<Pid>)
    ensures forall i :: 0 <= i < |r| ==> h.counter(r[i]).ReadBytes?
    ensures forall p :: p in procs && h.counter(p).ReadBytes? ==> p in r
    ensures forall p :: p in r ==> p in procs
    ensures forall p :: h.counter(p).ReadBytes? ==> multiset(r)[p] == multiset(procs)[p]
    ensures forall p :: !h.counter(p).ReadBytes? ==> multiset(r)[p] == 0
  {
    if procs == [] then []
    else
      assert multiset(procs) == multiset{procs[0]} + multiset(procs[1..]) by {
        assert procs == [procs[0]] + procs[1..];
      }
      if h.counter(procs[0]).ReadBytes? then [procs[0]] + Readable(h, procs[1..])
      else Readable(h, procs[1..])
  }

  /** The total is exactly the sum of the counters of the processes whose
      query succeeded: removing every failing process changes nothing. */
  lemma {:induction false} TotalOverReadable(h: Host, procs: seq<Pid>)
    ensures Total(h, procs) == Total(h, Readable(h, procs))
  {
    if procs != [] {
      TotalOverReadable(h, procs[1..]);
      assert procs == [procs[0]] + procs[1..];
      TotalAppend(h, [procs[0]], procs[1..]);
      assert Total(h, [procs[0]]) == Total(h, []) + Contribution(h, procs[0]);
      if h.counter(procs[0]).ReadBytes? {
        TotalAppend(h, [procs[0]], Readable(h, procs[1..]));
      }
    }
  }

  /** The total does not depend on the order in which the processes are visited. */
  lemma {:induction false} TotalPermutation(h: Host, a: seq<Pid>, b: seq<Pid>)
    requires multiset(a) == multiset(b)
    ensures Total(h, a) == Total(h, b)
  {
    if a != [] {
      var x := a[|a| - 1];
      var a' := a[..|a| - 1];
      assert a == a' + [x];
      assert x in multiset(b);
      var k :| 0 <= k < |b| && b[k] == x;
      var b' := b[..k] + b[k + 1..];
      assert b == b[..k] + [x] + b[k + 1..];
      assert multiset(a) == multiset(a') + multiset{x};
      assert multiset(b) == multiset(b[..k]) + multiset{x} + multiset(b[k + 1..]);
      assert multiset(b') == multiset(b[..k]) + multiset(b[k + 1..]);
      assert multiset(a') == multiset(a) - multiset{x};
      assert multiset(b') == multiset(b) - multiset{x};
      TotalPermutation(h, a', b');
      TotalAppend(h, a', [x]);
      TotalAppend(h, b[..k] + [x], b[k + 1..]);
      TotalAppend(h, b[..k], [x]);
      TotalAppend(h, b[..k], b[k + 1..]);
      assert Total(h, [x]) == Total(h, []) + Contribution(h, x);
    }
  }

  /** Every readable process is counted in full: the total is at least its counter. */
  lemma {:induction false} TotalCountsEachReadable(h: Host, procs: seq<Pid>, i: nat)
    requires i < |procs| && h.counter(procs[i]).ReadBytes?
    ensures Total(h, procs) >= h.counter(procs[i]).bytes
  {
    assert procs == procs[..i] + [procs[i]] + procs[i + 1..];
    TotalAppend(h, procs[..i] + [procs[i]], procs[i + 1..]);
    TotalAppend(h, procs[..i], [procs[i]]);
    assert Total(h, [procs[i]]) == Total(h, []) + Contribution(h, procs[i]);
  }

  /** When no query succeeds the total is zero. */
  lemma {:induction false} TotalAllFailing(h: Host, procs: seq<Pid>)
    requires forall i :: 0 <= i < |procs| ==> !h.counter(procs[i]).ReadBytes?
    ensures Total(h, procs) == 0
  {
    if procs != [] {
      TotalAllFailing(h, procs[..|procs| - 1]);
    }
  }

  /** The root having vanished (its listing and its counter both report
      `NoSuchProcess`) shows up as a sample of zero, not as an error. */
  lemma VanishedRootSamplesZero(h: Host, root: Pid)
    requires h.listing(root).ListingGone? && h.counter(root).CounterGone?
    ensures Related(h, root) == [root]
    ensures SampleOf(h, root) == 0
  {
    assert Total(h, [root]) == Total(h, []) + Contribution(h, root);
  }

  /** Between two polls the per-process counters only grow, yet the sample
      can fall: when a child that had read bytes exits, its contribution
      leaves the total even though the root kept reading. */
  lemma ExitingChildLowersSample()
    ensures var before := Host(p => if p == 1 then Descendants([2]) else ListingGone,
                               p => if p == 1 then ReadBytes(100) else if p == 2 then ReadBytes(5000) else CounterGone);
            var after := Host(p => if p == 1 then Descendants([]) else ListingGone,
                              p => if p == 1 then ReadBytes(2100) else CounterGone);
            SampleOf(after, 1) < SampleOf(before, 1)
  {
  }
}
