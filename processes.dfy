/**
 * The operating system as the watchdog sees it, and the two queries it makes
 * of it before summing counters: looking a process up by name in the process
 * table (`find_process_by_name`) and taking a snapshot of the process tree
 * under the monitored root (`get_all_related_procs`).
 *
 * The OS is not modelled: each poll sees a `Host`, an oracle that answers
 * "list the recursive children of this pid" and "read this pid's
 * cumulative read-byte counter" with either an answer or the exception the
 * process library would raise.
 */
module Processes {
  import opened Wrappers

  type Pid = nat

  /** One entry of the process table, as the name-only process iterator yields it.
      The name is absent when the OS would not give it. */
  datatype ProcEntry = ProcEntry(pid: Pid, name: Option<string>)

  /** Answer to "list all descendants of this process": the list, or the
      process vanished (`NoSuchProcess`). */
  datatype Listing = Descendants(pids: seq<Pid>) | ListingGone

  /** Answer to "read this process's I/O counters": the cumulative number of
      bytes read, or one of the two failures the sampler tolerates. */
  datatype Counter = ReadBytes(bytes: nat) | CounterGone | CounterDenied

  /** What the OS answers during one poll. */
  datatype Host = Host(listing: Pid -> Listing, counter: Pid -> Counter)

  // ---------------------------------------------------------------------------
  // Process lookup
  // ---------------------------------------------------------------------------

  /** ASCII lower-casing of one character. */
  function LowerChar(c: char): char
  {
    if 'A' <= c <= 'Z' then (c as int + ('a' as int - 'A' as int)) as char else c
  }

  /** Lower-casing of a name, character by character. */
  function Lower(s: string): string
  {
    seq(|s|, i requires 0 <= i < |s| => LowerChar(s[i]))
  }

  /** A table entry is the one searched for when it has a non-empty name
      equal to the target once both are lower-cased. */
  predicate NameMatches(name: Option<string>, target: string)
  {
    name.Some? && name.value != [] && Lower(name.value) == Lower(target)
  }

  /** The position of the first matching entry in enumeration order. */
  function FirstMatchIndex(table: seq<ProcEntry>, target: string): (r: Option<nat>)
    ensures r.Some? ==> r.value < |table| && NameMatches(table[r.value].name, target)
    ensures r.Some? ==> forall j :: 0 <= j < r.value ==> !NameMatches(table[j].name, target)
    ensures r.None? <==> forall j :: 0 <= j < |table| ==> !NameMatches(table[j].name, target)
  {
    if table == [] then None
    else if NameMatches(table[0].name, target) then Some(0)
    else match FirstMatchIndex(table[1..], target)
      case None => None
      case Some(k) => Some(k + 1)
  }

  /** The entry the lookup returns, if any. */
  function FirstMatch(table: seq<ProcEntry>, target: string): Option<ProcEntry>
  {
    match FirstMatchIndex(table, target)
    case None => None
    case Some(k) => Some(table[k])
  }

  /** Linear search over the process table with an early return. */
  method FindProcessByName(table: seq<ProcEntry>, target: string) returns (r: Option<ProcEntry>)
    ensures r == FirstMatch(table, target)
    ensures r.Some? ==> exists i :: 0 <= i < |table| && table[i] == r.value
                                    && NameMatches(table[i].name, target)
                                    && forall j :: 0 <= j < i ==> !NameMatches(table[j].name, target)
    ensures r.None? <==> forall j :: 0 <= j < |table| ==> !NameMatches(table[j].name, target)
  {
    for i := 0 to |table|
      invariant forall j :: 0 <= j < i ==> !NameMatches(table[j].name, target)
    {
      if table[i].name.Some? && table[i].name.value != [] && Lower(table[i].name.value) == Lower(target) {
        FirstMatchIndexAt(table, target, i);
        return Some(table[i]);
      }
    }
    return None;
  }

  /** If entry `i` matches and none before it does, the search stops at `i`. */
  lemma FirstMatchIndexAt(table: seq<ProcEntry>, target: string, i: nat)
    requires i < |table| && NameMatches(table[i].name, target)
    requires forall j :: 0 <= j < i ==> !NameMatches(table[j].name, target)
    ensures FirstMatchIndex(table, target) == Some(i)
  {
  }

  /** Lower-casing twice is lower-casing once. */
  lemma LowerIdempotent(s: string)
    ensures Lower(Lower(s)) == Lower(s)
  {
  }

  /** The match is on the whole name: a name of a different length never
      matches, so a target that is only a part of a process's name does not
      select it. */
  lemma MatchIsWholeName(name: string, target: string)
    requires NameMatches(Some(name), target)
    ensures |name| == |target|
    ensures forall i :: 0 <= i < |name| ==> LowerChar(name[i]) == LowerChar(target[i])
  {
    assert |Lower(name)| == |Lower(target)|;
    forall i | 0 <= i < |name| ensures LowerChar(name[i]) == LowerChar(target[i]) {
      assert Lower(name)[i] == Lower(target)[i];
    }
  }

  /** The match ignores case on both sides. */
  lemma MatchIgnoresCase(name: string, target: string)
    ensures NameMatches(Some(name), target) <==> NameMatches(Some(Lower(name)), Lower(target))
  {
    LowerIdempotent(name);
    LowerIdempotent(target);
  }

  /** The search never stops at an entry with no name or an empty one,
      whatever the target. */
  lemma NamelessNeverMatches(table: seq<ProcEntry>, target: string, i: nat)
    requires i < |table| && (table[i].name == None || table[i].name == Some(""))
    ensures !NameMatches(table[i].name, target)
    ensures FirstMatchIndex(table, target) != Some(i)
  {
  }

  // ---------------------------------------------------------------------------
  // Process tree snapshot
  // ---------------------------------------------------------------------------

  /** The snapshot of the tree under `root` taken during one poll. */
  function Related(h: Host, root: Pid): (r: seq<Pid>)
    ensures |r| >= 1 && r[0] == root
    ensures h.listing(root).ListingGone? ==> r == [root]
    ensures h.listing(root).Descendants? ==> r[1..] == h.listing(root).pids
  {
    match h.listing(root)
    case Descendants(kids) => [root] + kids
    case ListingGone => [root]
  }

  /** Builds the list: the root first, then the descendants if they can be listed. */
  method RelatedProcs(h: Host, root: Pid) returns (procs: seq<Pid>)
    ensures procs == Related(h, root)
    ensures |procs| >= 1 && procs[0] == root
    ensures h.listing(root).ListingGone? ==> procs == [root]
  {
    procs := [];
    procs := procs + [root];
    match h.listing(root) {
      case Descendants(kids) =>
        procs := procs + kids;
      case ListingGone =>
    }
  }
}
