/** `remove_invalid_queues`: narrows the host list to the hosts this job may use.

    The allowed-queue set (from `GRID_QUEUES`, split at commas; empty when
    the variable is unset or empty) and the lines of the `.ignore_hosts` file
    (none when the file is missing) are parameters here. */
module Eligibility {
  import opened Hosts
  import opened Text

  /** `set(h['queues']) & allowed_queues` is non-empty. */
  predicate ServesQueue(h: Host, allowed: set<string>)
  {
    exists q :: q in h.queues && q in allowed
  }

  /** The comprehension that keeps the hosts serving an allowed queue. */
  function InQueues(hosts: seq<Host>, allowed: set<string>): (r: seq<Host>)
    ensures forall h :: h in r <==> h in hosts && ServesQueue(h, allowed)
  {
    if hosts == [] then []
    else (if ServesQueue(hosts[0], allowed) then [hosts[0]] else []) + InQueues(hosts[1..], allowed)
  }

  /** The comprehension that keeps the hosts whose name does not contain `s`. */
  function Without(hosts: seq<Host>, s: string): (r: seq<Host>)
    ensures forall h :: h in r <==> h in hosts && !Contains(h.name, s)
  {
    if hosts == [] then []
    else (if Contains(hosts[0].name, s) then [] else [hosts[0]]) + Without(hosts[1..], s)
  }

  /** The non-blank lines of the ignore file, in file order. */
  function IgnoreEntries(lines: seq<string>): (r: seq<string>)
    ensures forall s :: s in r <==> s in lines && s != []
  {
    if lines == [] then []
    else (if lines[0] != [] then [lines[0]] else []) + IgnoreEntries(lines[1..])
  }

  /** A host passes the queue step (skipped when `allowed` is empty) and
      contains none of the ignore entries in its name. */
  predicate Admissible(h: Host, allowed: set<string>, ignore: seq<string>)
  {
    && (allowed == {} || ServesQueue(h, allowed))
    && forall s :: s in ignore ==> !Contains(h.name, s)
  }

  /** Reference definition of the filter: the admissible hosts, in input order. */
  function Eligible(hosts: seq<Host>, allowed: set<string>, ignore: seq<string>): (r: seq<Host>)
    ensures |r| <= |hosts|
    ensures forall h :: h in r <==> h in hosts && Admissible(h, allowed, ignore)
  {
    if hosts == [] then []
    else (if Admissible(hosts[0], allowed, ignore) then [hosts[0]] else []) + Eligible(hosts[1..], allowed, ignore)
  }

  /** The filter as the tool runs it: the queue comprehension, then one
      comprehension per ignore entry, each rebinding the host list. */
  method RemoveInvalidQueues(hosts: seq<Host>, allowed: set<string>, ignoreLines: seq<string>)
    returns (kept: seq<Host>)
    ensures kept == Eligible(hosts, allowed, IgnoreEntries(ignoreLines))
  {
    kept := hosts;
    if allowed != {} {
      kept := InQueues(kept, allowed);
    }
    var ignore := IgnoreEntries(ignoreLines);
    QueueStep(hosts, allowed);
    for i := 0 to |ignore|
      invariant kept == Eligible(hosts, allowed, ignore[..i])
    {
      IgnorePrefixStep(hosts, allowed, ignore, i);
      kept := Without(kept, ignore[i]);
    }
    assert ignore[..|ignore|] == ignore;
  }

  /** Before any ignore entry is applied, the filter is the queue step alone. */
  lemma {:induction false} QueueStep(hosts: seq<Host>, allowed: set<string>)
    ensures Eligible(hosts, allowed, []) == if allowed == {} then hosts else InQueues(hosts, allowed)
  {
    if hosts != [] {
      QueueStep(hosts[1..], allowed);
      assert hosts == [hosts[0]] + hosts[1..];
    }
  }

  lemma IgnorePrefixStep(hosts: seq<Host>, allowed: set<string>, ignore: seq<string>, i: nat)
    requires i < |ignore|
    ensures Without(Eligible(hosts, allowed, ignore[..i]), ignore[i]) == Eligible(hosts, allowed, ignore[..i + 1])
  {
    IgnoreStep(hosts, allowed, ignore[..i], ignore[i]);
    assert ignore[..i + 1] == ignore[..i] + [ignore[i]];
  }

  /** Dropping the hosts that contain `s` adds `s` to the ignore entries. */
  lemma {:induction false} IgnoreStep(hosts: seq<Host>, allowed: set<string>, ignore: seq<string>, s: string)
    ensures Without(Eligible(hosts, allowed, ignore), s) == Eligible(hosts, allowed, ignore + [s])
  {
    if hosts != [] {
      var h := hosts[0];
      var head := if Admissible(h, allowed, ignore) then [h] else [];
      IgnoreStep(hosts[1..], allowed, ignore, s);
      WithoutConcat(head, Eligible(hosts[1..], allowed, ignore), s);
      assert Admissible(h, allowed, ignore + [s]) == (Admissible(h, allowed, ignore) && !Contains(h.name, s));
      assert Without(head, s) == if Admissible(h, allowed, ignore + [s]) then [h] else [] by {
        if head != [] {
          assert Without(head, s) == (if Contains(h.name, s) then [] else [h]) + Without([], s);
        }
      }
    }
  }

  lemma {:induction false} WithoutConcat(a: seq<Host>, b: seq<Host>, s: string)
    ensures Without(a + b, s) == Without(a, s) + Without(b, s)
  {
    if a == [] {
      assert a + b == b;
    } else {
      assert (a + b)[1..] == a[1..] + b;
      WithoutConcat(a[1..], b, s);
    }
  }

  /** The filter keeps hosts in their input order. */
  lemma {:induction false} EligibleSubsequence(hosts: seq<Host>, allowed: set<string>, ignore: seq<string>)
    ensures Subsequence(Eligible(hosts, allowed, ignore), hosts)
  {
    if hosts != [] {
      EligibleSubsequence(hosts[1..], allowed, ignore);
      var r := Eligible(hosts, allowed, ignore);
      if Admissible(hosts[0], allowed, ignore) {
        assert r[0] == hosts[0] && r[1..] == Eligible(hosts[1..], allowed, ignore);
      } else {
        assert r == Eligible(hosts[1..], allowed, ignore);
      }
    }
  }

  /** Every admissible host is kept as often as it occurs, every other host is dropped. */
  lemma {:induction false} EligibleCounts(hosts: seq<Host>, allowed: set<string>, ignore: seq<string>, h: Host)
    ensures multiset(Eligible(hosts, allowed, ignore))[h] ==
      if Admissible(h, allowed, ignore) then multiset(hosts)[h] else 0
  {
    if hosts != [] {
      var rest := hosts[1..];
      var head := if Admissible(hosts[0], allowed, ignore) then [hosts[0]] else [];
      EligibleCounts(rest, allowed, ignore, h);
      assert multiset(Eligible(hosts, allowed, ignore)) == multiset(head) + multiset(Eligible(rest, allowed, ignore));
      assert hosts == [hosts[0]] + rest;
      assert multiset(hosts) == multiset{hosts[0]} + multiset(rest);
    }
  }

  /** Filtering a second time with the same settings changes nothing. */
  lemma {:induction false} EligibleIdempotent(hosts: seq<Host>, allowed: set<string>, ignore: seq<string>)
    ensures Eligible(Eligible(hosts, allowed, ignore), allowed, ignore) == Eligible(hosts, allowed, ignore)
  {
    if hosts != [] {
      EligibleIdempotent(hosts[1..], allowed, ignore);
      var head := if Admissible(hosts[0], allowed, ignore) then [hosts[0]] else [];
      EligibleConcat(head, Eligible(hosts[1..], allowed, ignore), allowed, ignore);
      if head != [] {
        assert Eligible(head, allowed, ignore) == head + Eligible([], allowed, ignore);
      }
    }
  }

  lemma {:induction false} EligibleConcat(a: seq<Host>, b: seq<Host>, allowed: set<string>, ignore: seq<string>)
    ensures Eligible(a + b, allowed, ignore) == Eligible(a, allowed, ignore) + Eligible(b, allowed, ignore)
  {
    if a == [] {
      assert a + b == b;
    } else {
      assert (a + b)[1..] == a[1..] + b;
      EligibleConcat(a[1..], b, allowed, ignore);
    }
  }
}
