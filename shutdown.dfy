/** `ShutdownManager`: closes the registered services when the process stops. */
module Shutdown {
  /** What happened to one service: closed, or its `close()` threw and the error was logged. */
  datatype CloseOutcome = Closed(service: object) | CloseFailed(service: object)

  /** The close log of a shutdown: the services from the last registered to the first, each
      closed whether or not an earlier one failed; those in `failing` throw. */
  function ShutdownLog(services: seq<object>, failing: set<object>): (log: seq<CloseOutcome>)
    ensures |log| == |services|
    ensures forall k :: 0 <= k < |log| ==> log[k].service == services[|services| - 1 - k]
    ensures forall k :: 0 <= k < |log| ==> (log[k].CloseFailed? <==> log[k].service in failing)
  {
    if services == [] then []
    else
      var last := services[|services| - 1];
      [if last in failing then CloseFailed(last) else Closed(last)] + ShutdownLog(services[..|services| - 1], failing)
  }

  function Services(log: seq<CloseOutcome>): seq<object>
  {
    seq(|log|, k requires 0 <= k < |log| => log[k].service)
  }

  function Reversed<T>(s: seq<T>): (r: seq<T>)
    ensures |r| == |s|
    ensures forall k :: 0 <= k < |s| ==> r[k] == s[|s| - 1 - k]
  {
    if s == [] then [] else [s[|s| - 1]] + Reversed(s[..|s| - 1])
  }

  lemma {:induction false} ReversedMultiset<T>(s: seq<T>)
    ensures multiset(Reversed(s)) == multiset(s)
    decreases |s|
  {
    if s != [] {
      ReversedMultiset(s[..|s| - 1]);
      assert s == s[..|s| - 1] + [s[|s| - 1]];
    }
  }

  /** Every registration is closed exactly once: the closed services are the registered ones
      reversed, so as a multiset they are the registrations, failures included. */
  lemma ShutdownClosesEachOnce(services: seq<object>, failing: set<object>)
    ensures Services(ShutdownLog(services, failing)) == Reversed(services)
    ensures multiset(Services(ShutdownLog(services, failing))) == multiset(services)
  {
    ReversedMultiset(services);
  }

  class ShutdownManager {
    var managedServices: seq<object>

    constructor ()
      ensures managedServices == []
    {
      managedServices := [];
    }

    /** `registerService`: appended at the end. */
    method RegisterService(service: object)
      modifies this
      ensures managedServices == old(managedServices) + [service]
    {
      managedServices := managedServices + [service];
    }

    /** `shutdownAll`: a descending index loop with a try/catch around each close. It leaves the
        registrations as they were. */
    method ShutdownAll(failing: set<object>) returns (log: seq<CloseOutcome>)
      ensures log == ShutdownLog(managedServices, failing)
    {
      log := [];
      var i := |managedServices| - 1;
      while i >= 0
        invariant -1 <= i < |managedServices|
        invariant log + ShutdownLog(managedServices[..i + 1], failing) == ShutdownLog(managedServices, failing)
      {
        var service := managedServices[i];
        assert managedServices[..i + 1][..i] == managedServices[..i];
        if service in failing {
          log := log + [CloseFailed(service)];
        } else {
          log := log + [Closed(service)];
        }
        i := i - 1;
      }
    }
  }
}
