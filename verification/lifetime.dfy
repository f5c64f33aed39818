/**
 A `Collector` over its whole life: any sequence of hotplug events,
 coldplug scans and scrapes, each taken as one atomic step (the source's locks
 do not make overlapping steps atomic; see `Collector`). The counters never go
 down, so the health flag, once false, stays false; and the registry keeps
 at most one handle per device throughout.
 */
module Lifetime {
  import opened Registry
  import opened Devices
  import opened Collector
  import opened Collection

  /** One step, with the oracle answers it sees. */
  datatype Step<!D, !H, V> =
    | Deliver(driver: Driver<D, H>, ev: Event<D>)
    | Coldplug(driver: Driver<D, H>, evs: seq<Event<D>>)
    | Scrape(sensors: Sensors<H, V>)

  /**
   The state a step leaves behind. An exception that escapes a step is the
   caller's to handle; the collector keeps the state the step reached.
   */
  function Apply<D(==), H, V>(s: State<D, H>, step: Step<D, H, V>): State<D, H>
  {
    match step
    case Deliver(driver, ev) => Dispatch(s, driver, ev).state
    case Coldplug(driver, evs) => Scan(s, driver, evs).state
    case Scrape(sensors) => CollectPass(s, sensors).0
  }

  /** The state after the steps, in order. */
  function Run<D(==), H, V>(s: State<D, H>, steps: seq<Step<D, H, V>>): State<D, H>
    decreases |steps|
  {
    if |steps| == 0 then s else Run(Apply(s, steps[0]), steps[1..])
  }

  /**
   Over any run, neither counter decreases, an unhealthy collector never
   becomes healthy again, and a valid registry stays valid.
   */
  lemma {:induction false} RunKeepsInvariants<D, H, V>(s: State<D, H>, steps: seq<Step<D, H, V>>)
    ensures Counted(s, Run(s, steps))
    ensures !Healthy(s) ==> !Healthy(Run(s, steps))
    ensures Valid(s) ==> Valid(Run(s, steps))
    decreases |steps|
  {
    if |steps| > 0 {
      var next := Apply(s, steps[0]);
      if steps[0].Scrape? && Valid(s) {
        CollectPassFacts(s, steps[0].sensors);
      }
      assert Counted(s, next);
      RunKeepsInvariants(next, steps[1..]);
    }
  }

  /** A step that counts an error or an exception leaves the collector unhealthy for good. */
  lemma FailureIsFinal<D, H, V>(s: State<D, H>, step: Step<D, H, V>, later: seq<Step<D, H, V>>)
    requires Apply(s, step).errors > s.errors || Apply(s, step).exceptions > s.exceptions
    ensures !Healthy(Run(Apply(s, step), later))
  {
    RunKeepsInvariants(Apply(s, step), later);
  }
}
