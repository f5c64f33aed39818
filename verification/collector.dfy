/**
 The event side of `Collector` (temper_exporter/exporter.py): its state, the
 add and remove paths, event dispatch, the coldplug scan and the health flag.

 Each operation is modelled as one atomic step. The source does not guarantee
 this: its write lock guards only the individual dict mutations and its read
 lock only keeps two scrapes apart, so the model leaves out the interleavings
 of an add path, a remove path and a scrape that overlap.
 */
module Collector {
  import opened Wrappers
  import opened Registry
  import opened Devices

  /** The registry and the `temper_errors_total` and `temper_exceptions_total` counters. */
  datatype State<D, H> = State(sensors: Table<D, H>, errors: nat, exceptions: nat)

  /** The state `__init__` builds: no sensors, both counters at zero. */
  function Initial<D, H>(): (s: State<D, H>)
    ensures Valid(s) && Healthy(s)
  {
    State([], 0, 0)
  }

  /** The registry invariant: at most one live handle per device. */
  predicate Valid<D(==), H>(s: State<D, H>)
  {
    Distinct(s.sensors)
  }

  /** Neither counter has gone down from `s` to `s'`. */
  predicate Counted<D, H>(s: State<D, H>, s': State<D, H>)
  {
    s.errors <= s'.errors && s.exceptions <= s'.exceptions
  }

  /**
   The result of one event step. `Raised` is an exception escaping to the
   caller; the state it carries is what the step left behind.
   */
  datatype Outcome<D, H> = Returned(state: State<D, H>) | Raised(state: State<D, H>)

  /** The device is supported and both constructions of its handle succeed. */
  predicate Admitted<D, H>(driver: Driver<D, H>, d: D)
  {
    driver.supported(d) && driver.open(d).Opened? && driver.reopen(d).Opened?
  }

  /**
   `__handle_device_add`. The handle is constructed twice: the first,
   guarded construction only tests the device and is dropped without being
   closed; the handle stored comes from the second, unguarded construction,
   whose failure escapes as an exception.
   */
  function HandleAdd<D(==), H>(s: State<D, H>, driver: Driver<D, H>, d: D): (r: Outcome<D, H>)
    // a registered device, or one the matcher rejects: nothing changes
    ensures d in View(s.sensors) || !driver.supported(d) ==> r == Returned(s)
    // the guarded construction fails: one more error, nothing registered
    ensures (d !in View(s.sensors) && driver.supported(d) && driver.open(d).OpenFailed?) ==>
              r == Returned(s.(errors := s.errors + 1))
    // only the unguarded construction raises, and then nothing has changed yet
    ensures r.Raised? <==> d !in View(s.sensors) && driver.supported(d) && driver.open(d).Opened? && driver.reopen(d).OpenFailed?
    ensures r.Raised? ==> r.state == s
    // success: the device maps to the second handle and every other entry is as it was
    ensures d !in View(s.sensors) && Admitted(driver, d) ==>
              && r.Returned?
              && View(r.state.sensors) == View(s.sensors)[d := driver.reopen(d).handle]
              && r.state.errors == s.errors
    ensures r.state.sensors == s.sensors || (d !in View(s.sensors) && Admitted(driver, d))
    ensures r.state.exceptions == s.exceptions
    ensures Valid(s) ==> Valid(r.state)
  {
    match Find(s.sensors, d)
    case Some(_) => Returned(s)
    case None =>
      if !driver.supported(d) then Returned(s)
      else
        match driver.open(d)
        case OpenFailed => Returned(s.(errors := s.errors + 1))
        case Opened(_) =>
          match driver.reopen(d)
          case OpenFailed => Raised(s)
          case Opened(h) => Returned(s.(sensors := Assign(s.sensors, d, h)))
  }

  /**
   `__handle_device_remove`: pop the entry, then close the popped handle.
   The close is not guarded, so its failure escapes, after the entry is gone.
   */
  function HandleRemove<D(==), H>(s: State<D, H>, driver: Driver<D, H>, d: D): (r: Outcome<D, H>)
    ensures View(r.state.sensors) == View(s.sensors) - {d}
    ensures r.state.errors == s.errors && r.state.exceptions == s.exceptions
    ensures d !in View(s.sensors) ==> r == Returned(s)
    ensures r.Raised? <==> d in View(s.sensors) && driver.closeFails(View(s.sensors)[d])
    ensures Valid(s) ==> Valid(r.state)
  {
    var popped := Find(s.sensors, d);
    var rest := Remove(s.sensors, d);
    ViewKeys(s.sensors);
    RemoveKeys(s.sensors, d);
    if popped.None? then RemoveAbsent(s.sensors, d); Returned(s)
    else if driver.closeFails(popped.value) then Raised(s.(sensors := rest))
    else Returned(s.(sensors := rest))
  }

  /** The actions that take the add path: `add`, and none at all (a coldplug device). */
  predicate IsAdd(action: Option<string>)
  {
    action == Some("add") || action.None?
  }

  /** The `except Exception` of `handle_device_event`: count the exception, then re-raise. */
  function Escalate<D, H>(o: Outcome<D, H>): Outcome<D, H>
  {
    match o
    case Returned(_) => o
    case Raised(s) => Raised(s.(exceptions := s.exceptions + 1))
  }

  /** `handle_device_event`. */
  function Dispatch<D(==), H>(s: State<D, H>, driver: Driver<D, H>, ev: Event<D>): (r: Outcome<D, H>)
    ensures IsAdd(ev.action) ==> r == Escalate(HandleAdd(s, driver, ev.device))
    ensures ev.action == Some("remove") ==> r == Escalate(HandleRemove(s, driver, ev.device))
    // any other action is ignored
    ensures !IsAdd(ev.action) && ev.action != Some("remove") ==> r == Returned(s)
    // an escaping exception is counted exactly once, and only then
    ensures r.state.exceptions == if r.Raised? then s.exceptions + 1 else s.exceptions
    ensures Counted(s, r.state)
    ensures Valid(s) ==> Valid(r.state)
  {
    if IsAdd(ev.action) then Escalate(HandleAdd(s, driver, ev.device))
    else if ev.action == Some("remove") then Escalate(HandleRemove(s, driver, ev.device))
    else Returned(s)
  }

  /**
   `coldplug_scan` over the devices `list_fn()` returned: dispatch each in
   order; the first exception leaves the loop and reaches the caller.
   */
  function Scan<D(==), H>(s: State<D, H>, driver: Driver<D, H>, evs: seq<Event<D>>): (r: Outcome<D, H>)
    ensures Counted(s, r.state)
    ensures Valid(s) ==> Valid(r.state)
    decreases |evs|
  {
    if |evs| == 0 then Returned(s)
    else
      match Dispatch(s, driver, evs[0])
      case Raised(c) => Raised(c)
      case Returned(c) => Scan(c, driver, evs[1..])
  }

  /** Continue a scan that has reached `o` with the events `evs`. */
  function ScanFrom<D(==), H>(o: Outcome<D, H>, driver: Driver<D, H>, evs: seq<Event<D>>): Outcome<D, H>
  {
    match o
    case Raised(_) => o
    case Returned(c) => Scan(c, driver, evs)
  }

  /** Scanning `a + b` is scanning `a`, then, unless that raised, scanning `b`. */
  lemma {:induction false} ScanAppend<D, H>(s: State<D, H>, driver: Driver<D, H>, a: seq<Event<D>>, b: seq<Event<D>>)
    ensures Scan(s, driver, a + b) == ScanFrom(Scan(s, driver, a), driver, b)
    decreases |a|
  {
    if |a| > 0 {
      assert (a + b)[0] == a[0];
      assert (a + b)[1..] == a[1..] + b;
      match Dispatch(s, driver, a[0])
      case Raised(_) =>
      case Returned(c) => ScanAppend(c, driver, a[1..], b);
    } else {
      assert a + b == b;
    }
  }

  /** The devices of `evs` that get a handle under `driver`. */
  function AdmittedIn<D(==), H>(driver: Driver<D, H>, evs: seq<Event<D>>): set<D>
  {
    set i | 0 <= i < |evs| && Admitted(driver, evs[i].device) :: evs[i].device
  }

  /**
   A coldplug scan that completes registers exactly the devices it admits, on
   top of those already registered; listing a device twice still gives it one
   entry, since the state stays valid.
   */
  lemma {:induction false} ScanRegisters<D, H>(s: State<D, H>, driver: Driver<D, H>, evs: seq<Event<D>>)
    requires forall i | 0 <= i < |evs| :: IsAdd(evs[i].action)
    requires Scan(s, driver, evs).Returned?
    ensures View(Scan(s, driver, evs).state.sensors).Keys == View(s.sensors).Keys + AdmittedIn(driver, evs)
    decreases |evs|
  {
    if |evs| > 0 {
      var d := evs[0].device;
      var c := Dispatch(s, driver, evs[0]).state;
      assert Dispatch(s, driver, evs[0]).Returned?;
      assert forall i | 0 <= i < |evs[1..]| :: evs[1..][i] == evs[i + 1];
      ScanRegisters(c, driver, evs[1..]);
      assert View(c.sensors).Keys == View(s.sensors).Keys + (if Admitted(driver, d) then {d} else {});
      assert AdmittedIn(driver, evs) == (if Admitted(driver, d) then {d} else {}) + AdmittedIn(driver, evs[1..]) by {
        forall x | x in AdmittedIn(driver, evs)
          ensures x in (if Admitted(driver, d) then {d} else {}) + AdmittedIn(driver, evs[1..])
        {
          var i :| 0 <= i < |evs| && Admitted(driver, evs[i].device) && evs[i].device == x;
          if i > 0 { assert evs[1..][i - 1] == evs[i]; }
        }
      }
    }
  }

  /** A device the matcher rejects never enters the registry, whatever the events. */
  lemma {:induction false} ScanUnsupported<D, H>(s: State<D, H>, driver: Driver<D, H>, evs: seq<Event<D>>, d: D)
    requires d !in View(s.sensors) && !driver.supported(d)
    ensures d !in View(Scan(s, driver, evs).state.sensors)
    decreases |evs|
  {
    if |evs| > 0 {
      var o := Dispatch(s, driver, evs[0]);
      assert d !in View(o.state.sensors);
      if o.Returned? {
        ScanUnsupported(o.state, driver, evs[1..], d);
      }
    }
  }

  /** A second add of a device the first add registered changes nothing. */
  lemma AddTwice<D, H>(s: State<D, H>, driver: Driver<D, H>, ev: Event<D>)
    requires IsAdd(ev.action)
    requires Dispatch(s, driver, ev).Returned? && ev.device in View(Dispatch(s, driver, ev).state.sensors)
    ensures Dispatch(Dispatch(s, driver, ev).state, driver, ev) == Dispatch(s, driver, ev)
  {
  }

  /** `healthy()`: no error and no exception has been counted. */
  function Healthy<D, H>(s: State<D, H>): (ok: bool)
    ensures ok <==> s.errors == 0 && s.exceptions == 0
  {
    if s.exceptions > 0 then false
    else if s.errors > 0 then false
    else true
  }
}
