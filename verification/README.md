# temper-exporter: the `Collector` state machine

This project models `Collector`, the core of the TEMPer Prometheus exporter. The collector keeps a registry of hot-pluggable TEMPer USB sensors. It opens a handle when udev reports a device added, and closes the handle when the device is removed. On every scrape it reads each registered sensor. A sensor whose read fails is evicted. The readings of the others go into two gauge families, `temper_temperature_celsius` and `temper_humidity_rh`. Two counters, `temper_errors_total` and `temper_exceptions_total`, feed a `healthy()` flag.

The model is functional. A `Collector.State` holds three things:

- the registry, an insertion-ordered list of `(device, handle)` entries. A Python dict iterates in insertion order, and that order is the order of the samples within a family;
- the error counter;
- the exception counter.

Every operation is a pure transition on this state. `Registry.View` reads the registry as a finite map from device to handle. `Registry.Distinct` is the invariant of at most one handle per device, and every operation is proved to keep it.

Modules:

- `Wrappers`: the `Option` type.
- `Registry`: the dict operations the collector uses. These are `get`, assignment, and `pop`/`del`, plus the order-keeping filter a scrape applies.
- `Devices`: the outside world, given as oracle inputs:
  - udev events, where the action `None` marks a coldplug device;
  - the matcher's verdict;
  - the outcomes of the two handle constructions;
  - `close()` failures;
  - per handle, the outcome of `read_sensor()`, plus `phy()` and `version`.
- `Collector`: the add and remove paths, event dispatch, the coldplug scan and `healthy()`.
- `Collection`: the scrape (`collect`). It is written as a method that walks a snapshot and deletes from the live registry, as the source does. It is proved equal to `CollectPass`, a declarative statement of the whole pass.
- `Lifetime`: arbitrary runs of events, scans and scrapes. Over any run the counters never decrease, health once lost stays lost, and the registry stays valid.

The model keeps two quirks of the source as written:

- The add path constructs the handle twice, at `exporter.py:87` and `:94`. Only the first construction is guarded by `except IOError`. Its handle is dropped without `close()`, and the handle stored is the second one. A failure of the second construction escapes `handle_device_event` and is counted as an exception (`Driver.reopen`, `Outcome.Raised`).
- The remove path pops the entry first and then calls `close()` unguarded. A close failure therefore escapes and is counted as an exception, with the entry already gone. During a scrape, a close `IOError` is swallowed. The model's scrape does not consult close at all, since its outcome changes nothing there.

## Model

| member | source | states |
|---|---|---|
| Collector.Initial | temper_exporter/exporter.py:11-16 | a new collector has an empty registry and both counters at zero, so it is valid and healthy |
| Collector.HandleAdd | temper_exporter/exporter.py:78-94 | a device already registered, or one the matcher rejects, changes nothing; a failed guarded construction adds exactly one error and registers nothing; only a failed second construction raises, and it raises with the state unchanged; success maps the device to the second handle and leaves every other entry and both counters as they were; the exception counter is never touched here; validity is kept |
| Collector.HandleRemove | temper_exporter/exporter.py:97-101 | the registry afterwards is the old one minus exactly that device; removing an absent device changes nothing; the step raises exactly when the device was present and closing its handle fails; counters unchanged; validity kept |
| Collector.Dispatch | temper_exporter/exporter.py:63-75 | action `add` or none takes the add path and `remove` takes the remove path; any other action leaves the state unchanged; the exception counter rises by exactly one exactly when an exception escapes; neither counter decreases; validity is kept |
| Collector.Scan | temper_exporter/exporter.py:52-60 | a coldplug scan never decreases a counter and keeps the registry valid, so a device listed twice has one entry |
| Collector.ScanAppend | temper_exporter/exporter.py:59-60 | scanning `a + b` is scanning `a` and then, unless an exception escaped, scanning `b`: the scan is dispatch applied to each device in order |
| Collector.ScanRegisters | temper_exporter/exporter.py:59-60 | a coldplug scan that completes leaves registered exactly the devices registered before plus the listed devices whose match and both constructions succeed |
| Collector.ScanUnsupported | temper_exporter/exporter.py:83-85 | a device the matcher rejects never enters the registry, whatever events are scanned |
| Collector.AddTwice | temper_exporter/exporter.py:79-81 | a second add of a device the first add registered returns with the state unchanged |
| Collector.Healthy | temper_exporter/exporter.py:103-109 | healthy exactly when both the exception and the error counter are zero |
| Registry.Find | temper_exporter/exporter.py:79 | `get` returns a handle exactly when the device is in the map view, and the handle is the one the view holds |
| Registry.Assign | temper_exporter/exporter.py:93-94 | assignment updates the map view at that device only; a new device is appended after all existing entries; distinctness is kept |
| Registry.Remove | temper_exporter/exporter.py:98-99 | `pop` (here) and `del` (line 37) take exactly that device out of the map view |
| Registry.RemoveKeys | temper_exporter/exporter.py:99 | removal takes exactly that device out of the key set and keeps the registry distinct |
| Registry.KeepView | temper_exporter/exporter.py:26-38 | filtering a distinct registry keeps exactly the chosen devices, each with its own handle, and keeps it distinct |
| Collection.Route | temper_exporter/exporter.py:40-46 | every sample routed to a family comes from a reading of that family's kind, labelled `[name, phy, version]`, and every reading of that kind yields its sample |
| Collection.RouteCount | temper_exporter/exporter.py:40-46 | the number of samples routed to a family equals the number of readings of its kind, so readings of any other kind yield nothing |
| Collection.RouteAppend | temper_exporter/exporter.py:40-46 | routing the readings `a + b` gives the samples of `a` followed by those of `b` |
| Collection.RouteInOrder | temper_exporter/exporter.py:40-44 | the reading at position `j` of the family's kind is labelled `[name, phy, version]` into output position `p`, where `p` counts the earlier readings of that kind; with the count this gives exactly one sample per reading, in reading order |
| Collection.FamilyRouting | temper_exporter/exporter.py:26-46 | a sample is in the family for a kind exactly when some registered handle read successfully and returned a reading of that kind labelled to it |
| Collection.RouteReadings | temper_exporter/exporter.py:40-46 | the loop over one handle's readings appends the routed temperature readings to the temperature family and the humidity readings to the humidity family |
| Collection.Visit | temper_exporter/exporter.py:27-46 | one snapshot entry: a failed read deletes that entry from the live registry and adds one error; a good read leaves the registry alone and routes its readings |
| Collection.Sweep | temper_exporter/exporter.py:24-46 | the walk over the snapshot leaves registered exactly the entries whose read succeeded, in order; it adds one error per failed read, and the families hold the routed readings |
| Collection.CollectPassFacts | temper_exporter/exporter.py:26-38 | after a pass every device whose read failed is absent; every device whose read succeeded is present with the same handle; no device is new; the registry stays valid |
| Collection.Collect | temper_exporter/exporter.py:19-49 | a scrape yields exactly two families, temperature then humidity with labels `name, phy, version`, even for an empty registry; failed reads evict and count exactly one error each; good reads keep their device; exceptions are untouched |
| Lifetime.RunKeepsInvariants | temper_exporter/exporter.py:31-109 | the counters change only by the increments at lines 31, 74 and 90, so over any sequence of events, scans and scrapes neither counter decreases, an unhealthy collector never becomes healthy again, and a valid registry stays valid |
| Lifetime.FailureIsFinal | temper_exporter/exporter.py:31-109 | once a step counts an error or an exception (an increment at line 31, 74 or 90), `healthy()` (lines 103-109) is false in every later state |

## Left out

- The read and write locks (`threading.Lock`) and concurrent interleavings are left out. The write lock guards only the individual dict mutations (`exporter.py:36-37`, `:93-94`, `:98-99`), and the read lock keeps two scrapes apart (`:24`). The model takes each operation as one atomic step, which the source does not guarantee. Two interleavings this loses:
  - Two add paths for one device, for example the coldplug scan on the main thread and a hotplug `add` on the event thread (`:53-57`), can both find the device absent at `:79`, both construct a handle and both store one at `:94`. The first stored handle is then replaced without being closed.
  - A `remove` event can pop a device (`:99`) after a scrape has copied the registry (`:26`) but before that scrape deletes the device after a failed read (`:37`). The `del` then raises `KeyError`, which escapes `collect`. This happens when a sensor is unplugged during a scrape.
- `prometheus_client` objects are replaced by plain data. The counters are `nat` fields. A `GaugeMetricFamily` is a `Family` with a name, a help text, label names and a sequence of samples. The private `_value.get()` reads become field reads.
- `temper.matcher.match`, the sensor classes' constructors, `read_sensor`, `phy`, `version` and `close` are foreign code. They are oracle inputs (`Driver`, `Sensors`) and are treated as pure functions of the device or handle within one step.
- A coldplug scan sees one `Driver` for the whole scan. A device listed twice whose construction failed the first time therefore fails the same way the second time.
- Reading values are floating point in the source. Here they are an opaque type parameter that is passed through untouched.
- The `print(..., file=sys.stderr)` logging is left out. The calls to `list_fn()` and the udev monitor are I/O: their results arrive as a sequence of events.
- Exceptions other than the ones named above are not modelled. In the add path these would come from the matcher raising anything (it is called outside the `try`), or from the first construction raising something other than `IOError`. In a scrape they would come from `read_sensor` or `close` raising something other than `IOError`, or from `phy()` or `version` raising anything (both are outside the `try`). In the source such exceptions propagate: from the add path they are counted as exceptions, and from a scrape they escape `collect`. Python's re-raise is modelled only as the `Raised` outcome, which carries the state the step reached.
- The handle from the first construction on the add path is dropped without being closed. The model does not track open handles, so this leak is described here rather than stated as a property.
- `collect` is a generator in the source, so its work runs when the first family is requested. The model runs the whole pass as one step.
- Collector.Scan: it does not state how the error counter grows over a scan. A device whose construction keeps failing is retried, and counted again, each time it is listed. Only monotonicity is proved.
