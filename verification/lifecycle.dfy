/**
  The application record and its operations, one sequential step at a time.
  The UI's answers (bounds queries, the readiness probe, whether the UI
  started) are inputs; callbacks are opaque identifiers, and firing them is
  reported as an ordered list.

  `Dispose` takes the lock and never releases it, so the record carries a
  `locked` flag: every later call that would take the lock waits forever,
  which is modelled as `Blocks`. The injection operations never take the
  lock and keep working.
 */
module Lifecycle {
  import opened Wrappers
  import opened Int32
  import opened Window
  import Snippet

  const Interactive: string := "interactive"
  const Complete: string := "complete"

  /** An opaque registered callback. */
  datatype Callback = Callback(id: nat)

  /** The mutable state of an `App`, as one immutable value. */
  datatype App = App(
    state: string,           // last observed document readiness
    bounds: Bounds,          // last known window geometry
    load: seq<Callback>,     // fired on entering "interactive", in order
    ready: seq<Callback>,    // fired on entering "complete", in order
    counter: int32,          // last injection id handed out
    locked: bool             // the lock is held for good (after `Dispose`)
  )

  /** The result of a call that may wait forever on the lock. */
  datatype Blocking<T> = Proceeds(value: T) | Blocks

  /** `lorca.New` failed; `NewApp` returns its error. */
  datatype StartError = UiFailed

  /**
    What `NewApp` produces: the size the UI is created with, the bounds
    passed to `SetBounds` (which the UI may fail to apply), and the app.
   */
  datatype Launch = Launch(uiWidth: int, uiHeight: int, applied: Bounds, app: App)

  /** A poll step's new record and the callbacks it fired, in firing order. */
  datatype Polled = Polled(app: App, fired: seq<Callback>)

  /** The record after taking an id from the counter, and the id taken. */
  datatype Allocated = Allocated(app: App, id: int32)

  /** An injection's new record and the snippet it evaluates. */
  datatype Injected = Injected(app: App, js: string)

  /** `Dispose`'s new record and the bounds it writes to the saved record. */
  datatype Disposed = Disposed(app: App, persisted: Bounds)

  /**
    `NewApp`: `saved` is the outcome of reading the saved record and
    `uiStarted` whether `lorca.New` succeeded for the resolved size. The
    resolved bounds are passed to `SetBounds` and stored in the app; a
    failure of `SetBounds` is only logged and does not change what is stored.
   */
  function NewApp(saved: Option<Bounds>, width: int, height: int, uiStarted: bool): (r: Result<Launch, StartError>)
    ensures r.Success? <==> uiStarted
    ensures r.Success? ==> r.value.applied == r.value.app.bounds
    ensures r.Success? ==> r.value.uiWidth == r.value.app.bounds.width && r.value.uiHeight == r.value.app.bounds.height
    ensures r.Success? && saved.Some? ==> r.value.app.bounds == saved.value
    ensures r.Success? && saved.None? ==> r.value.app.bounds == Bounds(0, 0, width, height, Normal)
    ensures r.Success? ==> r.value.app == App(Complete, r.value.app.bounds, [], [], 0, false)
  {
    var res := Resolve(saved, width, height);
    if !uiStarted then Failure(UiFailed)
    else Success(Launch(res.width, res.height, res.bounds, App(Complete, res.bounds, [], [], 0, false)))
  }

  /** `Load`: register a callback for the next entry into "interactive". */
  function Load(a: App, cb: Callback): (r: Blocking<App>)
    ensures r.Blocks? <==> a.locked
    ensures r.Proceeds? ==> r.value.load == a.load + [cb]
    ensures r.Proceeds? ==> r.value == a.(load := r.value.load)
  {
    if a.locked then Blocks else Proceeds(a.(load := a.load + [cb]))
  }

  /** `Ready`: register a callback for the next entry into "complete". */
  function Ready(a: App, cb: Callback): (r: Blocking<App>)
    ensures r.Blocks? <==> a.locked
    ensures r.Proceeds? ==> r.value.ready == a.ready + [cb]
    ensures r.Proceeds? ==> r.value == a.(ready := r.value.ready)
  {
    if a.locked then Blocks else Proceeds(a.(ready := a.ready + [cb]))
  }

  /**
    `checkBounds`: `polled` is the UI's answer to a bounds query, `None` when
    the query failed. Only a successful query takes the lock.
   */
  function CheckBounds(a: App, polled: Option<Bounds>): (r: Blocking<App>)
    ensures r.Blocks? <==> a.locked && polled.Some?
    ensures r.Proceeds? && polled.Some? ==> r.value == a.(bounds := polled.value)
    ensures polled.None? ==> r == Proceeds(a)
  {
    match polled
    case None => Proceeds(a)
    case Some(b) => if a.locked then Blocks else Proceeds(a.(bounds := b))
  }

  /**
    `checkState`: `probe` is the document's readiness as the UI reports it.
    The lock is taken only on a change to "interactive" or "complete".
   */
  function CheckState(a: App, probe: string): (r: Blocking<Polled>)
    ensures r.Blocks? <==> a.locked && probe != a.state && (probe == Interactive || probe == Complete)
    ensures r.Proceeds? ==> r.value.app == a.(state := probe)
    ensures probe == a.state ==> r == Proceeds(Polled(a, []))
    ensures r.Proceeds? && probe != a.state && probe == Interactive ==> r.value.fired == a.load
    ensures r.Proceeds? && probe != a.state && probe == Complete ==> r.value.fired == a.ready
    ensures probe != Interactive && probe != Complete ==> r.Proceeds? && r.value.fired == []
  {
    if probe == a.state then Proceeds(Polled(a, []))
    else
      var next := a.(state := probe);
      if probe == Interactive then
        if a.locked then Blocks else Proceeds(Polled(next, a.load))
      else if probe == Complete then
        if a.locked then Blocks else Proceeds(Polled(next, a.ready))
      else Proceeds(Polled(next, []))
  }

  /** One iteration of the background loop: mirror the bounds, then check readiness. */
  function Poll(a: App, polled: Option<Bounds>, probe: string): (r: Blocking<Polled>)
    ensures r.Blocks? <==> a.locked && (polled.Some? || (probe != a.state && (probe == Interactive || probe == Complete)))
    ensures r.Proceeds? ==> r.value.app == a.(bounds := polled.GetOr(a.bounds), state := probe)
    ensures r.Proceeds? && probe == a.state ==> r.value.fired == []
    ensures r.Proceeds? && probe != a.state && probe == Interactive ==> r.value.fired == a.load
    ensures r.Proceeds? && probe != a.state && probe == Complete ==> r.value.fired == a.ready
    ensures r.Proceeds? && probe != Interactive && probe != Complete ==> r.value.fired == []
  {
    match CheckBounds(a, polled)
    case Blocks => Blocks
    case Proceeds(b) => CheckState(b, probe)
  }

  /**
    `atomic.AddInt32(a.id, 1)`: the id an injection uses is the counter's new
    value, and the counter keeps it.
   */
  function TakeId(a: App): (r: Allocated)
    ensures r.id == r.app.counter
    ensures a.counter < MAX ==> r.id == a.counter + 1
    ensures a.counter == MAX ==> r.id == MIN
    ensures r.app == a.(counter := r.id)
  {
    var id := AddOne(a.counter);
    Allocated(a.(counter := id), id)
  }

  /**
    `InjectCSS`, `InjectScript` and `InjectScriptSrc`: take the next id from
    the shared counter and build the snippet evaluated in the UI.
   */
  function Inject(a: App, kind: Snippet.Kind, payload: string): (r: Injected)
    ensures r.app == a.(counter := AddOne(a.counter))
    ensures Snippet.Parse(r.js) == Some(Snippet.Injection(kind, AddOne(a.counter), payload))
  {
    var t := TakeId(a);
    Snippet.ParseBuild(kind, t.id, payload);
    Injected(t.app, Snippet.Build(kind, t.id, payload))
  }

  /** `Dispose`: take the lock for good and write the current bounds to the saved record. */
  function Dispose(a: App): (r: Blocking<Disposed>)
    ensures r.Proceeds? <==> !a.locked
    ensures r.Proceeds? ==> r.value.persisted == a.bounds
    ensures r.Proceeds? ==> r.value.app == a.(locked := true)
  {
    if a.locked then Blocks else Proceeds(Disposed(a.(locked := true), a.bounds))
  }
}
