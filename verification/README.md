# lorcapp application core in Dafny

A model of the `App` type of lorcapp, a small Go wrapper around the lorca
desktop-UI library. The model covers:

- start-up, where the window geometry is restored from a saved record or set to defaults;
- registration of callbacks for the document's "interactive" and "complete" readiness states;
- the background poller, which copies the window bounds and fires callbacks when the readiness state changes;
- the three injection operations, which build JavaScript snippets under ids from one shared `int32` counter;
- `Dispose`, which writes the bounds back and takes the lock for good.

Every operation is a pure function on an immutable `App` record. Answers from
the UI are inputs:

- the result of reading the saved record;
- whether the UI started;
- each bounds query;
- each readiness probe.

Callbacks are opaque identifiers. Firing them is reported as an ordered list.

The lock that `Dispose` takes and never releases is a `locked` flag. A later
call that would take the lock waits forever; its result is `Blocks`.

The modules follow the parts of the source file:

- `Int32`: two's-complement wrap-around of the `int32` id counter.
- `Decimal`: the `%v` rendering of an integer and a parser that inverts it.
- `Snippet`: the three-statement JavaScript an injection evaluates, and a parser that recovers the injection from the text.
- `Window`: the `Bounds` record and how the start-up size is chosen.
- `Lifecycle`: the `App` record and one function per operation.
- `Runs`: sequences of calls on one app and the lemmas that relate several steps.
- `Wrappers`: `Option` and `Result`.

In a run, an evaluated snippet is recorded as the injection it performs.
`Effect.Js` gives its text. `Snippet.ParseBuild` and `Snippet.BuildParse`
show that the text and the injection determine each other.

## Model

| member | source | states |
|---|---|---|
| Window.Resolve | app.go:33-46 | A saved record is used as is, and the UI size is its width and height. Without one, the bounds are {0, 0, width, height, "normal"} and the UI gets the caller's size. |
| Lifecycle.NewApp | app.go:30-78 | Start-up succeeds exactly when the UI starts. The bounds passed to `SetBounds` are the stored bounds, whose width and height are the UI size. A saved record wins over the caller's size; otherwise the defaults apply. The new app is in state "complete", with no callbacks, counter 0 and the lock free. |
| Lifecycle.Load | app.go:80-84 | Once disposed, the call waits forever. Otherwise the callback is appended to the load list and nothing else changes. |
| Lifecycle.Ready | app.go:86-90 | Once disposed, the call waits forever. Otherwise the callback is appended to the ready list and nothing else changes. |
| Lifecycle.CheckBounds | app.go:140-147 | A failed bounds query changes nothing and never waits. A successful one replaces the bounds, and waits forever once disposed. |
| Lifecycle.CheckState | app.go:149-167 | A probe equal to the stored state fires nothing. Otherwise the state becomes the probe. Entering "interactive" fires the load list in order, and entering "complete" fires the ready list. Only those two changes take the lock. Any other probe fires nothing. |
| Lifecycle.Poll | app.go:132-138 | One loop iteration: the bounds become the successful query's answer, the state becomes the probe, and the firing rules above apply. It waits exactly when one of its two steps would take the lock after disposal. |
| Lifecycle.TakeId | app.go:93 | The id is the counter's new value and the counter keeps it. Below the int32 maximum it is one more than before; at the maximum it wraps to the int32 minimum. |
| Int32.AddOne | app.go:93 | The atomic increment adds one and wraps from the int32 maximum to the minimum. |
| Lifecycle.Inject | app.go:92-116 | An injection advances the shared counter by one, with int32 wrap-around, and changes nothing else. The text it evaluates parses back to the injection's kind, the id just taken and the payload, verbatim. |
| Lifecycle.Dispose | app.go:124-130 | The first call writes the current bounds and holds the lock from then on. A second call waits forever. |
| Decimal.ParseFormat | app.go:95 | The rendering of an id parses back to that id. |
| Decimal.FormatParse | app.go:95 | Every string the parser accepts is the rendering of the id it yields. |
| Decimal.FormatInjective | app.go:95 | Two ids render the same exactly when they are equal. |
| Snippet.ParseBuild | app.go:92-116 | A CSS, script or script-src snippet parses back to its kind, id and payload: the created tag, the property assigned and the three statements are recoverable. |
| Snippet.BuildParse | app.go:92-116 | Any text the parser accepts is exactly the snippet of the injection it returns. |
| Snippet.BuildInjective | app.go:92-116 | Two injections evaluate the same text exactly when kind, id and payload all agree. |
| Snippet.Build | app.go:92-116 | The snippet is the head for its kind and element name, then the payload verbatim, then the tail. Its literal text is the definition, and `Snippet.ParseBuild` and `Snippet.BuildParse` show it can be inverted. |
| Decimal.Format | app.go:95 | The `%v` rendering of an id is non-empty, made of digits and a minus sign, and starts with the minus exactly when the id is negative. `Decimal.ParseFormat` and `Decimal.FormatParse` show it can be inverted. |
| Snippet.NameInjective | app.go:95-97 | Two element names `___<id>` are equal exactly when the ids are equal. |
| Int32.AdvanceIsWrap | app.go:93 | n increments of the counter land where two's-complement addition of n does. |
| Int32.WrapDistinct | app.go:93 | Two counter values fewer than 2^32 increments apart are different. |
| Runs.RequestIsInject | app.go:92-116 | An injection call in a run is `Inject`: same new record, and the recorded effect's text is the snippet `Inject` builds. |
| Runs.RunAppend | app.go:132-138 | Running two lists of calls one after the other is running their concatenation. |
| Runs.Apply | app.go:80-167 | One call on the app: a registration, an injection or one loop iteration. Only a call after `Dispose` can wait, and an injection never does. No call changes the lock. An injection advances the counter by one and evaluates one snippet under the new id. Any other call leaves the counter alone and only fires callbacks. |
| Runs.Run | app.go:132-138 | Calls one after the other, where a call that waits ends the run. Before `Dispose` no call waits and the lock stays free. |
| Runs.RunKeepsLastObserved | app.go:140-147 | Before disposal, after any calls the bounds are those of the last successful bounds query, or the starting bounds if none succeeded. |
| Runs.FiringCount | app.go:149-167 | Over any run of loop iterations, each callback fires exactly (entries into "interactive") × (its occurrences in the load list) + (entries into "complete") × (its occurrences in the ready list) times. |
| Runs.InjectionRun | app.go:92-116 | n injections advance the counter n times. The j-th evaluates its own kind and payload under the counter advanced j+1 times. |
| Runs.InjectionsNumbered | app.go:92-116 | Before disposal, with registrations and loop iterations interleaved in any way, the k-th injection call evaluates its own kind and payload under the counter advanced k+1 times, and the counter ends advanced once per injection. |
| Runs.InjectionIdsDistinct | app.go:93 | Before disposal, with any calls interleaved, up to 2^32 injections use pairwise distinct ids and element names, and evaluate pairwise distinct texts. |
| Runs.FreshIdsCountFromOne | app.go:58 | On a new app, with any calls interleaved, the k-th injection of all three kinds together uses id k+1, up to the int32 maximum. |
| Runs.LoadsAppend | app.go:80-84 | Load registrations append to the load list in call order and fire nothing. |
| Runs.ReadiesAppend | app.go:86-90 | Ready registrations append to the ready list in call order and fire nothing. |
| Runs.LoadsFireInOrder | app.go:151-158 | Entering "interactive" fires the earlier load callbacks, then the newly registered ones, in registration order. |
| Runs.ReadiesFireInOrder | app.go:159-164 | Entering "complete" fires the earlier ready callbacks, then the newly registered ones, in registration order. |
| Runs.LateLoadNotRetroactive | app.go:149-158 | A load callback registered after "interactive" was entered does not fire for that entry, nor for a later probe of the same state. |
| Runs.LateReadyNotRetroactive | app.go:149-164 | A ready callback registered after "complete" was entered does not fire for that entry, nor for a later probe of the same state. |
| Runs.DisposeIsTerminal | app.go:124-130 | After `Dispose`, these calls wait forever: registration, a second `Dispose`, and a loop iteration with a successful bounds query. Injection still proceeds. |
| Runs.SessionRoundTrip | app.go:30-46 | The record written at disposal is the last bounds the loop observed. A later start that reads it opens exactly there. |
| Runs.FirstSessionPersistsDefaults | app.go:38-46 | Without a saved record and with no successful bounds query, disposal writes {0, 0, width, height, "normal"}. |

## Left out

- The lorca UI: window creation, `Eval`, `Bounds`, `SetBounds` and `Done` are inputs or are not modelled. A `SetBounds` failure is only logged: the app stores the resolved bounds whether or not the UI applied them, and the model does not say whether it did.
- Reading and writing `Window.json` and its JSON encoding: reading becomes an `Option<Bounds>` input, and writing becomes the `persisted` bounds `Dispose` returns.
- `configDir` and the `name`, `url` and directory arguments: they only locate files and the page.
- Threads: the background goroutine, the 200 ms sleep, the read-write mutex and the atomic add are modelled as sequential steps. Interleaving is reduced to the order of events in a run.
- Runs.Run: after `Dispose`, the first call that waits ends the whole run in the model. In the program only the goroutine that made it stops. After a successful bounds query the loop stops, and the caller's injections still take ids and evaluate. After `Load`, `Ready` or a second `Dispose` the caller stops, and the loop keeps iterating while bounds queries fail and the probe enters neither "interactive" nor "complete". Run lemmas therefore cover runs before disposal, single calls after it (`Runs.DisposeIsTerminal`) and runs made only of injections (`Runs.InjectionRun`).
- `Wait`: it blocks until the UI is done and then calls `Dispose`, which is modelled.
- Logging: the check at app.go:71-73 logs a `SetBounds` failure a second time, as a start error; no logging is modelled.
- Callback bodies: callbacks are opaque identifiers. A callback that calls `Load`, `Ready`, `Dispose` or `Wait` while the loop holds the lock would deadlock; this is not modelled.
- Escaping: the payload is placed verbatim between backquotes, as in the source. Whether a payload containing a backquote produces valid JavaScript is not modelled.
- The Go `int` width of the `Bounds` fields: the model never does arithmetic on them.
- Runs.InjectionIdsDistinct: ids are distinct only within 2^32 injections, because the `int32` counter wraps around. The lemma covers runs before disposal; after it, injections still take ids from the same counter, but the loop and registrations block.
- Runs.FreshIdsCountFromOne: ids equal k+1 only up to the int32 maximum. After that the counter wraps to negative ids, which render as `___-2147483648`, and that is not a JavaScript identifier.
