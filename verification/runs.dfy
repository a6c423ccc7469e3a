/**
  Sequences of calls on one `App`: registrations, iterations of the
  background loop and injections, interleaved in any order. A run reports
  the callbacks fired and the snippets evaluated, in order. Before `Dispose`
  that is what the program does observably; after it, the first call that
  waits ends the whole run, while in the program only the goroutine that made
  it stops. The lemmas here relate several steps.
 */
module Runs {
  import opened Wrappers
  import opened Int32
  import opened Window
  import opened Lifecycle
  import Snippet

  /** One call on the app. */
  datatype Event =
    | OnLoad(cb: Callback)                             // `Load(fn)`
    | OnReady(cb: Callback)                            // `Ready(fn)`
    | Tick(polled: Option<Bounds>, probe: string)      // one iteration of `loop`
    | Request(kind: Snippet.Kind, payload: string)     // `InjectCSS`, `InjectScript` or `InjectScriptSrc`

  /**
    Something the app does that its environment can observe: a callback
    fired, or a snippet evaluated in the UI. An evaluation is recorded by the
    injection it performs; `Js` is the text sent, and `Snippet.ParseBuild`
    shows the text and the injection determine each other.
   */
  datatype Effect = Fired(cb: Callback) | Evaluated(request: Snippet.Injection) {
    function Js(): string
      requires Evaluated?
    {
      Snippet.Build(request.kind, request.id, request.payload)
    }
  }

  /** The record after some calls and what those calls did, in order. */
  datatype Trace = Trace(app: App, effects: seq<Effect>)

  /** Firing `cbs`, in order. */
  function FiredEffects(cbs: seq<Callback>): (r: seq<Effect>)
    ensures |r| == |cbs|
    ensures forall i :: 0 <= i < |cbs| ==> r[i] == Fired(cbs[i])
    decreases |cbs|
  {
    if |cbs| == 0 then [] else FiredEffects(cbs[..|cbs| - 1]) + [Fired(cbs[|cbs| - 1])]
  }

  /**
    One call on the app. Only a call made after `Dispose` can wait, and an
    injection never does; no call takes or releases the lock for good. An
    injection takes the next id and evaluates one snippet; every other call
    leaves the counter alone and only fires callbacks.
   */
  function Apply(a: App, e: Event): (r: Blocking<Trace>)
    ensures r.Blocks? ==> a.locked
    ensures e.Request? ==> r.Proceeds?
    ensures r.Proceeds? ==> r.value.app.locked == a.locked
    ensures r.Proceeds? && e.Request? ==>
      && r.value.app.counter == AddOne(a.counter)
      && r.value.effects == [Evaluated(Snippet.Injection(e.kind, AddOne(a.counter), e.payload))]
    ensures r.Proceeds? && !e.Request? ==>
      && r.value.app.counter == a.counter
      && forall i :: 0 <= i < |r.value.effects| ==> r.value.effects[i].Fired?
  {
    match e
    case OnLoad(cb) =>
      (match Load(a, cb)
       case Blocks => Blocks
       case Proceeds(next) => Proceeds(Trace(next, [])))
    case OnReady(cb) =>
      (match Ready(a, cb)
       case Blocks => Blocks
       case Proceeds(next) => Proceeds(Trace(next, [])))
    case Tick(polled, probe) =>
      (match Poll(a, polled, probe)
       case Blocks => Blocks
       case Proceeds(p) => Proceeds(Trace(p.app, FiredEffects(p.fired))))
    case Request(kind, payload) =>
      var t := TakeId(a);
      Proceeds(Trace(t.app, [Evaluated(Snippet.Injection(kind, t.id, payload))]))
  }

  /**
    The calls `es`, one after the other, from `a`; a call that waits ends the
    run. Before `Dispose` no call waits, and the lock stays as it was.
   */
  function Run(a: App, es: seq<Event>): (r: Blocking<Trace>)
    ensures r.Blocks? ==> a.locked
    ensures r.Proceeds? ==> r.value.app.locked == a.locked
    decreases |es|
  {
    if |es| == 0 then Proceeds(Trace(a, []))
    else
      match Apply(a, es[0])
      case Blocks => Blocks
      case Proceeds(t) =>
        match Run(t.app, es[1..])
        case Blocks => Blocks
        case Proceeds(u) => Proceeds(Trace(u.app, t.effects + u.effects))
  }

  /** Carry on from `r` with the calls `es`; a blocked run stays blocked. */
  function Continue(r: Blocking<Trace>, es: seq<Event>): Blocking<Trace> {
    match r
    case Blocks => Blocks
    case Proceeds(t) =>
      match Run(t.app, es)
      case Blocks => Blocks
      case Proceeds(u) => Proceeds(Trace(u.app, t.effects + u.effects))
  }

  /** A `Request` is the `Inject` call: same new record, and the snippet evaluated is the one `Inject` builds. */
  lemma RequestIsInject(a: App, kind: Snippet.Kind, payload: string)
    ensures var i := Inject(a, kind, payload);
      && Apply(a, Request(kind, payload)) == Proceeds(Trace(i.app, [Evaluated(Snippet.Injection(kind, i.app.counter, payload))]))
      && Evaluated(Snippet.Injection(kind, i.app.counter, payload)).Js() == i.js
  {
  }

  /** A run is its first call followed by the rest. */
  lemma RunCons(a: App, e: Event, rest: seq<Event>)
    ensures Run(a, [e] + rest) == Continue(Apply(a, e), rest)
  {
    assert ([e] + rest)[0] == e;
    assert ([e] + rest)[1..] == rest;
  }

  /** A run of one call is that call. */
  lemma RunSingle(a: App, e: Event)
    ensures Run(a, [e]) == Apply(a, e)
  {
    RunCons(a, e, []);
    assert [e] + [] == [e];
    match Apply(a, e)
    case Blocks =>
    case Proceeds(t) => assert t.effects + [] == t.effects;
  }

  /** The bounds of the last successful bounds query in `es`, or `b` if there was none. */
  function LastObserved(b: Bounds, es: seq<Event>): Bounds
    decreases |es|
  {
    if |es| == 0 then b
    else
      match es[|es| - 1]
      case Tick(Some(x), _) => x
      case _ => LastObserved(b, es[..|es| - 1])
  }

  /** How many ticks of `es` move the readiness from something else to `target`. */
  function Entries(state: string, es: seq<Event>, target: string): nat
    decreases |es|
  {
    if |es| == 0 then 0
    else
      match es[0]
      case Tick(_, probe) => (if probe != state && probe == target then 1 else 0) + Entries(probe, es[1..], target)
      case _ => Entries(state, es[1..], target)
  }

  function Loads(cbs: seq<Callback>): (es: seq<Event>)
  {
    seq(|cbs|, i requires 0 <= i < |cbs| => OnLoad(cbs[i]))
  }

  function Readies(cbs: seq<Callback>): (es: seq<Event>)
  {
    seq(|cbs|, i requires 0 <= i < |cbs| => OnReady(cbs[i]))
  }

  /** Every event is a loop iteration. */
  predicate OnlyTicks(es: seq<Event>) {
    forall i :: 0 <= i < |es| ==> es[i].Tick?
  }

  /** Every event is an injection. */
  predicate OnlyRequests(es: seq<Event>) {
    forall i :: 0 <= i < |es| ==> es[i].Request?
  }

  /** Firing a list reports each callback as often as it is listed. */
  lemma {:induction false} FiredEffectsCount(cbs: seq<Callback>, cb: Callback)
    ensures multiset(FiredEffects(cbs))[Fired(cb)] == multiset(cbs)[cb]
    decreases |cbs|
  {
    if |cbs| > 0 {
      FiredEffectsCount(cbs[..|cbs| - 1], cb);
      assert cbs == cbs[..|cbs| - 1] + [cbs[|cbs| - 1]];
    }
  }

  lemma {:induction false} FiredEffectsAppend(xs: seq<Callback>, ys: seq<Callback>)
    ensures FiredEffects(xs + ys) == FiredEffects(xs) + FiredEffects(ys)
    decreases |ys|
  {
    if |ys| > 0 {
      assert (xs + ys)[..|xs + ys| - 1] == xs + ys[..|ys| - 1];
      FiredEffectsAppend(xs, ys[..|ys| - 1]);
    } else {
      assert xs + ys == xs;
    }
  }

  /** A run of `xs + ys` is the run of `xs` followed by the run of `ys`. */
  lemma {:induction false} RunAppend(a: App, xs: seq<Event>, ys: seq<Event>)
    ensures Run(a, xs + ys) == Continue(Run(a, xs), ys)
    decreases |xs|
  {
    if |xs| == 0 {
      assert xs + ys == ys;
      match Run(a, ys)
      case Blocks =>
      case Proceeds(u) => assert [] + u.effects == u.effects;
    } else {
      assert (xs + ys)[0] == xs[0];
      assert (xs + ys)[1..] == xs[1..] + ys;
      match Apply(a, xs[0])
      case Blocks =>
      case Proceeds(t) =>
        RunAppend(t.app, xs[1..], ys);
        match Run(t.app, xs[1..])
        case Blocks =>
        case Proceeds(u) =>
          match Run(u.app, ys)
          case Blocks =>
          case Proceeds(v) =>
            assert t.effects + (u.effects + v.effects) == (t.effects + u.effects) + v.effects;
    }
  }

  /** The stored bounds are always those of the last successful bounds query. */
  lemma {:induction false} RunKeepsLastObserved(a: App, es: seq<Event>)
    requires !a.locked
    ensures Run(a, es).Proceeds? && Run(a, es).value.app.bounds == LastObserved(a.bounds, es)
    decreases |es|
  {
    if |es| > 0 {
      var front := es[..|es| - 1];
      var e := es[|es| - 1];
      assert es == front + [e];
      RunKeepsLastObserved(a, front);
      RunAppend(a, front, [e]);
      var t := Run(a, front).value;
      assert [e][1..] == [];
      assert Run(t.app, [e]) == Continue(Apply(t.app, e), []);
    }
  }

  /**
    Over any sequence of loop iterations, a callback fires once for every
    entry into "interactive" per time it is registered with `Load`, plus once
    for every entry into "complete" per time it is registered with `Ready`.
   */
  lemma {:induction false} FiringCount(a: App, es: seq<Event>, cb: Callback)
    requires !a.locked && OnlyTicks(es)
    ensures Run(a, es).Proceeds?
    ensures multiset(Run(a, es).value.effects)[Fired(cb)]
      == Entries(a.state, es, Interactive) * multiset(a.load)[cb] + Entries(a.state, es, Complete) * multiset(a.ready)[cb]
    decreases |es|
  {
    if |es| > 0 {
      var e := es[0];
      var p := Poll(a, e.polled, e.probe).value;
      assert OnlyTicks(es[1..]) by {
        forall i | 0 <= i < |es[1..]| ensures es[1..][i].Tick? {
          assert es[1..][i] == es[i + 1];
        }
      }
      FiringCount(p.app, es[1..], cb);
      TickSplit(a, es);
      FiredEffectsCount(p.fired, cb);
      TickTally(a, es, cb);
      Combine(multiset(p.fired)[cb],
        Entries(e.probe, es[1..], Interactive), Entries(e.probe, es[1..], Complete),
        multiset(a.load)[cb], multiset(a.ready)[cb],
        Entries(a.state, es, Interactive), Entries(a.state, es, Complete));
    }
  }

  /** The effects of a run of ticks: those of the first tick, then those of the rest. */
  lemma TickSplit(a: App, es: seq<Event>)
    requires !a.locked && |es| > 0 && es[0].Tick?
    ensures Poll(a, es[0].polled, es[0].probe).Proceeds?
    ensures var p := Poll(a, es[0].polled, es[0].probe).value;
      && Run(p.app, es[1..]).Proceeds?
      && Run(a, es).Proceeds?
      && Run(a, es).value.effects == FiredEffects(p.fired) + Run(p.app, es[1..]).value.effects
  {
    var e := es[0];
    var p := Poll(a, e.polled, e.probe).value;
    assert Apply(a, e) == Proceeds(Trace(p.app, FiredEffects(p.fired)));
    RunCons(a, e, es[1..]);
    assert [e] + es[1..] == es;
  }

  /** How the first tick of a run counts towards each kind of entry, and what it fires. */
  lemma TickTally(a: App, es: seq<Event>, cb: Callback)
    requires !a.locked && |es| > 0 && es[0].Tick?
    ensures var e := es[0];
      var fired := Poll(a, e.polled, e.probe).value.fired;
      var li := Entries(e.probe, es[1..], Interactive);
      var lc := Entries(e.probe, es[1..], Complete);
      var ei := Entries(a.state, es, Interactive);
      var ec := Entries(a.state, es, Complete);
      || (ei == 1 + li && ec == lc && fired == a.load)
      || (ei == li && ec == 1 + lc && fired == a.ready)
      || (ei == li && ec == lc && fired == [])
  {
  }

  lemma Combine(f: nat, li: nat, lc: nat, nl: nat, nr: nat, ei: nat, ec: nat)
    requires || (ei == 1 + li && ec == lc && f == nl)
             || (ei == li && ec == 1 + lc && f == nr)
             || (ei == li && ec == lc && f == 0)
    ensures f + (li * nl + lc * nr) == ei * nl + ec * nr
  {
    OneMore(li, nl);
    OneMore(lc, nr);
  }

  lemma OneMore(k: nat, n: nat)
    ensures (1 + k) * n == n + k * n
  {
  }

  /**
    Injections take consecutive ids from the shared counter, wrapping as
    `int32` does, and the j-th one evaluates the snippet for the j-th request.
   */
  lemma {:induction false} InjectionRun(a: App, es: seq<Event>)
    requires OnlyRequests(es)
    ensures Run(a, es).Proceeds?
    ensures Run(a, es).value.app == a.(counter := Advance(a.counter, |es|))
    ensures |Run(a, es).value.effects| == |es|
    ensures forall j :: 0 <= j < |es| ==>
      Run(a, es).value.effects[j] == Evaluated(Snippet.Injection(es[j].kind, Advance(a.counter, j + 1), es[j].payload))
    decreases |es|
  {
    if |es| == 0 {
      assert Run(a, es).value.app == a;
    } else {
      var i := TakeId(a);
      assert OnlyRequests(es[1..]) by {
        forall j | 0 <= j < |es[1..]| ensures es[1..][j].Request? {
          assert es[1..][j] == es[j + 1];
        }
      }
      InjectionRun(i.app, es[1..]);
      RequestSplit(a, es);
      assert Advance(a.counter, |es|) == Advance(i.app.counter, |es[1..]|);
      InjectionShift(a.counter, es, Run(i.app, es[1..]).value.effects, Run(a, es).value.effects);
    }
  }

  /** The step of `InjectionRun`: after the first snippet, the rest are numbered from the next id. */
  lemma InjectionShift(c: int32, es: seq<Event>, rest: seq<Effect>, all: seq<Effect>)
    requires |es| > 0 && OnlyRequests(es)
    requires all == [Evaluated(Snippet.Injection(es[0].kind, AddOne(c), es[0].payload))] + rest
    requires |rest| == |es| - 1
    requires forall j :: 0 <= j < |es| - 1 ==>
      rest[j] == Evaluated(Snippet.Injection(es[1..][j].kind, Advance(AddOne(c), j + 1), es[1..][j].payload))
    ensures forall j :: 0 <= j < |es| ==>
      all[j] == Evaluated(Snippet.Injection(es[j].kind, Advance(c, j + 1), es[j].payload))
  {
    forall j | 1 <= j < |es|
      ensures all[j] == Evaluated(Snippet.Injection(es[j].kind, Advance(c, j + 1), es[j].payload))
    {
      var e := es[j];
      assert es[1..][j - 1] == e;
      assert Advance(c, j + 1) == Advance(AddOne(c), j);
      assert all[j] == rest[j - 1] == Evaluated(Snippet.Injection(e.kind, Advance(AddOne(c), j), e.payload));
    }
  }

  /** The effects of a run of injections: the first snippet, then those of the rest. */
  lemma RequestSplit(a: App, es: seq<Event>)
    requires |es| > 0 && es[0].Request? && Run(TakeId(a).app, es[1..]).Proceeds?
    ensures var i := TakeId(a);
      && Run(a, es).Proceeds?
      && Run(a, es).value == Trace(Run(i.app, es[1..]).value.app, [Evaluated(Snippet.Injection(es[0].kind, i.app.counter, es[0].payload))] + Run(i.app, es[1..]).value.effects)
  {
    var i := TakeId(a);
    assert Apply(a, es[0]) == Proceeds(Trace(i.app, [Evaluated(Snippet.Injection(es[0].kind, i.app.counter, es[0].payload))]));
    RunCons(a, es[0], es[1..]);
    assert [es[0]] + es[1..] == es;
  }

  /** The i-th and j-th ids taken after `c` differ when fewer than 2^32 apart. */
  lemma IdsApart(c: int32, i: nat, j: nat)
    requires i < j < MODULUS
    ensures Advance(c, i + 1) != Advance(c, j + 1)
  {
    AdvanceIsWrap(c, i + 1);
    AdvanceIsWrap(c, j + 1);
    WrapDistinct(c + i + 1, c + j + 1);
  }

  /** The injections a run performed, in order, leaving out the callbacks it fired. */
  function Injections(effects: seq<Effect>): seq<Snippet.Injection>
    decreases |effects|
  {
    if |effects| == 0 then []
    else (if effects[0].Evaluated? then [effects[0].request] else []) + Injections(effects[1..])
  }

  /** The injection calls among `es`, in order. */
  function Requests(es: seq<Event>): (r: seq<Event>)
    ensures |r| <= |es|
    ensures forall i :: 0 <= i < |r| ==> r[i].Request?
    decreases |es|
  {
    if |es| == 0 then []
    else (if es[0].Request? then [es[0]] else []) + Requests(es[1..])
  }

  lemma {:induction false} InjectionsAppend(xs: seq<Effect>, ys: seq<Effect>)
    ensures Injections(xs + ys) == Injections(xs) + Injections(ys)
    decreases |xs|
  {
    if |xs| == 0 {
      assert xs + ys == ys;
    } else {
      assert (xs + ys)[0] == xs[0];
      assert (xs + ys)[1..] == xs[1..] + ys;
      InjectionsAppend(xs[1..], ys);
    }
  }

  /** Firing callbacks performs no injection. */
  lemma {:induction false} FiredInjectsNothing(cbs: seq<Callback>)
    ensures Injections(FiredEffects(cbs)) == []
    decreases |cbs|
  {
    if |cbs| > 0 {
      FiredInjectsNothing(cbs[..|cbs| - 1]);
      InjectionsAppend(FiredEffects(cbs[..|cbs| - 1]), [Fired(cbs[|cbs| - 1])]);
    }
  }

  /**
    Registrations and loop iterations before disposal go through, leave the
    counter and the lock alone, and perform no injection.
   */
  lemma NonRequestStep(a: App, e: Event)
    requires !a.locked && !e.Request?
    ensures Apply(a, e).Proceeds?
    ensures Apply(a, e).value.app.counter == a.counter && !Apply(a, e).value.app.locked
    ensures Injections(Apply(a, e).value.effects) == []
  {
    if e.Tick? {
      FiredInjectsNothing(Poll(a, e.polled, e.probe).value.fired);
    }
  }

  /**
    Before disposal, whatever registrations and loop iterations are
    interleaved with them, the injection calls of a run take consecutive ids
    from the shared counter: the k-th injection evaluates its own kind and
    payload under the counter advanced k+1 times.
   */
  lemma {:induction false} InjectionsNumbered(a: App, es: seq<Event>)
    requires !a.locked
    ensures Run(a, es).Proceeds?
    ensures var r := Run(a, es).value;
      && !r.app.locked
      && r.app.counter == Advance(a.counter, |Requests(es)|)
      && |Injections(r.effects)| == |Requests(es)|
      && forall k :: 0 <= k < |Requests(es)| ==>
           Injections(r.effects)[k] == Snippet.Injection(Requests(es)[k].kind, Advance(a.counter, k + 1), Requests(es)[k].payload)
    decreases |es|
  {
    if |es| == 0 {
      assert Run(a, es) == Proceeds(Trace(a, []));
    } else {
      var e := es[0];
      var t := Apply(a, e).value;
      if e.Request? {
        assert t.app == a.(counter := AddOne(a.counter));
      } else {
        NonRequestStep(a, e);
      }
      InjectionsNumbered(t.app, es[1..]);
      var u := Run(t.app, es[1..]).value;
      assert Run(a, es) == Proceeds(Trace(u.app, t.effects + u.effects));
      InjectionsAppend(t.effects, u.effects);
      NumberedStep(a.counter, e, t.app.counter, Injections(t.effects), Requests(es[1..]), Injections(u.effects));
    }
  }

  /** The step of `InjectionsNumbered`: one call, then the rest numbered from the counter it leaves. */
  lemma NumberedStep(c: int32, e: Event, c1: int32, first: seq<Snippet.Injection>, req: seq<Event>, rest: seq<Snippet.Injection>)
    requires e.Request? ==> c1 == AddOne(c) && first == [Snippet.Injection(e.kind, AddOne(c), e.payload)]
    requires !e.Request? ==> c1 == c && first == []
    requires forall i :: 0 <= i < |req| ==> req[i].Request?
    requires |rest| == |req|
    requires forall k :: 0 <= k < |req| ==> rest[k] == Snippet.Injection(req[k].kind, Advance(c1, k + 1), req[k].payload)
    ensures var all := (if e.Request? then [e] else []) + req;
      && |first + rest| == |all|
      && Advance(c1, |req|) == Advance(c, |all|)
      && forall k :: 0 <= k < |all| ==> (first + rest)[k] == Snippet.Injection(all[k].kind, Advance(c, k + 1), all[k].payload)
  {
    var all := (if e.Request? then [e] else []) + req;
    if e.Request? {
      assert Advance(c1, |req|) == Advance(c, |req| + 1);
      forall k | 0 <= k < |all|
        ensures (first + rest)[k] == Snippet.Injection(all[k].kind, Advance(c, k + 1), all[k].payload)
      {
        if k == 0 {
          assert Advance(c, 1) == Advance(AddOne(c), 0);
        } else {
          assert (first + rest)[k] == rest[k - 1] && all[k] == req[k - 1];
          assert Advance(c, k + 1) == Advance(c1, k);
        }
      }
    } else {
      assert all == req && first + rest == rest;
    }
  }

  /**
    Fewer than 2^32 injections before disposal, interleaved with any
    registrations and loop iterations, never reuse an id: no two of them name
    the same element, so no two snippets are the same.
   */
  lemma InjectionIdsDistinct(a: App, es: seq<Event>)
    requires !a.locked && |Requests(es)| <= MODULUS
    ensures Run(a, es).Proceeds?
    ensures var inj := Injections(Run(a, es).value.effects);
      && |inj| == |Requests(es)|
      && forall i, j :: 0 <= i < j < |inj| ==>
           && inj[i].id != inj[j].id
           && Snippet.Name(inj[i].id) != Snippet.Name(inj[j].id)
           && Snippet.Build(inj[i].kind, inj[i].id, inj[i].payload) != Snippet.Build(inj[j].kind, inj[j].id, inj[j].payload)
  {
    InjectionsNumbered(a, es);
    var inj := Injections(Run(a, es).value.effects);
    forall i, j | 0 <= i < j < |inj|
      ensures inj[i].id != inj[j].id
      ensures Snippet.Name(inj[i].id) != Snippet.Name(inj[j].id)
      ensures Snippet.Build(inj[i].kind, inj[i].id, inj[i].payload) != Snippet.Build(inj[j].kind, inj[j].id, inj[j].payload)
    {
      var m, n := inj[i], inj[j];
      IdsApart(a.counter, i, j);
      Snippet.NameInjective(m.id, n.id);
      Snippet.BuildInjective(m.kind, m.id, m.payload, n.kind, n.id, n.payload);
    }
  }

  /**
    From a freshly created app, with registrations and loop iterations
    interleaved in any way, the n-th injection uses id n, as long as the
    counter does not wrap.
   */
  lemma FreshIdsCountFromOne(saved: Option<Bounds>, width: int, height: int, es: seq<Event>)
    requires |Requests(es)| <= MAX
    ensures NewApp(saved, width, height, true).Success?
    ensures var app := NewApp(saved, width, height, true).value.app;
      && Run(app, es).Proceeds?
      && |Injections(Run(app, es).value.effects)| == |Requests(es)|
      && forall k :: 0 <= k < |Requests(es)| ==>
           Injections(Run(app, es).value.effects)[k] == Snippet.Injection(Requests(es)[k].kind, k + 1, Requests(es)[k].payload)
  {
    var app := NewApp(saved, width, height, true).value.app;
    InjectionsNumbered(app, es);
    var inj := Injections(Run(app, es).value.effects);
    forall k | 0 <= k < |Requests(es)|
      ensures inj[k] == Snippet.Injection(Requests(es)[k].kind, k + 1, Requests(es)[k].payload)
    {
      AdvanceIsWrap(0, k + 1);
    }
  }

  /** Registrations append to their own list, in call order, and leave everything else alone. */
  lemma {:induction false} LoadsAppend(a: App, cbs: seq<Callback>)
    requires !a.locked
    ensures Run(a, Loads(cbs)) == Proceeds(Trace(a.(load := a.load + cbs), []))
    decreases |cbs|
  {
    if |cbs| == 0 {
      assert a.load + cbs == a.load;
    } else {
      var es := Loads(cbs);
      var next := a.(load := a.load + [cbs[0]]);
      assert es[0] == OnLoad(cbs[0]);
      assert Apply(a, es[0]) == Proceeds(Trace(next, []));
      assert es[1..] == Loads(cbs[1..]);
      LoadsAppend(next, cbs[1..]);
      assert next.load + cbs[1..] == a.load + cbs;
      var none: seq<Effect> := [];
      assert none + none == none;
    }
  }

  lemma {:induction false} ReadiesAppend(a: App, cbs: seq<Callback>)
    requires !a.locked
    ensures Run(a, Readies(cbs)) == Proceeds(Trace(a.(ready := a.ready + cbs), []))
    decreases |cbs|
  {
    if |cbs| == 0 {
      assert a.ready + cbs == a.ready;
    } else {
      var es := Readies(cbs);
      var next := a.(ready := a.ready + [cbs[0]]);
      assert es[0] == OnReady(cbs[0]);
      assert Apply(a, es[0]) == Proceeds(Trace(next, []));
      assert es[1..] == Readies(cbs[1..]);
      ReadiesAppend(next, cbs[1..]);
      assert next.ready + cbs[1..] == a.ready + cbs;
      var none: seq<Effect> := [];
      assert none + none == none;
    }
  }

  /**
    Callbacks registered with `Load` fire on the next entry into
    "interactive" after those already registered, in registration order, and
    no `Ready` callback fires with them.
   */
  lemma LoadsFireInOrder(a: App, cbs: seq<Callback>, polled: Option<Bounds>)
    requires !a.locked && a.state != Interactive
    ensures Run(a, Loads(cbs) + [Tick(polled, Interactive)]).Proceeds?
    ensures Run(a, Loads(cbs) + [Tick(polled, Interactive)]).value.effects == FiredEffects(a.load) + FiredEffects(cbs)
  {
    var tick := Tick(polled, Interactive);
    var registered := a.(load := a.load + cbs);
    LoadsAppend(a, cbs);
    RunAppend(a, Loads(cbs), [tick]);
    RunSingle(registered, tick);
    var fired := FiredEffects(registered.load);
    assert Apply(registered, tick) == Proceeds(Trace(registered.(bounds := polled.GetOr(a.bounds), state := Interactive), fired));
    assert [] + fired == fired;
    FiredEffectsAppend(a.load, cbs);
  }

  /** Callbacks registered with `Ready` fire on the next entry into "complete", in registration order. */
  lemma ReadiesFireInOrder(a: App, cbs: seq<Callback>, polled: Option<Bounds>)
    requires !a.locked && a.state != Complete
    ensures Run(a, Readies(cbs) + [Tick(polled, Complete)]).Proceeds?
    ensures Run(a, Readies(cbs) + [Tick(polled, Complete)]).value.effects == FiredEffects(a.ready) + FiredEffects(cbs)
  {
    var tick := Tick(polled, Complete);
    var registered := a.(ready := a.ready + cbs);
    ReadiesAppend(a, cbs);
    RunAppend(a, Readies(cbs), [tick]);
    RunSingle(registered, tick);
    var fired := FiredEffects(registered.ready);
    assert Apply(registered, tick) == Proceeds(Trace(registered.(bounds := polled.GetOr(a.bounds), state := Complete), fired));
    assert [] + fired == fired;
    FiredEffectsAppend(a.ready, cbs);
  }

  /**
    A callback registered after the app entered "interactive" does not fire
    for that entry, nor on later "interactive" probes while the state stays.
   */
  lemma LateLoadNotRetroactive(a: App, cb: Callback, p: Option<Bounds>, q: Option<Bounds>)
    requires !a.locked && a.state != Interactive
    ensures Run(a, [Tick(p, Interactive), OnLoad(cb), Tick(q, Interactive)]).Proceeds?
    ensures Run(a, [Tick(p, Interactive), OnLoad(cb), Tick(q, Interactive)]).value.effects == FiredEffects(a.load)
  {
    var t1, t2 := Tick(p, Interactive), Tick(q, Interactive);
    var a1 := a.(bounds := p.GetOr(a.bounds), state := Interactive);
    var a2 := a1.(load := a.load + [cb]);
    var none: seq<Effect> := [];
    assert Apply(a, t1) == Proceeds(Trace(a1, FiredEffects(a.load)));
    assert Apply(a1, OnLoad(cb)) == Proceeds(Trace(a2, none));
    assert FiredEffects([]) == none;
    assert Apply(a2, t2) == Proceeds(Trace(a2.(bounds := q.GetOr(a1.bounds)), none));
    RunSingle(a2, t2);
    RunCons(a1, OnLoad(cb), [t2]);
    assert [OnLoad(cb)] + [t2] == [OnLoad(cb), t2];
    RunCons(a, t1, [OnLoad(cb), t2]);
    assert [t1] + [OnLoad(cb), t2] == [t1, OnLoad(cb), t2];
    assert none + none == none;
    assert FiredEffects(a.load) + none == FiredEffects(a.load);
  }

  /**
    A callback registered after the app entered "complete" does not fire
    for that entry, nor on later "complete" probes while the state stays.
   */
  lemma LateReadyNotRetroactive(a: App, cb: Callback, p: Option<Bounds>, q: Option<Bounds>)
    requires !a.locked && a.state != Complete
    ensures Run(a, [Tick(p, Complete), OnReady(cb), Tick(q, Complete)]).Proceeds?
    ensures Run(a, [Tick(p, Complete), OnReady(cb), Tick(q, Complete)]).value.effects == FiredEffects(a.ready)
  {
    var t1, t2 := Tick(p, Complete), Tick(q, Complete);
    var a1 := a.(bounds := p.GetOr(a.bounds), state := Complete);
    var a2 := a1.(ready := a.ready + [cb]);
    var none: seq<Effect> := [];
    assert Apply(a, t1) == Proceeds(Trace(a1, FiredEffects(a.ready)));
    assert Apply(a1, OnReady(cb)) == Proceeds(Trace(a2, none));
    assert FiredEffects([]) == none;
    assert Apply(a2, t2) == Proceeds(Trace(a2.(bounds := q.GetOr(a1.bounds)), none));
    RunSingle(a2, t2);
    RunCons(a1, OnReady(cb), [t2]);
    assert [OnReady(cb)] + [t2] == [OnReady(cb), t2];
    RunCons(a, t1, [OnReady(cb), t2]);
    assert [t1] + [OnReady(cb), t2] == [t1, OnReady(cb), t2];
    assert none + none == none;
    assert FiredEffects(a.ready) + none == FiredEffects(a.ready);
  }

  /**
    After `Dispose` every call that takes the lock waits forever: further
    registrations, a second `Dispose`, and a loop iteration whose bounds query
    succeeds. Injections still go through.
   */
  lemma DisposeIsTerminal(a: App, cb: Callback, b: Bounds, probe: string, kind: Snippet.Kind, payload: string)
    requires !a.locked
    ensures Dispose(a).Proceeds?
    ensures var d := Dispose(a).value.app;
      && Apply(d, OnLoad(cb)).Blocks?
      && Apply(d, OnReady(cb)).Blocks?
      && Apply(d, Tick(Some(b), probe)).Blocks?
      && Dispose(d).Blocks?
      && Apply(d, Request(kind, payload)).Proceeds?
  {
  }

  /**
    A whole session: start, any calls before disposal, dispose. The record
    written is the last bounds the loop observed (or the start-up bounds),
    and a later start that reads it back opens the window exactly there.
   */
  lemma SessionRoundTrip(saved: Option<Bounds>, width: int, height: int, es: seq<Event>, width2: int, height2: int)
    ensures var app := NewApp(saved, width, height, true).value.app;
      && Run(app, es).Proceeds?
      && Dispose(Run(app, es).value.app).Proceeds?
      && var persisted := Dispose(Run(app, es).value.app).value.persisted;
      && persisted == LastObserved(app.bounds, es)
      && var again := NewApp(Some(persisted), width2, height2, true).value;
      && again.app.bounds == persisted
      && again.uiWidth == persisted.width && again.uiHeight == persisted.height
  {
    var app := NewApp(saved, width, height, true).value.app;
    RunKeepsLastObserved(app, es);
  }

  /** Every bounds query in `es` failed. */
  predicate NoBoundsObserved(es: seq<Event>) {
    forall i :: 0 <= i < |es| ==> !(es[i].Tick? && es[i].polled.Some?)
  }

  /** With no successful bounds query, the last observed bounds are the starting ones. */
  lemma {:induction false} LastObservedUnchanged(b: Bounds, es: seq<Event>)
    requires NoBoundsObserved(es)
    ensures LastObserved(b, es) == b
    decreases |es|
  {
    if |es| > 0 {
      assert !(es[|es| - 1].Tick? && es[|es| - 1].polled.Some?);
      LastObservedUnchanged(b, es[..|es| - 1]);
    }
  }

  /**
    A first session without a saved record, in which no bounds query
    succeeds, writes the default record: at the origin, the caller's size,
    in the normal state.
   */
  lemma FirstSessionPersistsDefaults(width: int, height: int, es: seq<Event>)
    requires NoBoundsObserved(es)
    ensures var app := NewApp(None, width, height, true).value.app;
      && Run(app, es).Proceeds?
      && Dispose(Run(app, es).value.app).Proceeds?
      && Dispose(Run(app, es).value.app).value.persisted == Bounds(0, 0, width, height, Normal)
  {
    var app := NewApp(None, width, height, true).value.app;
    SessionRoundTrip(None, width, height, es, width, height);
    LastObservedUnchanged(app.bounds, es);
  }
}
