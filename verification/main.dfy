/** The front end's main thread of src/main.rs: the initial model, the relay
    that turns worker results into messages, the one request for the root, and
    the render / receive / update loop with its cascade of follow-up messages.
    The `update` function of the update module is not part of this model; it is
    a parameter, given as a function from a model and a message to the new
    model, the paths it requested from the worker, and its result. */
module App {
  import opened Wrappers
  import Workers

  type BrowserPath = Workers.BrowserPath
  type NixValue = Workers.NixValue

  datatype RunningState = Running | Stopped

  /** The application model. The fields other than these two take their
      default values at start; they are carried, uninterpreted, in `rest`. */
  datatype Model<Rest> = Model(runningState: RunningState, currentPath: BrowserPath, rest: Rest)

  /** The path the browser opens at. */
  const Root: BrowserPath := ["nixosConfigurations"]

  /** The model main starts with; `defaults` stands for the defaulted fields. */
  function InitialModel<Rest>(defaults: Rest): (m: Model<Rest>)
    ensures m.runningState == Running && m.currentPath == Root && m.rest == defaults
  {
    Model(Running, Root, defaults)
  }

  /** A message of the mailbox: a worker result, or any other message (key
      events and the messages `update` chains), identified by a number. */
  datatype Message = Data(path: BrowserPath, value: NixValue) | Other(code: nat)

  /** What one call of `update` does: the model it leaves (it is changed in
      place even when the call fails), the paths it sent to the worker, and
      its result: a follow-up message, none, or an error. */
  datatype Step<Rest> = Step(model: Model<Rest>, requested: seq<BrowserPath>, next: Result<Option<Message>, UpdateError>)

  /** The error an `update` call may return; its content does not matter here. */
  datatype UpdateError = UpdateError

  // ---------------------------------------------------------------------------
  // The relay thread
  // ---------------------------------------------------------------------------

  /** `mailbox` holds, in order, one `Data` message per worker result. */
  predicate Relays(mailbox: seq<Message>, results: seq<(BrowserPath, NixValue)>)
  {
    |mailbox| == |results| &&
    forall k | 0 <= k < |results| :: mailbox[k] == Data(results[k].0, results[k].1)
  }

  /** The relay thread: every result the worker sends becomes a `Data` message,
      in arrival order, until the result channel is closed. */
  method Relay(results: seq<(BrowserPath, NixValue)>) returns (mailbox: seq<Message>)
    ensures Relays(mailbox, results)
  {
    mailbox := [];
    var i := 0;
    while i < |results|
      invariant i <= |results|
      invariant Relays(mailbox, results[..i])
    {
      var (p, v) := results[i];
      mailbox := mailbox + [Data(p, v)];
      i := i + 1;
    }
    assert results[..i] == results;
  }

  /** The worker results a sequence of messages carries, in order. */
  function Payloads(msgs: seq<Message>): seq<(BrowserPath, NixValue)>
  {
    if msgs == [] then []
    else (if msgs[0].Data? then [(msgs[0].path, msgs[0].value)] else []) + Payloads(msgs[1..])
  }

  /** The relay loses, duplicates and reorders nothing. */
  lemma {:induction false} RelayPayloads(mailbox: seq<Message>, results: seq<(BrowserPath, NixValue)>)
    requires Relays(mailbox, results)
    ensures Payloads(mailbox) == results
    decreases |results|
  {
    if results != [] {
      RelayPayloads(mailbox[1..], results[1..]);
    }
  }

  /** `xs` is an interleaving of `a` and `b`, each kept in its own order. */
  predicate Interleaves(xs: seq<Message>, a: seq<Message>, b: seq<Message>)
    decreases |xs|
  {
    if xs == [] then a == [] && b == []
    else
      (a != [] && xs[0] == a[0] && Interleaves(xs[1..], a[1..], b)) ||
      (b != [] && xs[0] == b[0] && Interleaves(xs[1..], a, b[1..]))
  }

  /** Other senders that send no `Data` messages cannot disturb the order of
      the relayed results in the mailbox. */
  lemma {:induction false} MailboxKeepsResultOrder(xs: seq<Message>, relayed: seq<Message>, others: seq<Message>)
    requires Interleaves(xs, relayed, others)
    requires forall k | 0 <= k < |others| :: others[k].Other?
    ensures Payloads(xs) == Payloads(relayed)
    decreases |xs|
  {
    if xs != [] {
      if relayed != [] && xs[0] == relayed[0] && Interleaves(xs[1..], relayed[1..], others) {
        MailboxKeepsResultOrder(xs[1..], relayed[1..], others);
      } else {
        MailboxKeepsResultOrder(xs[1..], relayed, others[1..]);
        assert xs[0] == others[0];
      }
    }
  }

  // ---------------------------------------------------------------------------
  // The cascade of updates
  // ---------------------------------------------------------------------------

  /** How a cascade ended: `update` returned no follow-up (or an error), or the
      bound on the number of updates was reached. */
  datatype End = Settled | Exhausted

  /** The effect of a cascade: the model, the paths requested, in order, the
      number of `update` calls and how it ended. */
  datatype Cascade<Rest> = Cascade(model: Model<Rest>, requested: seq<BrowserPath>, applied: nat, end: End)

  /** The message an update result leaves to process next: an error ends the
      cascade just as `Ok(None)` does. */
  function Next(r: Result<Option<Message>, UpdateError>): Option<Message>
  {
    if r.Ok? then r.value else None
  }

  /** The cascade from the message `current`, with at most `fuel` more updates,
      after `applied` updates that requested `requested`. */
  function Cascading<Rest>(update: (Model<Rest>, Message) -> Step<Rest>, m: Model<Rest>, current: Option<Message>,
                           fuel: nat, requested: seq<BrowserPath>, applied: nat): Cascade<Rest>
    decreases fuel
  {
    if current.None? then Cascade(m, requested, applied, Settled)
    else if fuel == 0 then Cascade(m, requested, applied, Exhausted)
    else
      var st := update(m, current.value);
      Cascading(update, st.model, Next(st.next), fuel - 1, requested + st.requested, applied + 1)
  }

  /** The cascade one received message starts. */
  function Trampoline<Rest>(update: (Model<Rest>, Message) -> Step<Rest>, m: Model<Rest>, msg: Message, fuel: nat): Cascade<Rest>
  {
    Cascading(update, m, Some(msg), fuel, [], 0)
  }

  /** A cascade carries what was done before it along unchanged. */
  lemma {:induction false} CascadingShift<Rest>(update: (Model<Rest>, Message) -> Step<Rest>, m: Model<Rest>,
                                                current: Option<Message>, fuel: nat, requested: seq<BrowserPath>, applied: nat)
    ensures var c, c0 := Cascading(update, m, current, fuel, requested, applied), Cascading(update, m, current, fuel, [], 0);
      c == Cascade(c0.model, requested + c0.requested, applied + c0.applied, c0.end)
    decreases fuel
  {
    if current.Some? && fuel > 0 {
      var st := update(m, current.value);
      CascadingShift(update, st.model, Next(st.next), fuel - 1, requested + st.requested, applied + 1);
      CascadingShift(update, st.model, Next(st.next), fuel - 1, st.requested, 1);
      var c0 := Cascading(update, st.model, Next(st.next), fuel - 1, [], 0);
      assert [] + st.requested == st.requested;
      assert (requested + st.requested) + c0.requested == requested + (st.requested + c0.requested);
    } else {
      assert requested + [] == requested;
    }
  }

  /** A pending message gets at least one update, and at most `fuel`; the
      cascade runs out of fuel only after exactly `fuel` updates. */
  lemma {:induction false} TrampolineCount<Rest>(update: (Model<Rest>, Message) -> Step<Rest>, m: Model<Rest>,
                                                 current: Option<Message>, fuel: nat, requested: seq<BrowserPath>, applied: nat)
    ensures var c := Cascading(update, m, current, fuel, requested, applied);
      && applied <= c.applied <= applied + fuel
      && (current.Some? && fuel > 0 ==> c.applied > applied)
      && (current.None? ==> c.end == Settled && c.applied == applied)
      && (c.end == Exhausted ==> c.applied == applied + fuel)
    decreases fuel
  {
    if current.Some? && fuel > 0 {
      var st := update(m, current.value);
      TrampolineCount(update, st.model, Next(st.next), fuel - 1, requested + st.requested, applied + 1);
    }
  }

  /** A follow-up message is processed next, by the same cascade. */
  lemma TrampolineChains<Rest>(update: (Model<Rest>, Message) -> Step<Rest>, m: Model<Rest>, msg: Message, fuel: nat)
    requires fuel > 0 && update(m, msg).next.Ok? && update(m, msg).next.value.Some?
    ensures var st := update(m, msg);
      var c, rest := Trampoline(update, m, msg, fuel), Trampoline(update, st.model, st.next.value.value, fuel - 1);
      c == Cascade(rest.model, st.requested + rest.requested, 1 + rest.applied, rest.end)
  {
    var st := update(m, msg);
    assert [] + st.requested == st.requested;
    CascadingShift(update, st.model, Next(st.next), fuel - 1, st.requested, 1);
  }

  /** `Ok(None)` and an error both end the cascade right after that update:
      an error ends the cascade and nothing else. */
  lemma TrampolineStops<Rest>(update: (Model<Rest>, Message) -> Step<Rest>, m: Model<Rest>, msg: Message, fuel: nat)
    requires fuel > 0 && (update(m, msg).next.Err? || update(m, msg).next.value.None?)
    ensures var st := update(m, msg);
      Trampoline(update, m, msg, fuel) == Cascade(st.model, st.requested, 1, Settled)
  {
    var st := update(m, msg);
    assert Next(st.next) == None;
    assert [] + st.requested == st.requested;
    assert Trampoline(update, m, msg, fuel) == Cascading(update, st.model, None, fuel - 1, st.requested, 1);
  }

  /** The cascade of main.rs: keep applying `update` while it returns a
      follow-up message. `fuel` bounds the number of updates. */
  method RunCascade<Rest>(update: (Model<Rest>, Message) -> Step<Rest>, m: Model<Rest>, msg: Message, fuel: nat)
    returns (model: Model<Rest>, requested: seq<BrowserPath>, applied: nat, end: End)
    ensures Cascade(model, requested, applied, end) == Trampoline(update, m, msg, fuel)
  {
    model, requested, applied := m, [], 0;
    var current := Some(msg);
    var left := fuel;
    while current.Some?
      invariant Cascading(update, model, current, left, requested, applied) == Trampoline(update, m, msg, fuel)
      decreases left
    {
      if left == 0 {
        end := Exhausted;
        return;
      }
      var st := update(model, current.value);
      model, requested := st.model, requested + st.requested;
      if st.next.Ok? {
        current := st.next.value;
      } else {
        current := None;
      }
      left, applied := left - 1, applied + 1;
    }
    end := Settled;
  }

  // ---------------------------------------------------------------------------
  // The main loop
  // ---------------------------------------------------------------------------

  /** How main ended: the model stopped; the mailbox had no more messages (its
      senders were gone); the request for the root could not be sent; or a
      cascade reached the bound on updates. */
  datatype Exit = Quit | MailboxClosed | RootSendFailed | Diverged

  /** The effect of main: the final model, the paths sent to the worker, in
      order, the model rendered at each iteration, the number of messages
      received, and how it ended. */
  datatype Run<Rest> = Run(model: Model<Rest>, submitted: seq<BrowserPath>, renders: seq<Model<Rest>>, consumed: nat, exit: Exit)

  /** The outer loop from the k-th message of the mailbox on. */
  function Outer<Rest>(update: (Model<Rest>, Message) -> Step<Rest>, m: Model<Rest>, mailbox: seq<Message>, k: nat,
                       fuel: nat, submitted: seq<BrowserPath>, renders: seq<Model<Rest>>): Run<Rest>
    requires k <= |mailbox|
    decreases |mailbox| - k
  {
    if m.runningState == Stopped then Run(m, submitted, renders, k, Quit)
    else if k == |mailbox| then Run(m, submitted, renders + [m], k, MailboxClosed)
    else
      var c := Trampoline(update, m, mailbox[k], fuel);
      if c.end == Exhausted then Run(c.model, submitted + c.requested, renders + [m], k + 1, Diverged)
      else Outer(update, c.model, mailbox, k + 1, fuel, submitted + c.requested, renders + [m])
  }

  /** main: start from the initial model, request the root, then loop. */
  function Main<Rest>(update: (Model<Rest>, Message) -> Step<Rest>, defaults: Rest, rootSendOk: bool,
                      mailbox: seq<Message>, fuel: nat): Run<Rest>
  {
    var m := InitialModel(defaults);
    if !rootSendOk then Run(m, [], [], 0, RootSendFailed)
    else Outer(update, m, mailbox, 0, fuel, [m.currentPath], [])
  }

  /** main.rs from the initial model on. `mailbox` is what the mailbox
      delivers before all its senders are gone, and `rootSendOk` whether the
      worker accepted the request for the root. */
  method RunMain<Rest>(update: (Model<Rest>, Message) -> Step<Rest>, defaults: Rest, rootSendOk: bool,
                       mailbox: seq<Message>, fuel: nat)
    returns (model: Model<Rest>, submitted: seq<BrowserPath>, renders: seq<Model<Rest>>, consumed: nat, exit: Exit)
    ensures Run(model, submitted, renders, consumed, exit) == Main(update, defaults, rootSendOk, mailbox, fuel)
  {
    model := InitialModel(defaults);
    submitted, renders, consumed := [], [], 0;
    if !rootSendOk {
      exit := RootSendFailed;
      return;
    }
    submitted := [model.currentPath];
    while model.runningState != Stopped
      invariant consumed <= |mailbox|
      invariant Outer(update, model, mailbox, consumed, fuel, submitted, renders) == Main(update, defaults, rootSendOk, mailbox, fuel)
      decreases |mailbox| - consumed
    {
      renders := renders + [model];
      if consumed == |mailbox| {
        exit := MailboxClosed;
        return;
      }
      var msg := mailbox[consumed];
      consumed := consumed + 1;
      var requested, applied, end;
      model, requested, applied, end := RunCascade(update, model, msg, fuel);
      submitted := submitted + requested;
      if end == Exhausted {
        exit := Diverged;
        return;
      }
    }
    exit := Quit;
  }

  // ---------------------------------------------------------------------------
  // What the main loop does
  // ---------------------------------------------------------------------------

  /** Each render after the first shows the model the cascade of the previous
      message left, and `m` is the model the last message's cascade left. */
  ghost predicate Follows<Rest>(update: (Model<Rest>, Message) -> Step<Rest>, mailbox: seq<Message>, fuel: nat,
                          renders: seq<Model<Rest>>, m: Model<Rest>)
  {
    && |renders| <= |mailbox|
    && (forall j | 0 < j < |renders| :: renders[j] == Trampoline(update, renders[j - 1], mailbox[j - 1], fuel).model)
    && (|renders| > 0 ==> m == Trampoline(update, renders[|renders| - 1], mailbox[|renders| - 1], fuel).model)
  }

  /** The outer loop from message k on, after k renders: it keeps what was
      rendered and requested before, receives one message per render, and
      renders once more than it received only when the mailbox ran dry. */
  lemma {:induction false} OuterShape<Rest>(update: (Model<Rest>, Message) -> Step<Rest>, m: Model<Rest>,
                                            mailbox: seq<Message>, k: nat, fuel: nat,
                                            submitted: seq<BrowserPath>, renders: seq<Model<Rest>>)
    requires k <= |mailbox| && |renders| == k
    ensures var r := Outer(update, m, mailbox, k, fuel, submitted, renders);
      && r.exit != RootSendFailed
      && k <= r.consumed <= |mailbox|
      && |r.renders| == r.consumed + (if r.exit == MailboxClosed then 1 else 0)
      && r.renders[..k] == renders
      && |submitted| <= |r.submitted| && r.submitted[..|submitted|] == submitted
      && (r.exit == Quit ==> r.model.runningState == Stopped)
      && (r.exit == MailboxClosed ==> r.consumed == |mailbox| && r.renders[|mailbox|] == r.model && r.model.runningState == Running)
      && (r.exit == Diverged ==> k < r.consumed && Trampoline(update, r.renders[r.consumed - 1], mailbox[r.consumed - 1], fuel).end == Exhausted)
    decreases |mailbox| - k
  {
    var r := Outer(update, m, mailbox, k, fuel, submitted, renders);
    assert renders[..k] == renders;
    assert submitted[..|submitted|] == submitted;
    if m.runningState != Stopped && k < |mailbox| {
      var c := Trampoline(update, m, mailbox[k], fuel);
      var renders', submitted' := renders + [m], submitted + c.requested;
      assert renders'[..k] == renders && renders'[k] == m;
      assert submitted'[..|submitted|] == submitted;
      if c.end != Exhausted {
        OuterShape(update, c.model, mailbox, k + 1, fuel, submitted', renders');
        assert r.renders[..k] == r.renders[..k + 1][..k];
        assert r.submitted[..|submitted|] == r.submitted[..|submitted'|][..|submitted|];
      }
    }
  }

  /** Only running models are rendered: once a cascade leaves the model
      stopped, the loop ends before rendering again. */
  lemma {:induction false} OuterRendersRunning<Rest>(update: (Model<Rest>, Message) -> Step<Rest>, m: Model<Rest>,
                                                     mailbox: seq<Message>, k: nat, fuel: nat,
                                                     submitted: seq<BrowserPath>, renders: seq<Model<Rest>>)
    requires k <= |mailbox|
    requires forall j | 0 <= j < |renders| :: renders[j].runningState == Running
    ensures forall j | 0 <= j < |Outer(update, m, mailbox, k, fuel, submitted, renders).renders| ::
      Outer(update, m, mailbox, k, fuel, submitted, renders).renders[j].runningState == Running
    decreases |mailbox| - k
  {
    if m.runningState != Stopped {
      var renders' := renders + [m];
      assert forall j | 0 <= j < |renders'| :: renders'[j].runningState == Running by {
        forall j | 0 <= j < |renders'|
          ensures renders'[j].runningState == Running
        {
          if j < |renders| {
            assert renders'[j] == renders[j];
          }
        }
      }
      if k < |mailbox| && Trampoline(update, m, mailbox[k], fuel).end != Exhausted {
        var c := Trampoline(update, m, mailbox[k], fuel);
        OuterRendersRunning(update, c.model, mailbox, k + 1, fuel, submitted + c.requested, renders');
      }
    }
  }

  /** Each message's cascade starts from the model just rendered and leaves
      the model of the next render (or the final one): an update error ends
      only its cascade, not the loop. */
  lemma {:induction false} OuterFollows<Rest>(update: (Model<Rest>, Message) -> Step<Rest>, m: Model<Rest>,
                                              mailbox: seq<Message>, k: nat, fuel: nat,
                                              submitted: seq<BrowserPath>, renders: seq<Model<Rest>>)
    requires k <= |mailbox| && |renders| == k
    requires Follows(update, mailbox, fuel, renders, m)
    ensures var r := Outer(update, m, mailbox, k, fuel, submitted, renders);
      if r.exit == MailboxClosed then |r.renders| > 0 && Follows(update, mailbox, fuel, r.renders[..|r.renders| - 1], r.model)
      else Follows(update, mailbox, fuel, r.renders, r.model)
    decreases |mailbox| - k
  {
    var r := Outer(update, m, mailbox, k, fuel, submitted, renders);
    if m.runningState == Stopped {
    } else if k == |mailbox| {
      assert r.renders[..|r.renders| - 1] == renders;
    } else {
      var c := Trampoline(update, m, mailbox[k], fuel);
      var renders' := renders + [m];
      assert Follows(update, mailbox, fuel, renders', c.model) by {
        forall j | 0 < j < |renders'|
          ensures renders'[j] == Trampoline(update, renders'[j - 1], mailbox[j - 1], fuel).model
        {
          assert renders'[j - 1] == if j - 1 < k then renders[j - 1] else m;
        }
      }
      if c.end != Exhausted {
        OuterFollows(update, c.model, mailbox, k + 1, fuel, submitted + c.requested, renders');
        assert r == Outer(update, c.model, mailbox, k + 1, fuel, submitted + c.requested, renders');
      } else {
        assert r.exit == Diverged && r.renders == renders' && r.model == c.model;
      }
    }
  }

  /** main as a whole: the root is requested first, unless that send fails,
      which ends main before anything is rendered; the first render shows the
      initial model; one message is received per render; only running models
      are rendered; and each message's cascade leads to the next render. */
  lemma MainMeaning<Rest>(update: (Model<Rest>, Message) -> Step<Rest>, defaults: Rest, rootSendOk: bool,
                          mailbox: seq<Message>, fuel: nat)
    ensures var r := Main(update, defaults, rootSendOk, mailbox, fuel);
      && (r.exit == RootSendFailed <==> !rootSendOk)
      && (!rootSendOk ==> r.submitted == [] && r.renders == [] && r.consumed == 0)
      && (rootSendOk ==>
            && 1 <= |r.submitted| && r.submitted[0] == Root
            && 1 <= |r.renders| && r.renders[0] == InitialModel(defaults)
            && r.consumed <= |mailbox|
            && |r.renders| == r.consumed + (if r.exit == MailboxClosed then 1 else 0)
            && (forall j | 0 <= j < |r.renders| :: r.renders[j].runningState == Running)
            && (r.exit == Quit ==> r.model.runningState == Stopped)
            && (r.exit == MailboxClosed ==> r.consumed == |mailbox| && r.model.runningState == Running))
  {
    if rootSendOk {
      var m := InitialModel(defaults);
      OuterShape(update, m, mailbox, 0, fuel, [Root], []);
      OuterRendersRunning(update, m, mailbox, 0, fuel, [Root], []);
      var r := Outer(update, m, mailbox, 0, fuel, [Root], []);
      assert r.submitted[..1] == [Root];
      assert m.runningState == Running;
      if 0 < |mailbox| {
        var c := Trampoline(update, m, mailbox[0], fuel);
        if c.end != Exhausted {
          OuterShape(update, c.model, mailbox, 1, fuel, [Root] + c.requested, [m]);
          assert [] + [m] == [m];
          assert r == Outer(update, c.model, mailbox, 1, fuel, [Root] + c.requested, [m]);
          assert r.renders[..1] == [m];
        }
      }
      assert r.renders[0] == m;
    }
  }

  /** The cascades of main, message by message: the render after a message
      shows the model its cascade left. */
  lemma MainFollows<Rest>(update: (Model<Rest>, Message) -> Step<Rest>, defaults: Rest, mailbox: seq<Message>, fuel: nat)
    ensures var r := Main(update, defaults, true, mailbox, fuel);
      if r.exit == MailboxClosed then |r.renders| > 0 && Follows(update, mailbox, fuel, r.renders[..|r.renders| - 1], r.model)
      else Follows(update, mailbox, fuel, r.renders, r.model)
  {
    OuterFollows(update, InitialModel(defaults), mailbox, 0, fuel, [Root], []);
  }

  /** main itself asks the worker for the root exactly once, ahead of every
      path the loop's updates request; when the send fails nothing is
      requested at all. */
  lemma RootRequestedOnce<Rest>(update: (Model<Rest>, Message) -> Step<Rest>, defaults: Rest, rootSendOk: bool,
                                mailbox: seq<Message>, fuel: nat)
    ensures Main(update, defaults, rootSendOk, mailbox, fuel).submitted ==
      if rootSendOk then [Root] + Outer(update, InitialModel(defaults), mailbox, 0, fuel, [], []).submitted else []
  {
    if rootSendOk {
      OuterShift(update, InitialModel(defaults), mailbox, 0, fuel, [Root], []);
    }
  }

  /** When `update` never sends a request, the root is the only path the
      worker is asked for. */
  lemma QuietUpdateRequestsOnlyRoot<Rest>(update: (Model<Rest>, Message) -> Step<Rest>, defaults: Rest, rootSendOk: bool,
                                          mailbox: seq<Message>, fuel: nat)
    requires forall x: Model<Rest>, msg: Message :: update(x, msg).requested == []
    ensures Main(update, defaults, rootSendOk, mailbox, fuel).submitted == if rootSendOk then [Root] else []
  {
    if rootSendOk {
      OuterAddsRequested(update, InitialModel(defaults), mailbox, 0, fuel, [Root], []);
    }
  }

  /** The outer loop only appends to the paths already requested. */
  lemma {:induction false} OuterShift<Rest>(update: (Model<Rest>, Message) -> Step<Rest>, m: Model<Rest>,
                                            mailbox: seq<Message>, k: nat, fuel: nat,
                                            submitted: seq<BrowserPath>, renders: seq<Model<Rest>>)
    requires k <= |mailbox|
    ensures Outer(update, m, mailbox, k, fuel, submitted, renders).submitted ==
      submitted + Outer(update, m, mailbox, k, fuel, [], renders).submitted
    decreases |mailbox| - k
  {
    if m.runningState == Stopped || k == |mailbox| {
      assert submitted + [] == submitted;
    } else {
      var c := Trampoline(update, m, mailbox[k], fuel);
      assert [] + c.requested == c.requested;
      if c.end != Exhausted {
        OuterShift(update, c.model, mailbox, k + 1, fuel, submitted + c.requested, renders + [m]);
        OuterShift(update, c.model, mailbox, k + 1, fuel, c.requested, renders + [m]);
        var rest := Outer(update, c.model, mailbox, k + 1, fuel, [], renders + [m]).submitted;
        assert (submitted + c.requested) + rest == submitted + (c.requested + rest);
      }
    }
  }

  lemma {:induction false} CascadingRequestsNothing<Rest>(update: (Model<Rest>, Message) -> Step<Rest>, m: Model<Rest>,
                                                          current: Option<Message>, fuel: nat, requested: seq<BrowserPath>, applied: nat)
    requires forall x: Model<Rest>, msg: Message :: update(x, msg).requested == []
    ensures Cascading(update, m, current, fuel, requested, applied).requested == requested
    decreases fuel
  {
    if current.Some? && fuel > 0 {
      var st := update(m, current.value);
      assert requested + st.requested == requested;
      CascadingRequestsNothing(update, st.model, Next(st.next), fuel - 1, requested, applied + 1);
    }
  }

  lemma {:induction false} OuterAddsRequested<Rest>(update: (Model<Rest>, Message) -> Step<Rest>, m: Model<Rest>,
                                                    mailbox: seq<Message>, k: nat, fuel: nat,
                                                    submitted: seq<BrowserPath>, renders: seq<Model<Rest>>)
    requires k <= |mailbox|
    requires forall x: Model<Rest>, msg: Message :: update(x, msg).requested == []
    ensures Outer(update, m, mailbox, k, fuel, submitted, renders).submitted == submitted
    decreases |mailbox| - k
  {
    if m.runningState != Stopped && k < |mailbox| {
      var c := Trampoline(update, m, mailbox[k], fuel);
      CascadingRequestsNothing(update, m, Some(mailbox[k]), fuel, [], 0);
      assert submitted + c.requested == submitted;
      if c.end != Exhausted {
        OuterAddsRequested(update, c.model, mailbox, k + 1, fuel, submitted, renders + [m]);
      }
    }
  }
}
