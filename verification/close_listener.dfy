/**
  * `useCloseEventListener`: while the picker is open, one shared handler
  * listens at the document level for clicks, key releases and focus changes,
  * and asks the picker to close on Escape or on an interaction outside its
  * element. The document's listener registry is modelled as the set of
  * (event name, handler) pairs this composable has registered: adding a pair
  * already present, or removing one that is absent, changes nothing, as with
  * `addEventListener` and `removeEventListener`. Each call that creates a
  * handler creates a new function object, modelled as a fresh handler id.
  */
module CloseListener {
  import Toggle

  type HandlerId = nat

  /** The events the handler is registered for, in registration order. */
  const CloseEvents: seq<string> := ["click", "keyup", "focusin"]

  /** The stored handler reference: none, or the handler currently registered. */
  datatype Slot = Empty | Stored(id: HandlerId)

  /**
    * The stored handler, the registry entries owned by this composable, and the
    * id the next created handler gets.
    */
  datatype ListenerState = ListenerState(handler: Slot, registry: set<(string, HandlerId)>, nextId: HandlerId)

  /** The registry entries of handler `id` for all three events. */
  function Registrations(id: HandlerId): (r: set<(string, HandlerId)>)
    ensures forall name, h :: (name, h) in r <==> name in CloseEvents && h == id
  {
    set name | name in CloseEvents :: (name, id)
  }

  /** The event names with at least one registered handler. */
  function RegisteredEvents(s: ListenerState): set<string>
  {
    set p | p in s.registry :: p.0
  }

  /** The handlers registered for the event `name`. */
  function ListenersFor(s: ListenerState, name: string): set<HandlerId>
  {
    set p | p in s.registry && p.0 == name :: p.1
  }

  /**
    * The registration invariant: with no stored handler nothing is registered,
    * and with a stored handler exactly its three entries are, and its id is
    * older than any id still to be handed out.
    */
  ghost predicate Valid(s: ListenerState)
  {
    match s.handler
    case Empty => s.registry == {}
    case Stored(id) => s.registry == Registrations(id) && id < s.nextId
  }

  /** The state when the composable is set up: no handler, nothing registered. */
  function Init(): (s: ListenerState)
    ensures Valid(s)
    ensures s.handler == Empty && RegisteredEvents(s) == {}
  {
    ListenerState(Empty, {}, 0)
  }

  /**
    * `addCloseEvents`: when no handler is stored, creates one, stores it and
    * registers it for the three events; when one is stored, does nothing.
    */
  function AddCloseEvents(s: ListenerState): (r: ListenerState)
    ensures s.handler.Stored? ==> r == s
    ensures s.handler == Empty ==>
              && r.handler == Stored(s.nextId)
              && r.registry == s.registry + Registrations(s.nextId)
              && r.nextId == s.nextId + 1
    ensures Valid(s) ==> Valid(r) && r.handler.Stored?
  {
    match s.handler
    case Stored(_) => s
    case Empty =>
      var id := s.nextId;
      ListenerState(Stored(id), s.registry + Registrations(id), id + 1)
  }

  /**
    * `removeCloseEvents`: when a handler is stored, unregisters it from the
    * three events and clears the stored reference; otherwise does nothing.
    */
  function RemoveCloseEvents(s: ListenerState): (r: ListenerState)
    ensures s.handler == Empty ==> r == s
    ensures s.handler.Stored? ==>
              && r.handler == Empty
              && r.registry == s.registry - Registrations(s.handler.id)
              && r.nextId == s.nextId
    ensures Valid(s) ==> Valid(r) && r.registry == {}
  {
    match s.handler
    case Empty => s
    case Stored(id) => ListenerState(Empty, s.registry - Registrations(id), s.nextId)
  }

  /** Unmounting the component runs `removeCloseEvents`. */
  function Teardown(s: ListenerState): (r: ListenerState)
    ensures Valid(s) ==> r.registry == {} && r.handler == Empty
    ensures Valid(s) ==> Valid(r)
  {
    RemoveCloseEvents(s)
  }

  /** From the unregistered state, adding registers one handler for exactly the three events. */
  lemma AddRegistersThreeEvents(s: ListenerState)
    requires Valid(s) && s.handler == Empty
    ensures var r := AddCloseEvents(s);
      && RegisteredEvents(r) == {"click", "keyup", "focusin"}
      && (forall p :: p in r.registry ==> Stored(p.1) == r.handler)
  {
    var r := AddCloseEvents(s);
    assert ("click", s.nextId) in r.registry;
    assert ("keyup", s.nextId) in r.registry;
    assert ("focusin", s.nextId) in r.registry;
  }

  /** Under the invariant no event ever has two handlers: registration is never doubled. */
  lemma AtMostOneHandlerPerEvent(s: ListenerState, name: string)
    requires Valid(s)
    ensures ListenersFor(s, name) == if s.handler.Stored? && name in CloseEvents then {s.handler.id} else {}
    ensures |ListenersFor(s, name)| <= 1
  {
    if s.handler.Stored? && name in CloseEvents {
      assert (name, s.handler.id) in s.registry;
    }
  }

  /** Adding twice is adding once. */
  lemma AddIdempotent(s: ListenerState)
    ensures AddCloseEvents(AddCloseEvents(s)) == AddCloseEvents(s)
  {
  }

  /** Removing twice is removing once. */
  lemma RemoveIdempotent(s: ListenerState)
    ensures RemoveCloseEvents(RemoveCloseEvents(s)) == RemoveCloseEvents(s)
  {
  }

  /**
    * Adding again after a removal returns to the registered state the first
    * addition produced, up to the identity of the freshly created handler.
    */
  lemma AddAfterRemove(s: ListenerState)
    requires Valid(s) && s.handler == Empty
    ensures var first := AddCloseEvents(s);
      var again := AddCloseEvents(RemoveCloseEvents(first));
      && again.handler == Stored(first.nextId)
      && again.registry == Registrations(first.nextId)
      && first.registry == Registrations(s.nextId)
      && RegisteredEvents(again) == RegisteredEvents(first)
  {
    var first := AddCloseEvents(s);
    var again := AddCloseEvents(RemoveCloseEvents(first));
    AddRegistersThreeEvents(s);
    AddRegistersThreeEvents(RemoveCloseEvents(first));
  }

  datatype Call = Add | Remove | Unmount

  function ApplyCall(s: ListenerState, c: Call): ListenerState
  {
    match c
    case Add => AddCloseEvents(s)
    case Remove => RemoveCloseEvents(s)
    case Unmount => Teardown(s)
  }

  function RunCalls(s: ListenerState, calls: seq<Call>): ListenerState
    decreases |calls|
  {
    if |calls| == 0 then s else RunCalls(ApplyCall(s, calls[0]), calls[1..])
  }

  /**
    * Any sequence of calls keeps the invariant, so at every point each of the
    * three events has at most one handler, and the registry is empty whenever
    * the last call was a removal or the unmount.
    */
  lemma {:induction false} CallsKeepValid(s: ListenerState, calls: seq<Call>)
    requires Valid(s)
    ensures Valid(RunCalls(s, calls))
    ensures |calls| > 0 && calls[|calls| - 1] != Add ==> RunCalls(s, calls).registry == {}
    decreases |calls|
  {
    if |calls| > 0 {
      var next := ApplyCall(s, calls[0]);
      CallsKeepValid(next, calls[1..]);
      if |calls| > 1 {
        assert calls[1..][|calls[1..]| - 1] == calls[|calls| - 1];
      }
    }
  }

  /** An event's key: absent (`undefined`, for clicks and focus changes) or a string. */
  datatype Key = NoKey | Key(value: string)

  /** A document event: its name, its key, and its target node. */
  datatype Event<N> = Event(name: string, key: Key, target: N)

  /** The element the picker is anchored to: `null` before mount, or a node. */
  datatype Anchor<N> = Null | Element(node: N)

  /** A truthy key is a non-empty string. */
  predicate HasKey(k: Key)
  {
    k.Key? && k.value != ""
  }

  /**
    * The target is the anchor element or inside it, as decided by the DOM's
    * containment relation `contains(ancestor, node)`.
    */
  predicate Inside<N(==)>(target: N, el: Anchor<N>, contains: (N, N) -> bool)
  {
    el.Element? && (target == el.node || contains(el.node, target))
  }

  /**
    * The handler's decision: how many times one event makes it call `close`.
    * With a key, only Escape closes, wherever the target is; without one, an
    * interaction whose target is not inside the anchor closes.
    */
  function CloseCalls<N(==)>(ev: Event<N>, el: Anchor<N>, contains: (N, N) -> bool): (n: nat)
    ensures n <= 1
    ensures HasKey(ev.key) ==> (n == 1 <==> ev.key.value == "Escape")
    ensures !HasKey(ev.key) ==> (n == 1 <==> !Inside(ev.target, el, contains))
  {
    if HasKey(ev.key) then
      (if ev.key.value == "Escape" then 1 else 0)
    else if !(el.Element? && ev.target == el.node) && !(el.Element? && contains(el.node, ev.target)) then
      1
    else
      0
  }

  /** Calls to `close` when an event reaches the document: once per handler registered for it. */
  function Dispatch<N(==)>(s: ListenerState, ev: Event<N>, el: Anchor<N>, contains: (N, N) -> bool): nat
  {
    |ListenersFor(s, ev.name)| * CloseCalls(ev, el, contains)
  }

  /**
    * While registered, a click outside the anchor closes exactly once, a click
    * inside does not close, Escape on key-up closes exactly once, and any
    * other key never closes, even with the target outside.
    */
  lemma RegisteredDispatch<N>(s: ListenerState, ev: Event<N>, el: Anchor<N>, contains: (N, N) -> bool)
    requires Valid(s) && s.handler.Stored?
    ensures ev.name == "click" && ev.key == NoKey ==>
              (Dispatch(s, ev, el, contains) == 1 <==> !Inside(ev.target, el, contains))
    ensures ev.name == "click" && ev.key == NoKey ==> Dispatch(s, ev, el, contains) <= 1
    ensures ev.name == "keyup" && ev.key == Key("Escape") ==> Dispatch(s, ev, el, contains) == 1
    ensures HasKey(ev.key) && ev.key.value != "Escape" ==> Dispatch(s, ev, el, contains) == 0
    ensures ev.name !in CloseEvents ==> Dispatch(s, ev, el, contains) == 0
  {
    AtMostOneHandlerPerEvent(s, ev.name);
  }

  /** After removal or unmount no event calls `close`. */
  lemma RemovedDispatch<N>(s: ListenerState, ev: Event<N>, el: Anchor<N>, contains: (N, N) -> bool)
    requires Valid(s)
    ensures Dispatch(RemoveCloseEvents(s), ev, el, contains) == 0
    ensures Dispatch(Teardown(s), ev, el, contains) == 0
  {
    AtMostOneHandlerPerEvent(RemoveCloseEvents(s), ev.name);
  }

  /** Calls `close` `n` times on the toggle state, counting the writes it makes. */
  function CloseTimes(t: Toggle.ToggleState, n: nat): Toggle.Outcome
    decreases n
  {
    if n == 0 then Toggle.Outcome(t, 0)
    else
      var step := Toggle.Close(t);
      var rest := CloseTimes(step.state, n - 1);
      Toggle.Outcome(rest.state, rest.writes + if step.wrote then 1 else 0)
  }

  /**
    * Wired to the toggle: an event the handler acts on leaves the picker
    * closed with at most one write to its flag; an event it ignores leaves the
    * flag untouched.
    */
  lemma {:induction false} DispatchThenClose<N>(s: ListenerState, t: Toggle.ToggleState, ev: Event<N>, el: Anchor<N>, contains: (N, N) -> bool)
    requires Valid(s)
    ensures var out := CloseTimes(t, Dispatch(s, ev, el, contains));
      && out.writes <= 1
      && (Dispatch(s, ev, el, contains) > 0 ==> !out.state.isOpen && (out.writes == 1 <==> t.isOpen))
      && (Dispatch(s, ev, el, contains) == 0 ==> out == Toggle.Outcome(t, 0))
  {
    AtMostOneHandlerPerEvent(s, ev.name);
    var n := Dispatch(s, ev, el, contains);
    assert n <= 1;
    if n == 1 {
      var step := Toggle.Close(t);
      assert CloseTimes(t, 1) == Toggle.Outcome(step.state, if step.wrote then 1 else 0);
    }
  }
}
