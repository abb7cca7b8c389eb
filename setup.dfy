/** The pending-set protocol of `setUp`: the mutation observer is armed
    before the initial sweep; element nodes that arrive while `isDone` is
    false, and every non-`SCRIPT` element under `body`, are collected in a
    `Set`; the set is then drained once into `switchScheme`; afterwards an
    inserted element and all its descendants go to `switchScheme` directly.
    `switchScheme` itself is `Scheme.SwitchScheme`; here only the order of
    its calls is recorded. */
module Setup {

  datatype NodeKind = ElementNode(nodeName: string) | OtherNode

  /** A DOM node: `id` stands for its identity, `children` are its child nodes
      in document order. */
  datatype Node = Node(id: nat, kind: NodeKind, children: seq<Node>)

  /** `node.nodeType === Node.ELEMENT_NODE`. */
  predicate IsElement(n: Node) {
    n.kind.ElementNode?
  }

  predicate IsScript(n: Node) {
    n.kind.ElementNode? && n.kind.nodeName == "SCRIPT"
  }

  predicate NoDuplicates(s: seq<Node>) {
    forall i, j :: 0 <= i < j < |s| ==> s[i] != s[j]
  }

  /** The elements among `nodes` and among their descendants, in document order. */
  function ElementsOf(nodes: seq<Node>): (es: seq<Node>)
    ensures forall e :: e in es ==> IsElement(e)
    decreases nodes
  {
    if nodes == [] then []
    else (if IsElement(nodes[0]) then [nodes[0]] else []) + ElementsOf(nodes[0].children) + ElementsOf(nodes[1..])
  }

  /** `node.querySelectorAll('*')`: the descendant elements, in document order. */
  function Descendants(node: Node): (es: seq<Node>)
    ensures forall e :: e in es ==> IsElement(e)
  {
    ElementsOf(node.children)
  }

  /** `x` is `n` or lies somewhere below it. */
  predicate InTree(x: Node, n: Node)
    decreases n
  {
    x == n || exists i :: 0 <= i < |n.children| && InTree(x, n.children[i])
  }

  /** `ElementsOf` finds exactly the elements in the given trees. */
  lemma {:induction false} ElementsOfMembers(nodes: seq<Node>, x: Node)
    ensures x in ElementsOf(nodes) <==> IsElement(x) && exists i :: 0 <= i < |nodes| && InTree(x, nodes[i])
    decreases nodes
  {
    if nodes != [] {
      var n0, rest := nodes[0], nodes[1..];
      ElementsOfMembers(n0.children, x);
      ElementsOfMembers(rest, x);
      if IsElement(x) {
        if x in ElementsOf(nodes) {
          if x == n0 {
            assert InTree(x, nodes[0]);
          } else if x in ElementsOf(n0.children) {
            var j :| 0 <= j < |n0.children| && InTree(x, n0.children[j]);
            assert InTree(x, nodes[0]);
          } else {
            var i :| 0 <= i < |rest| && InTree(x, rest[i]);
            assert nodes[i + 1] == rest[i];
          }
        }
        if exists i :: 0 <= i < |nodes| && InTree(x, nodes[i]) {
          var i :| 0 <= i < |nodes| && InTree(x, nodes[i]);
          if i == 0 {
            if x != n0 {
              var j :| 0 <= j < |n0.children| && InTree(x, n0.children[j]);
            }
          } else {
            assert rest[i - 1] == nodes[i];
          }
        }
      }
    }
  }

  /** `node.querySelectorAll('*')` finds exactly the elements strictly below `node`. */
  lemma DescendantsMembers(node: Node, x: Node)
    ensures x in Descendants(node) <==> IsElement(x) && exists i :: 0 <= i < |node.children| && InTree(x, node.children[i])
  {
    ElementsOfMembers(node.children, x);
  }

  /** The nodes of `nodes` that are not `SCRIPT` elements, in order. */
  function WithoutScripts(nodes: seq<Node>): seq<Node> {
    if nodes == [] then []
    else WithoutScripts(nodes[..|nodes| - 1]) + (if IsScript(nodes[|nodes| - 1]) then [] else [nodes[|nodes| - 1]])
  }

  /** What the initial sweep collects: `document.querySelectorAll("body *")`
      without the `SCRIPT` elements. */
  function Swept(body: Node): seq<Node> {
    WithoutScripts(Descendants(body))
  }

  /** `set.add(n)`: a JavaScript `Set` keeps insertion order and ignores a
      member it already holds. */
  function Add(pending: seq<Node>, n: Node): seq<Node> {
    if n in pending then pending else pending + [n]
  }

  /** `nodes.forEach(n => set.add(n))`. */
  function AddAll(pending: seq<Node>, nodes: seq<Node>): seq<Node> {
    if nodes == [] then pending else Add(AddAll(pending, nodes[..|nodes| - 1]), nodes[|nodes| - 1])
  }

  /** The `switchScheme` calls made directly for inserted nodes once `isDone`
      holds: each element, then its descendants. */
  function Expand(nodes: seq<Node>): seq<Node> {
    if nodes == [] then []
    else
      var n := nodes[|nodes| - 1];
      Expand(nodes[..|nodes| - 1]) + (if IsElement(n) then [n] + Descendants(n) else [])
  }

  // ---------------------------------------------------------------------
  // The protocol as a state machine
  // ---------------------------------------------------------------------

  /** `observing`: the observer has been attached to `document.body`;
      `pending`: the contents of `set`; `transformed`: the nodes passed to
      `switchScheme`, in call order. */
  datatype State = State(observing: bool, isDone: bool, pending: seq<Node>, transformed: seq<Node>)

  const Start := State(false, false, [], [])

  /** The observer callback on one added node. */
  function OnNodeAdded(st: State, node: Node): State {
    if !IsElement(node) then st
    else if st.isDone then st.(transformed := st.transformed + [node] + Descendants(node))
    else st.(pending := Add(st.pending, node))
  }

  /** The observer callback on one mutation record's `addedNodes`. */
  function OnNodesAdded(st: State, nodes: seq<Node>): State {
    if nodes == [] then st else OnNodeAdded(OnNodesAdded(st, nodes[..|nodes| - 1]), nodes[|nodes| - 1])
  }

  /** `Observe`: `observer.observe(document.body, ...)`. `Mutation`: one
      mutation record delivered to the callback. `Sweep`: the initial
      enumeration. `Finish`: `isDone = true; set.forEach(switchScheme)`. */
  datatype Event = Observe | Mutation(addedNodes: seq<Node>) | Sweep(body: Node) | Finish

  function Step(st: State, ev: Event): State {
    match ev
    case Observe => st.(observing := true)
    case Mutation(added) => if st.observing then OnNodesAdded(st, added) else st
    case Sweep(body) => st.(pending := AddAll(st.pending, Swept(body)))
    case Finish => st.(isDone := true, transformed := st.transformed + st.pending)
  }

  function Run(st: State, evs: seq<Event>): State {
    if evs == [] then st else Step(Run(st, evs[..|evs| - 1]), evs[|evs| - 1])
  }

  /** The order in which `setUp` acts, with one mutation record delivered while
      the set is still collecting. */
  function SetUpEvents(body: Node, early: seq<Node>): seq<Event> {
    [Observe, Mutation(early), Sweep(body), Finish]
  }

  // ---------------------------------------------------------------------
  // The set
  // ---------------------------------------------------------------------

  /** `AddAll` holds each node of the old set and of `nodes` once, keeps the old
      set in front, and never introduces a duplicate. */
  lemma {:induction false} AddAllSpec(pending: seq<Node>, nodes: seq<Node>)
    requires NoDuplicates(pending)
    ensures NoDuplicates(AddAll(pending, nodes))
    ensures forall x :: x in AddAll(pending, nodes) <==> x in pending || x in nodes
    ensures |pending| <= |AddAll(pending, nodes)| && AddAll(pending, nodes)[..|pending|] == pending
  {
    if nodes != [] {
      var init := nodes[..|nodes| - 1];
      var last := nodes[|nodes| - 1];
      AddAllSpec(pending, init);
      var before := AddAll(pending, init);
      assert nodes == init + [last];
      if last !in before {
        assert (before + [last])[..|pending|] == before[..|pending|];
      }
    }
  }

  lemma AddKeepsNoDuplicates(pending: seq<Node>, n: Node)
    requires NoDuplicates(pending) && n !in pending
    ensures NoDuplicates(pending + [n])
  {
  }

  /** One step of the sweep loop: the next swept node joins the set unless it
      is a `SCRIPT` element. */
  lemma SweepStep(pending: seq<Node>, elems: seq<Node>, i: nat)
    requires i < |elems|
    ensures AddAll(pending, WithoutScripts(elems[..i + 1]))
            == if IsScript(elems[i]) then AddAll(pending, WithoutScripts(elems[..i]))
               else Add(AddAll(pending, WithoutScripts(elems[..i])), elems[i])
  {
    assert elems[..i + 1][..i] == elems[..i];
    var w := WithoutScripts(elems[..i]);
    if !IsScript(elems[i]) {
      assert WithoutScripts(elems[..i + 1]) == w + [elems[i]];
      assert (w + [elems[i]])[..|w|] == w;
      assert AddAll(pending, w + [elems[i]]) == Add(AddAll(pending, w), elems[i]);
    } else {
      assert WithoutScripts(elems[..i + 1]) == w + [];
      assert w + [] == w;
    }
  }

  /** The elements among `nodes`, in order, without their descendants. */
  function TopElements(nodes: seq<Node>): seq<Node> {
    if nodes == [] then []
    else TopElements(nodes[..|nodes| - 1]) + (if IsElement(nodes[|nodes| - 1]) then [nodes[|nodes| - 1]] else [])
  }

  lemma {:induction false} WithoutScriptsMembers(nodes: seq<Node>)
    ensures forall n :: n in WithoutScripts(nodes) <==> n in nodes && !IsScript(n)
  {
    if nodes != [] {
      var init := nodes[..|nodes| - 1];
      WithoutScriptsMembers(init);
      assert nodes == init + [nodes[|nodes| - 1]];
    }
  }

  lemma {:induction false} TopElementsMembers(nodes: seq<Node>)
    ensures forall n :: n in TopElements(nodes) <==> n in nodes && IsElement(n)
  {
    if nodes != [] {
      var init := nodes[..|nodes| - 1];
      TopElementsMembers(init);
      assert nodes == init + [nodes[|nodes| - 1]];
    }
  }

  /** Before `isDone`, a mutation only adds its element nodes to the set:
      non-element nodes are ignored and nothing is transformed. */
  lemma {:induction false} CollectingMutation(st: State, nodes: seq<Node>)
    requires !st.isDone
    ensures OnNodesAdded(st, nodes) == st.(pending := AddAll(st.pending, TopElements(nodes)))
  {
    if nodes != [] {
      var init := nodes[..|nodes| - 1];
      CollectingMutation(st, init);
      if IsElement(nodes[|nodes| - 1]) {
        var t := TopElements(init);
        var n := nodes[|nodes| - 1];
        assert TopElements(nodes) == t + [n];
        assert (t + [n])[..|t + [n]| - 1] == t;
      } else {
        assert TopElements(nodes) == TopElements(init);
      }
    }
  }

  /** After `isDone`, a mutation transforms every inserted element and all its
      descendants, in order, and leaves the set alone. */
  lemma {:induction false} SteadyMutation(st: State, nodes: seq<Node>)
    requires st.isDone
    ensures OnNodesAdded(st, nodes) == st.(transformed := st.transformed + Expand(nodes))
  {
    if nodes != [] {
      var init := nodes[..|nodes| - 1];
      SteadyMutation(st, init);
      var n := nodes[|nodes| - 1];
      if IsElement(n) {
        assert st.transformed + Expand(init) + [n] + Descendants(n)
            == st.transformed + (Expand(init) + ([n] + Descendants(n)));
      } else {
        assert Expand(init) + [] == Expand(init);
      }
    }
  }

  /** What `Expand` covers: exactly the inserted elements and their descendants. */
  lemma {:induction false} ExpandMembers(nodes: seq<Node>, x: Node)
    ensures x in Expand(nodes) <==> exists i :: 0 <= i < |nodes| && IsElement(nodes[i]) && (x == nodes[i] || x in Descendants(nodes[i]))
  {
    if nodes != [] {
      var init := nodes[..|nodes| - 1];
      ExpandMembers(init, x);
      var k := |nodes| - 1;
      if x in Expand(nodes) {
        if x !in Expand(init) {
          assert IsElement(nodes[k]) && (x == nodes[k] || x in Descendants(nodes[k]));
        } else {
          var i :| 0 <= i < |init| && IsElement(init[i]) && (x == init[i] || x in Descendants(init[i]));
          assert nodes[i] == init[i];
        }
      } else {
        forall i | 0 <= i < |nodes| && IsElement(nodes[i])
          ensures x != nodes[i] && x !in Descendants(nodes[i])
        {
          if i < k {
            assert init[i] == nodes[i];
          }
        }
      }
    }
  }

  /** Mutation records arriving before the observer is attached are lost:
      any run of them leaves the state as it was. */
  lemma {:induction false} UnobservedRun(st: State, evs: seq<Event>)
    requires !st.observing
    requires forall i :: 0 <= i < |evs| ==> evs[i].Mutation?
    ensures Run(st, evs) == st
  {
    if evs != [] {
      UnobservedRun(st, evs[..|evs| - 1]);
    }
  }

  // ---------------------------------------------------------------------
  // Nothing delivered is lost
  // ---------------------------------------------------------------------

  /** `x` is in the set or has been passed to `switchScheme`. */
  predicate Retained(st: State, x: Node) {
    x in st.pending || x in st.transformed
  }

  /** Event `ev`, arriving in state `st`, hands `x` to the script: an element
      of a record the observer delivers, or an element the sweep collects. */
  predicate Delivered(st: State, ev: Event, x: Node) {
    (ev.Mutation? && st.observing && x in ev.addedNodes && IsElement(x))
    || (ev.Sweep? && x in Swept(ev.body))
  }

  lemma {:induction false} AddAllKeeps(pending: seq<Node>, nodes: seq<Node>, x: Node)
    requires x in pending || x in nodes
    ensures x in AddAll(pending, nodes)
  {
    if nodes != [] {
      var init := nodes[..|nodes| - 1];
      if x in pending || x in init {
        AddAllKeeps(pending, init, x);
      }
    }
  }

  lemma {:induction false} OnNodesAddedKeeps(st: State, nodes: seq<Node>, x: Node)
    requires Retained(st, x)
    ensures Retained(OnNodesAdded(st, nodes), x)
  {
    if nodes != [] {
      OnNodesAddedKeeps(st, nodes[..|nodes| - 1], x);
    }
  }

  lemma {:induction false} OnNodesAddedAdmits(st: State, nodes: seq<Node>, x: Node)
    requires x in nodes && IsElement(x)
    ensures Retained(OnNodesAdded(st, nodes), x)
  {
    var k := |nodes| - 1;
    var init := nodes[..k];
    if x != nodes[k] {
      assert x in init by { var i :| 0 <= i < |nodes| && nodes[i] == x; assert init[i] == x; }
      OnNodesAddedAdmits(st, init, x);
    }
  }

  /** No event takes a node out of the set or out of the transformed log. */
  lemma StepKeeps(st: State, ev: Event, x: Node)
    requires Retained(st, x)
    ensures Retained(Step(st, ev), x)
  {
    match ev {
      case Observe =>
      case Mutation(added) =>
        if st.observing {
          OnNodesAddedKeeps(st, added, x);
        }
      case Sweep(body) =>
        if x in st.pending {
          AddAllKeeps(st.pending, Swept(body), x);
        }
      case Finish =>
    }
  }

  lemma StepAdmits(st: State, ev: Event, x: Node)
    requires Delivered(st, ev, x)
    ensures Retained(Step(st, ev), x)
  {
    if ev.Mutation? {
      OnNodesAddedAdmits(st, ev.addedNodes, x);
    } else {
      AddAllKeeps(st.pending, Swept(ev.body), x);
    }
  }

  /** Arming the observer before the sweep loses nothing: in any run, every
      element a record delivers while observing, and every element the sweep
      collects, is afterwards in the set or already transformed. */
  lemma {:induction false} NothingLost(st: State, evs: seq<Event>, i: nat, x: Node)
    requires i < |evs| && Delivered(Run(st, evs[..i]), evs[i], x)
    ensures Retained(Run(st, evs), x)
  {
    var n := |evs| - 1;
    var init := evs[..n];
    if i == n {
      StepAdmits(Run(st, init), evs[n], x);
    } else {
      assert init[..i] == evs[..i] && init[i] == evs[i];
      NothingLost(st, init, i, x);
      StepKeeps(Run(st, init), evs[n], x);
    }
  }

  /** After the drain, everything delivered before it has been transformed. */
  lemma DrainedAfterFinish(st: State, evs: seq<Event>, i: nat, x: Node)
    requires i < |evs| && Delivered(Run(st, evs[..i]), evs[i], x)
    ensures x in Run(st, evs + [Finish]).transformed
  {
    NothingLost(st, evs, i, x);
    assert (evs + [Finish])[..|evs|] == evs;
  }

  /** The state `setUp` leaves: observing, done, and the set drained once in
      insertion order. */
  lemma RunSetUp(body: Node, early: seq<Node>)
    ensures Run(Start, SetUpEvents(body, early))
            == var p := AddAll(AddAll([], TopElements(early)), Swept(body)); State(true, true, p, p)
  {
    var evs := SetUpEvents(body, early);
    var s0 := Step(Start, Observe);
    var s1 := Step(s0, Mutation(early));
    var s2 := Step(s1, Sweep(body));
    var s3 := Step(s2, Finish);
    assert evs[..1] == [Observe] && evs[..2] == [Observe, Mutation(early)];
    assert evs[..3] == [Observe, Mutation(early), Sweep(body)];
    assert [Observe][..0] == [];
    assert evs[..3][..2] == evs[..2] && evs[..2][..1] == evs[..1];
    assert Run(Start, evs[..1]) == s0;
    assert Run(Start, evs[..2]) == s1;
    assert Run(Start, evs[..3]) == s2;
    assert Run(Start, evs) == s3;
    CollectingMutation(s0, early);
    assert [] + s2.pending == s2.pending;
  }

  /** `setUp` with one early mutation record: every element of the early record
      and every non-`SCRIPT` element under `body` is transformed, exactly once,
      and nothing else is. Only the sweep filters `SCRIPT`: a script element
      the observer reports is transformed too. */
  lemma SetUpTransformsEachOnce(body: Node, early: seq<Node>)
    ensures var st := Run(Start, SetUpEvents(body, early));
            && st.observing && st.isDone
            && NoDuplicates(st.transformed)
            && (forall x :: x in st.transformed <==> (x in early && IsElement(x)) || x in Swept(body))
            && (forall x :: x in st.transformed ==> IsElement(x) && (IsScript(x) ==> x in early))
  {
    RunSetUp(body, early);
    var tops := TopElements(early);
    AddAllSpec([], tops);
    AddAllSpec(AddAll([], tops), Swept(body));
    TopElementsMembers(early);
    WithoutScriptsMembers(Descendants(body));
  }

  /** Nothing marks an element as done: an element swept by `setUp` and then
      reported again by a later record is passed to `switchScheme` twice. */
  lemma SweptThenReinserted(body: Node, x: Node)
    requires x in Swept(body)
    ensures var st := Step(Run(Start, SetUpEvents(body, [])), Mutation([x]));
            exists i, j :: 0 <= i < j < |st.transformed| && st.transformed[i] == x && st.transformed[j] == x
  {
    var st := Run(Start, SetUpEvents(body, []));
    SetUpTransformsEachOnce(body, []);
    SteadyMutation(st, [x]);
    var i :| 0 <= i < |st.transformed| && st.transformed[i] == x;
    assert [x][..0] == [];
    assert Expand([x]) == [] + [x] + Descendants(x);
    var st' := Step(st, Mutation([x]));
    assert st'.transformed == st.transformed + ([x] + Descendants(x));
    assert st'.transformed[i] == x && st'.transformed[|st.transformed|] == x;
  }

  /** Once `setUp` has finished, a later mutation transforms its elements and
      their descendants directly, after everything the drain transformed. */
  lemma LaterInsertions(body: Node, early: seq<Node>, late: seq<Node>)
    ensures var st := Run(Start, SetUpEvents(body, early));
            var st' := Step(st, Mutation(late));
            && st'.transformed == st.transformed + Expand(late)
            && st'.pending == st.pending
            && (forall x :: x in late && IsElement(x) ==> x in st'.transformed)
  {
    var st := Run(Start, SetUpEvents(body, early));
    SetUpTransformsEachOnce(body, early);
    SteadyMutation(st, late);
    forall x | x in late && IsElement(x) ensures x in Expand(late) {
      var i :| 0 <= i < |late| && late[i] == x;
      ExpandMembers(late, x);
    }
  }

  // ---------------------------------------------------------------------
  // The imperative protocol
  // ---------------------------------------------------------------------

  /** The state `setUp` keeps in its closure: the `set`, the `isDone` flag, the
      observer's attachment, and the log of `switchScheme` calls. */
  class Engine {
    var observing: bool
    var isDone: bool
    var pending: seq<Node>
    var transformed: seq<Node>

    function St(): State
      reads this
    {
      State(observing, isDone, pending, transformed)
    }

    /** The set never holds a node twice. */
    ghost predicate Valid()
      reads this
    {
      NoDuplicates(pending)
    }

    constructor ()
      ensures St() == Start && Valid()
    {
      observing, isDone, pending, transformed := false, false, [], [];
    }

    /** `observer.observe(document.body, { childList: true, subtree: true })`. */
    method Observe()
      modifies this
      ensures St() == Step(old(St()), Event.Observe)
      ensures Valid() == old(Valid())
    {
      observing := true;
    }

    /** The observer callback for one mutation record with these `addedNodes`. */
    method OnMutation(addedNodes: seq<Node>)
      requires observing && Valid()
      modifies this
      ensures St() == Step(old(St()), Mutation(addedNodes)) && Valid()
    {
      for i := 0 to |addedNodes|
        invariant St() == OnNodesAdded(old(St()), addedNodes[..i])
        invariant Valid()
      {
        assert addedNodes[..i + 1][..i] == addedNodes[..i];
        var node := addedNodes[i];
        if node.kind.ElementNode? {
          if isDone {
            ghost var st0 := St();
            transformed := transformed + [node];
            var children := Descendants(node);
            ghost var before := transformed;
            for j := 0 to |children|
              invariant transformed == before + children[..j]
              invariant observing == st0.observing && isDone == st0.isDone && pending == st0.pending
            {
              assert children[..j + 1] == children[..j] + [children[j]];
              transformed := transformed + [children[j]];
            }
            assert children[..|children|] == children;
          } else if node !in pending {
            AddKeepsNoDuplicates(pending, node);
            pending := pending + [node];
          }
        }
      }
      assert addedNodes[..|addedNodes|] == addedNodes;
    }

    /** The initial sweep: every non-`SCRIPT` element under `body` joins the set. */
    method Sweep(body: Node)
      requires Valid()
      modifies this
      ensures St() == Step(old(St()), Event.Sweep(body)) && Valid()
    {
      var elems := Descendants(body);
      ghost var pending0 := pending;
      var i := 0;
      while i < |elems|
        invariant 0 <= i <= |elems|
        invariant pending == AddAll(pending0, WithoutScripts(elems[..i]))
        invariant Valid()
        invariant observing == old(observing) && isDone == old(isDone) && transformed == old(transformed)
      {
        assert elems[..i + 1][..i] == elems[..i];
        SweepStep(pending0, elems, i);
        SweepOne(elems[i]);
        i := i + 1;
      }
      assert elems[..|elems|] == elems;
    }

    /** The filter and `set.add` for one swept element. */
    method SweepOne(elem: Node)
      requires Valid()
      modifies this`pending
      ensures pending == (if IsScript(elem) then old(pending) else Add(old(pending), elem)) && Valid()
    {
      if !(elem.kind.ElementNode? && elem.kind.nodeName == "SCRIPT") && elem !in pending {
        AddKeepsNoDuplicates(pending, elem);
        pending := pending + [elem];
      }
    }

    /** `isDone = true; set.forEach(switchScheme)`: every member is transformed
        once, in insertion order. */
    method Finish()
      modifies this
      ensures St() == Step(old(St()), Event.Finish)
      ensures Valid() == old(Valid())
    {
      isDone := true;
      for i := 0 to |pending|
        invariant pending == old(pending) && observing == old(observing) && isDone
        invariant transformed == old(transformed) + pending[..i]
      {
        assert pending[..i + 1] == pending[..i] + [pending[i]];
        transformed := transformed + [pending[i]];
      }
      assert pending[..|pending|] == pending;
    }
  }

  /** The synchronous part of `setUp` after the page is ready: arm the observer,
      sweep, then drain. */
  method SetUp(body: Node) returns (engine: Engine)
    ensures fresh(engine) && engine.Valid()
    ensures engine.St() == Step(Step(Step(Start, Observe), Event.Sweep(body)), Event.Finish)
    ensures engine.St().transformed == AddAll([], Swept(body))
  {
    engine := new Engine();
    engine.Observe();
    engine.Sweep(body);
    engine.Finish();
  }
}
