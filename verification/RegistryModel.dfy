/** The node registry as a value: ids are issued once and name one DOM node for ever. */
module RegistryModel {
  import opened Results

  const U32_MAX: nat := 0xffff_ffff

  datatype Node<Dom> = Node(id: nat, dom: Dom)

  /** The two lookups and the next id. */
  datatype Registry<Dom> = Registry(nodeId: nat, byId: map<nat, Node<Dom>>, byNode: map<Dom, Node<Dom>>)

  /** Where an allocation fails during `register`, if one does. */
  datatype Failure = NoFailure | AtLookup | AtCreate | AtPut

  /** `Trapped` is the checked increment of the id counter at its last value. */
  datatype Registered<Dom> = Found(node: Node<Dom>) | OutOfMemory | Trapped

  function Init<Dom>(): Registry<Dom> { Registry(1, map[], map[]) }

  function Register<Dom>(r: Registry<Dom>, dom: Dom, failure: Failure): (Registry<Dom>, Registered<Dom>) {
    // A lookup that cannot grow its table still finds a node that is there.
    if dom in r.byNode then (r, Found(r.byNode[dom]))
    else if failure.AtLookup? then (r, OutOfMemory)
    else if failure.AtCreate? then (r, OutOfMemory)
    else if r.nodeId >= U32_MAX then (r, Trapped)
    else
      // A failing last put has used up the id.
      var next := r.(nodeId := r.nodeId + 1);
      if failure.AtPut? then (next, OutOfMemory)
      else
        var node := Node(r.nodeId, dom);
        (next.(byId := r.byId[r.nodeId := node], byNode := r.byNode[dom := node]), Found(node))
  }

  function Reset<Dom>(r: Registry<Dom>): Registry<Dom> { r.(byId := map[], byNode := map[]) }

  /** Evicts the nodes whose document belongs to the page, all of them or, when the list
      of them cannot be built, none. */
  function ResetFrame<Dom>(r: Registry<Dom>, onPage: Dom -> bool, enough: bool): Registry<Dom> {
    if !enough then r
    else
      r.(byId := map id | id in r.byId && !onPage(r.byId[id].dom) :: r.byId[id],
         byNode := map dom | dom in r.byNode && !onPage(dom) :: r.byNode[dom])
  }

  // ---------------------------------------------------------------------

  /** The lookups are each other's inverse and only hold issued ids. */
  ghost predicate Inverse<Dom>(r: Registry<Dom>) {
    && (forall id :: id in r.byId ==>
          1 <= id < r.nodeId && r.byId[id].id == id && r.byId[id].dom in r.byNode && r.byNode[r.byId[id].dom] == r.byId[id])
    && (forall dom :: dom in r.byNode ==>
          r.byNode[dom].dom == dom && r.byNode[dom].id in r.byId && r.byId[r.byNode[dom].id] == r.byNode[dom])
    && 1 <= r.nodeId <= U32_MAX
  }

  /** Every id issued so far and the node it was issued for. */
  type History<!Dom> = map<nat, Dom>

  /** What resolves does so as it was issued, and nothing is issued twice. */
  ghost predicate True<Dom>(r: Registry<Dom>, issued: History<Dom>) {
    && Inverse(r)
    && (forall id :: id in issued ==> id < r.nodeId)
    && (forall id :: id in r.byId ==> id in issued && issued[id] == r.byId[id].dom)
  }

  datatype Op<!Dom> = DoRegister(dom: Dom, failure: Failure) | DoReset | DoResetFrame(onPage: Dom -> bool, enough: bool)

  function Apply<Dom>(r: Registry<Dom>, op: Op<Dom>): Registry<Dom> {
    match op
    case DoRegister(dom, failure) => Register(r, dom, failure).0
    case DoReset => Reset(r)
    case DoResetFrame(onPage, enough) => ResetFrame(r, onPage, enough)
  }

  /** An id is issued when `register` hands out a node it did not have before. */
  function Issue<Dom>(r: Registry<Dom>, issued: History<Dom>, op: Op<Dom>): History<Dom> {
    if op.DoRegister? && op.dom !in r.byNode && Register(r, op.dom, op.failure).1.Found?
    then issued[r.nodeId := op.dom]
    else issued
  }

  lemma ApplyTrue<Dom>(r: Registry<Dom>, issued: History<Dom>, op: Op<Dom>)
    requires True(r, issued)
    ensures True(Apply(r, op), Issue(r, issued, op))
    ensures forall id :: id in issued ==> id in Issue(r, issued, op) && Issue(r, issued, op)[id] == issued[id]
  {}

  function Run<Dom>(r: Registry<Dom>, ops: seq<Op<Dom>>): Registry<Dom>
    decreases |ops|
  {
    if ops == [] then r else Run(Apply(r, ops[0]), ops[1..])
  }

  function RunHistory<Dom>(r: Registry<Dom>, issued: History<Dom>, ops: seq<Op<Dom>>): History<Dom>
    decreases |ops|
  {
    if ops == [] then issued else RunHistory(Apply(r, ops[0]), Issue(r, issued, ops[0]), ops[1..])
  }

  lemma {:induction false} RunTrue<Dom>(r: Registry<Dom>, issued: History<Dom>, ops: seq<Op<Dom>>)
    requires True(r, issued)
    ensures True(Run(r, ops), RunHistory(r, issued, ops))
    ensures forall id :: id in issued ==> id in RunHistory(r, issued, ops) && RunHistory(r, issued, ops)[id] == issued[id]
    decreases |ops|
  {
    hide True, Apply, Issue;
    if ops != [] {
      ApplyTrue(r, issued, ops[0]);
      RunTrue(Apply(r, ops[0]), Issue(r, issued, ops[0]), ops[1..]);
    }
  }

  /** Over every run: the lookups stay inverse, ids stay below the counter, and an id that
      was issued for a node resolves to that node or to nothing ever after. */
  lemma IssuedIdsStable<Dom>(before: seq<Op<Dom>>, after: seq<Op<Dom>>, id: nat)
    requires id in RunHistory(Init<Dom>(), map[], before)
    ensures var mid := Run(Init<Dom>(), before);
      var end := Run(mid, after);
      && Inverse(mid) && Inverse(end) && id < mid.nodeId <= end.nodeId
      && (id in end.byId ==> end.byId[id].dom == RunHistory(Init<Dom>(), map[], before)[id])
  {
    var mid := Run(Init<Dom>(), before);
    var issued := RunHistory(Init<Dom>(), map[], before);
    RunTrue(Init<Dom>(), map[], before);
    RunTrue(mid, issued, after);
    CounterGrows(mid, after);
  }

  lemma {:induction false} CounterGrows<Dom>(r: Registry<Dom>, ops: seq<Op<Dom>>)
    ensures r.nodeId <= Run(r, ops).nodeId
    decreases |ops|
  {
    if ops != [] {
      CounterGrows(Apply(r, ops[0]), ops[1..]);
    }
  }

  /** What `register` hands out resolves both ways, and asking again gives the same node. */
  lemma RegisterResolves<Dom>(r: Registry<Dom>, dom: Dom, failure: Failure, again: Failure)
    requires Inverse(r) && Register(r, dom, failure).1.Found?
    ensures var (r', out) := Register(r, dom, failure);
      && out.node.dom == dom && out.node.id in r'.byId && r'.byId[out.node.id] == out.node
      && Register(r', dom, again) == (r', out)
  {}

  /** A registered node stays registered until a reset. */
  lemma {:induction false} RegisteredStays<Dom>(r: Registry<Dom>, between: seq<Op<Dom>>, dom: Dom, node: Node<Dom>, failure: Failure)
    requires Inverse(r) && dom in r.byNode && r.byNode[dom] == node
    requires forall k :: 0 <= k < |between| ==> between[k].DoRegister?
    ensures var r' := Run(r, between); Register(r', dom, failure) == (r', Found(node)) && node.id in r'.byId && r'.byId[node.id] == node
    decreases |between|
  {
    if between != [] {
      hide Inverse;
      RegisterKeeps(r, between[0], dom);
      assert forall k :: 0 <= k < |between[1..]| ==> between[1..][k] == between[k + 1];
      RegisteredStays(Apply(r, between[0]), between[1..], dom, node, failure);
    }
  }

  lemma RegisterKeeps<Dom>(r: Registry<Dom>, op: Op<Dom>, dom: Dom)
    requires Inverse(r) && op.DoRegister? && dom in r.byNode
    ensures var r' := Apply(r, op); Inverse(r') && dom in r'.byNode && r'.byNode[dom] == r.byNode[dom]
  {
    if !Register(r, op.dom, op.failure).1.Found? {
      FailureKeepsLookups(r, op.dom, op.failure);
    }
  }

  /** What `register` hands out resolves both ways for as long as nothing is reset, and
      asking again then gives the same node, whatever was registered, or failed to be, in
      between. */
  lemma RegisterIsPermanent<Dom>(r: Registry<Dom>, dom: Dom, failure: Failure, between: seq<Op<Dom>>, again: Failure)
    requires Inverse(r) && Register(r, dom, failure).1.Found?
    requires forall k :: 0 <= k < |between| ==> between[k].DoRegister?
    ensures var (r', out) := Register(r, dom, failure);
      var end := Run(r', between);
      && out.node.dom == dom && out.node.id in end.byId && end.byId[out.node.id] == out.node
      && Register(end, dom, again) == (end, out)
  {
    var (r', out) := Register(r, dom, failure);
    RegisterResolves(r, dom, failure, again);
    ApplyInverse(r, DoRegister(dom, failure));
    RegisteredStays(r', between, dom, out.node, again);
  }

  lemma ApplyInverse<Dom>(r: Registry<Dom>, op: Op<Dom>)
    requires Inverse(r)
    ensures Inverse(Apply(r, op))
  {}

  /** A node that is new gets the next id, and the one after that is next. */
  lemma RegisterFresh<Dom>(r: Registry<Dom>, dom: Dom)
    requires dom !in r.byNode && r.nodeId < 0xffff_ffff
    ensures var node := Node(r.nodeId, dom);
      Register(r, dom, NoFailure) ==
        (Registry(r.nodeId + 1, r.byId[r.nodeId := node], r.byNode[dom := node]), Found(node))
  {}

  /** A reset empties both lookups and keeps the counter; a page's reset without the memory
      for its list changes nothing, and otherwise exactly the page's nodes stop resolving. */
  lemma ResetsForget<Dom>(r: Registry<Dom>, onPage: Dom -> bool)
    requires Inverse(r)
    ensures Reset(r) == Registry(r.nodeId, map[], map[])
    ensures ResetFrame(r, onPage, false) == r
    ensures var r' := ResetFrame(r, onPage, true);
      && r'.nodeId == r.nodeId
      && (forall id :: id in r'.byId <==> id in r.byId && !onPage(r.byId[id].dom))
      && (forall id :: id in r'.byId ==> r'.byId[id] == r.byId[id])
      && (forall dom :: dom in r'.byNode <==> dom in r.byNode && !onPage(dom))
      && (forall dom :: dom in r'.byNode ==> r'.byNode[dom] == r.byNode[dom])
  {}

  /** A failing `register` changes no lookup. */
  lemma FailureKeepsLookups<Dom>(r: Registry<Dom>, dom: Dom, failure: Failure)
    requires !Register(r, dom, failure).1.Found?
    ensures var r' := Register(r, dom, failure).0;
      r'.byId == r.byId && r'.byNode == r.byNode && r.nodeId <= r'.nodeId <= r.nodeId + 1
      && (r'.nodeId == r.nodeId + 1 <==> failure.AtPut? && dom !in r.byNode && r.nodeId < U32_MAX)
  {}
}
