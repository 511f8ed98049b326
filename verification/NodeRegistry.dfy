/** The registry's methods over its two mutable maps. */
module NodeRegistry {
  import opened RegistryModel
  import opened Results

  class NodeRegistry<Dom(==)> {
    var nodeId: nat
    var lookupById: map<nat, Node<Dom>>
    var lookupByNode: map<Dom, Node<Dom>>

    ghost function View(): Registry<Dom>
      reads this
    {
      Registry(nodeId, lookupById, lookupByNode)
    }

    constructor ()
      ensures View() == Init()
    {
      nodeId, lookupById, lookupByNode := 1, map[], map[];
    }

    method Reset()
      modifies this`lookupById, this`lookupByNode
      ensures View() == RegistryModel.Reset(old(View()))
    {
      lookupById := map[];
      lookupByNode := map[];
    }

    method Register(dom: Dom, failure: Failure) returns (r: Registered<Dom>)
      modifies this
      ensures (View(), r) == RegistryModel.Register(old(View()), dom, failure)
    {
      if dom in lookupByNode {
        return Found(lookupByNode[dom]);
      }
      if failure.AtLookup? {
        return OutOfMemory;
      }
      ghost var before := lookupByNode;
      if failure.AtCreate? {
        return OutOfMemory;
      }
      if nodeId >= U32_MAX {
        return Trapped;
      }
      var id := nodeId;
      nodeId := id + 1;
      var node := Node(id, dom);
      lookupByNode := lookupByNode[dom := node];
      if failure.AtPut? {
        lookupByNode := lookupByNode - {dom};
        assert lookupByNode == before;
        return OutOfMemory;
      }
      lookupById := lookupById[id := node];
      return Found(node);
    }

    /** Collects the page's nodes, then removes them; `memory` bounds the collection. */
    method ResetFrame(onPage: Dom -> bool, memory: nat)
      requires Inverse(View())
      modifies this`lookupById, this`lookupByNode
      ensures View() == RegistryModel.ResetFrame(old(View()), onPage, |OnPage(old(View()), onPage)| <= memory)
    {
      var ok, doomed := Collect(onPage, memory);
      if ok {
        Evict(onPage, doomed);
      }
    }

    method Collect(onPage: Dom -> bool, memory: nat) returns (ok: bool, doomed: seq<Node<Dom>>)
      requires Inverse(View())
      ensures ok <==> |OnPage(View(), onPage)| <= memory
      ensures ok ==> AllDoomed(View(), onPage, doomed)
    {
      hide OnPage, DoomedIn, AllIn, Inverse;
      doomed := [];
      var todo := lookupById.Keys;
      ghost var seen: set<nat> := {};
      NoneSeen(View(), onPage);
      while todo != {}
        invariant todo !! seen && todo + seen == lookupById.Keys
        invariant |doomed| <= memory && |doomed| == |DoomedIn(View(), onPage, seen)|
        invariant AllIn(View(), onPage, doomed, seen)
        decreases |todo|
      {
        var id :| id in todo;
        var node := lookupById[id];
        DoomedGrows(View(), onPage, seen, id);
        AllInGrows(View(), onPage, doomed, seen, id);
        if onPage(node.dom) {
          if |doomed| == memory {
            AllSeen(View(), onPage, seen + {id});
            return false, doomed;
          }
          doomed := doomed + [node];
        }
        todo := todo - {id};
        seen := seen + {id};
      }
      assert seen == lookupById.Keys;
      AllSeen(View(), onPage, seen);
      return true, doomed;
    }

    method Evict(onPage: Dom -> bool, doomed: seq<Node<Dom>>)
      requires Inverse(View()) && AllDoomed(View(), onPage, doomed)
      modifies this`lookupById, this`lookupByNode
      ensures View() == RegistryModel.ResetFrame(old(View()), onPage, true)
    {
      ghost var r := View();
      for i := 0 to |doomed|
        invariant nodeId == r.nodeId
        invariant lookupById == r.byId - set k | 0 <= k < i :: doomed[k].id
        invariant lookupByNode == r.byNode - set k | 0 <= k < i :: doomed[k].dom
      {
        lookupById := lookupById - {doomed[i].id};
        lookupByNode := lookupByNode - {doomed[i].dom};
      }
      RemovesPage(r, onPage, doomed);
    }
  }

  /** The page's nodes among `ids`, each of them and nothing else. */
  ghost predicate AllIn<Dom>(r: Registry<Dom>, onPage: Dom -> bool, doomed: seq<Node<Dom>>, ids: set<nat>)
    requires ids <= r.byId.Keys
  {
    && (forall i :: 0 <= i < |doomed| ==>
          doomed[i].id in ids && r.byId[doomed[i].id] == doomed[i] && onPage(doomed[i].dom))
    && (forall id :: id in ids && onPage(r.byId[id].dom) ==> r.byId[id] in doomed)
  }

  ghost predicate AllDoomed<Dom>(r: Registry<Dom>, onPage: Dom -> bool, doomed: seq<Node<Dom>>) {
    AllIn(r, onPage, doomed, r.byId.Keys)
  }

  lemma NoneSeen<Dom>(r: Registry<Dom>, onPage: Dom -> bool)
    ensures DoomedIn(r, onPage, {}) == {} && AllIn(r, onPage, [], {})
  {}

  lemma AllInGrows<Dom>(r: Registry<Dom>, onPage: Dom -> bool, doomed: seq<Node<Dom>>, ids: set<nat>, id: nat)
    requires Inverse(r) && ids <= r.byId.Keys && id in r.byId && AllIn(r, onPage, doomed, ids)
    ensures AllIn(r, onPage, if onPage(r.byId[id].dom) then doomed + [r.byId[id]] else doomed, ids + {id})
  {
    var node := r.byId[id];
    var more := if onPage(node.dom) then doomed + [node] else doomed;
    forall x | x in ids + {id} && onPage(r.byId[x].dom)
      ensures r.byId[x] in more
    {
      if x == id {
        assert more[|doomed|] == node;
      } else {
        var i :| 0 <= i < |doomed| && doomed[i] == r.byId[x];
        assert more[i] == r.byId[x];
      }
    }
  }

  ghost function DoomedIn<Dom>(r: Registry<Dom>, onPage: Dom -> bool, ids: set<nat>): set<nat> {
    set id | id in ids && id in r.byId && onPage(r.byId[id].dom)
  }

  /** The ids of the page's nodes. */
  ghost function OnPage<Dom>(r: Registry<Dom>, onPage: Dom -> bool): set<nat> {
    set id | id in r.byId && onPage(r.byId[id].dom)
  }

  lemma DoomedGrows<Dom>(r: Registry<Dom>, onPage: Dom -> bool, ids: set<nat>, id: nat)
    requires id in r.byId && id !in ids
    ensures |DoomedIn(r, onPage, ids + {id})| == |DoomedIn(r, onPage, ids)| + if onPage(r.byId[id].dom) then 1 else 0
  {
    var more := DoomedIn(r, onPage, ids + {id});
    if onPage(r.byId[id].dom) {
      assert more == DoomedIn(r, onPage, ids) + {id};
    } else {
      assert more == DoomedIn(r, onPage, ids);
    }
  }

  lemma AllSeen<Dom>(r: Registry<Dom>, onPage: Dom -> bool, ids: set<nat>)
    requires ids <= r.byId.Keys
    ensures |DoomedIn(r, onPage, ids)| <= |OnPage(r, onPage)|
    ensures ids == r.byId.Keys ==> DoomedIn(r, onPage, ids) == OnPage(r, onPage)
  {
    var rest := OnPage(r, onPage) - DoomedIn(r, onPage, ids);
    assert OnPage(r, onPage) == DoomedIn(r, onPage, ids) + rest;
  }

  /** Removing the collected nodes from both lookups leaves exactly the other pages'. */
  lemma RemovesPage<Dom>(r: Registry<Dom>, onPage: Dom -> bool, doomed: seq<Node<Dom>>)
    requires Inverse(r) && AllDoomed(r, onPage, doomed)
    ensures var ids, doms := set k | 0 <= k < |doomed| :: doomed[k].id, set k | 0 <= k < |doomed| :: doomed[k].dom;
      r.(byId := r.byId - ids, byNode := r.byNode - doms) == RegistryModel.ResetFrame(r, onPage, true)
  {
    var ids, doms := set k | 0 <= k < |doomed| :: doomed[k].id, set k | 0 <= k < |doomed| :: doomed[k].dom;
    forall id | id in r.byId
      ensures id in ids <==> onPage(r.byId[id].dom)
    {
      if onPage(r.byId[id].dom) {
        var k :| 0 <= k < |doomed| && doomed[k] == r.byId[id];
        assert doomed[k].id in ids;
      }
    }
    forall dom | dom in r.byNode
      ensures dom in doms <==> onPage(dom)
    {
      if onPage(dom) {
        var k :| 0 <= k < |doomed| && doomed[k] == r.byId[r.byNode[dom].id];
        assert doomed[k].dom in doms;
      }
    }
  }
}
