/**
 * The singly linked list of script.js (lines 90-112) that the traversal scans:
 * one `GraphNode` per vertex holding the vertex number and its row of the
 * weight matrix, and `NodeList.append`, which walks to the tail and links a
 * new node there. `BuildNodeList` is the loop of lines 131-132.
 */
module NodeLists {

  class GraphNode {
    const value: int
    const weight: seq<int>
    var next: GraphNode?

    constructor (value: int, weight: seq<int>)
      ensures this.value == value && this.weight == weight && next == null
    {
      this.value := value;
      this.weight := weight;
      next := null;
    }
  }

  class NodeList {
    var head: GraphNode?
    /** The nodes in list order, from `head` along `next`. */
    ghost var nodes: seq<GraphNode>
    ghost var Repr: set<object>

    /**
     * `head` is the first node, each node's `next` is the one after it and the
     * last one's is null; no node occurs twice, so the list has no cycle.
     */
    ghost predicate Valid()
      reads this, Repr
      ensures Valid() ==> this in Repr
    {
      && this in Repr
      && (forall k :: 0 <= k < |nodes| ==> nodes[k] in Repr)
      && head == (if |nodes| == 0 then null else nodes[0])
      && (forall k :: 0 <= k < |nodes| ==> nodes[k].next == if k + 1 < |nodes| then nodes[k + 1] else null)
      && (forall k, l :: 0 <= k < l < |nodes| ==> nodes[k] != nodes[l])
    }

    /** The `(value, weight)` pairs of the nodes, in list order. */
    ghost function Contents(): (entries: seq<(int, seq<int>)>)
      reads this
      ensures |entries| == |nodes|
    {
      var ns := nodes;
      seq(|ns|, k requires 0 <= k < |ns| => (ns[k].value, ns[k].weight))
    }

    constructor ()
      ensures Valid() && fresh(Repr)
      ensures nodes == [] && Contents() == []
    {
      head := null;
      nodes := [];
      Repr := {this};
    }

    /**
     * Links a new node `(value, weight)` after the current tail. The nodes
     * that were there keep their order and their contents; the new one is
     * the last and its `next` is null.
     */
    method Append(value: int, weight: seq<int>)
      requires Valid()
      modifies Repr
      ensures Valid() && fresh(Repr - old(Repr))
      ensures |nodes| == |old(nodes)| + 1 && nodes[..|old(nodes)|] == old(nodes)
      ensures nodes[|old(nodes)|].next == null
      ensures Contents() == old(Contents()) + [(value, weight)]
    {
      // the new node is allocated once the tail is known; nothing reads it before
      var newNode: GraphNode;
      if head == null {
        newNode := new GraphNode(value, weight);
        head := newNode;
      } else {
        var current := head;
        ghost var k := 0;
        assert forall j :: 0 <= j < |nodes| ==> nodes[j].next == if j + 1 < |nodes| then nodes[j + 1] else null;
        while current.next != null
          invariant Valid()
          invariant 0 <= k < |nodes| && current == nodes[k]
          invariant current.next == if k + 1 < |nodes| then nodes[k + 1] else null
          decreases |nodes| - k
        {
          current := current.next;
          k := k + 1;
        }
        assert k == |nodes| - 1;
        newNode := new GraphNode(value, weight);
        current.next := newNode;
      }
      nodes := nodes + [newNode];
      Repr := Repr + {newNode};
    }
  }

  /**
   * Lines 114 and 131-132: a new list filled with `(i, rows[i])` for every
   * row in order, so node `k` holds vertex `k` and its row.
   */
  method BuildNodeList(rows: seq<seq<int>>) returns (list: NodeList)
    ensures list.Valid() && fresh(list.Repr)
    ensures |list.nodes| == |rows|
    ensures forall k :: 0 <= k < |rows| ==> list.Contents()[k] == (k, rows[k])
    ensures |rows| > 0 ==> list.head != null && list.head.value == 0
  {
    list := new NodeList();
    for i := 0 to |rows|
      invariant list.Valid() && fresh(list.Repr)
      invariant |list.nodes| == i
      invariant forall k :: 0 <= k < i ==> list.Contents()[k] == (k, rows[k])
    {
      list.Append(i, rows[i]);
    }
    if |rows| > 0 {
      assert list.Contents()[0] == (0, rows[0]);
    }
  }
}
